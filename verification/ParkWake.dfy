/** One processor going idle and any number of others queueing work for it:
    the idle handshake of the executor on top of `park_current`, the wake flag
    and the wake interrupt. Every atomic access is a step of its own; the order
    of steps is the single total order of the sequentially consistent accesses. */
module ParkWake {

  datatype IdleState = Running | Polling | Parked

  /** Where the owner stands. From `Published` on its idle state reads
      `Parked`; `Looked` has seen no work since; `Masked` to `Woken` run with
      interrupts masked; `Waiting` is inside `wfi`. */
  datatype OwnerPc = Working | Polls | Published | FoundWork | Looked | Masked | Waiting | Woken | Restored

  /** Where another processor stands: it has pushed and knows the count before,
      it has decided to wake, or it has set the flag, in the owner's look number
      `look` (0 when the owner was not committed to sleeping). */
  datatype WakerPc = Away | Pushed(previous: nat) | WillWake | FlagSet(look: nat)

  datatype Sys = Sys(
    ready: nat,
    idle: IdleState,
    flag: bool,
    sgi: bool,
    masked: bool,
    saved: bool,
    pc: OwnerPc,
    wakers: seq<WakerPc>,
    look: nat,  // how often the owner has found no work
    owed: bool, // the flag was set since the last of these looks
    done: bool) // and by a waker that has sent its interrupt too

  /** Steps of the owner and of its interrupts. */
  datatype Step =
    | Pop | StartPolling | KeepPolling | StopPolling | Publish | LookAgain | GiveUp
    | MaskIrq | SwapFlag | WfiDone(spurious: bool) | RestoreIrq | Resume
    | TakeSgi | SelfSchedule

  /** Steps of another processor. */
  datatype Move = Push | LoadState | SetFlag | SendSgi

  datatype Action = Own(step: Step) | Other(w: nat, move: Move)

  predicate StepEnabled(s: Sys, step: Step) {
    match step
    case Pop => s.pc.Working? && s.ready > 0
    case StartPolling => s.pc.Working? && s.ready == 0
    case KeepPolling => s.pc.Polls? && s.ready == 0
    case StopPolling => s.pc.Polls? && s.ready != 0
    case Publish => s.pc.Polls?
    case LookAgain => s.pc.Published?
    case GiveUp => s.pc.FoundWork?
    case MaskIrq => s.pc.Looked?
    case SwapFlag => s.pc.Masked?
    case WfiDone(spurious) => s.pc.Waiting? && (spurious || s.sgi)
    case RestoreIrq => s.pc.Woken?
    case Resume => s.pc.Restored?
    case TakeSgi => !s.masked && s.sgi
    case SelfSchedule => !s.masked
  }

  predicate MoveEnabled(s: Sys, w: nat, move: Move) {
    w < |s.wakers| &&
    match move
    case Push => s.wakers[w].Away?
    case LoadState => s.wakers[w].Pushed?
    case SetFlag => s.wakers[w].WillWake?
    case SendSgi => s.wakers[w].FlagSet?
  }

  predicate Enabled(s: Sys, a: Action) {
    match a
    case Own(step) => StepEnabled(s, step)
    case Other(w, move) => MoveEnabled(s, w, move)
  }

  /** The owner has seen no work and not yet come back. */
  predicate Committed(pc: OwnerPc) {
    pc.Looked? || pc.Masked? || pc.Waiting?
  }

  /** A waker that has set the flag since the owner last found no work. */
  predicate OfThisLook(s: Sys, waker: WakerPc) {
    Committed(s.pc) && waker.FlagSet? && waker.look == s.look > 0
  }

  function ApplyStep(s: Sys, step: Step): (t: Sys)
    requires StepEnabled(s, step)
    ensures t.wakers == s.wakers
  {
    match step
    case Pop => s.(ready := s.ready - 1)
    case StartPolling => s.(pc := Polls, idle := Polling)
    case KeepPolling => s
    case StopPolling => s.(pc := Working, idle := Running)
    case Publish => s.(pc := Published, idle := Parked)
    case LookAgain => if s.ready != 0 then s.(pc := FoundWork) else s.(pc := Looked, look := s.look + 1, owed := false, done := false)
    case GiveUp => s.(pc := Working, idle := Running)
    case MaskIrq => s.(pc := Masked, saved := s.masked, masked := true)
    case SwapFlag => s.(flag := false, pc := if s.flag then Woken else Waiting)
    case WfiDone(_) => s.(pc := Woken)
    case RestoreIrq => s.(pc := Restored, masked := s.saved)
    case Resume => s.(pc := Working, idle := Running)
    case TakeSgi => s.(sgi := false)
    case SelfSchedule => s.(ready := s.ready + 1)
  }

  function ApplyMove(s: Sys, w: nat, move: Move): (t: Sys)
    requires MoveEnabled(s, w, move)
    ensures t.pc == s.pc && t.idle == s.idle && t.masked == s.masked && t.saved == s.saved && t.look == s.look
    ensures |t.wakers| == |s.wakers| && forall v :: 0 <= v < |s.wakers| && v != w ==> t.wakers[v] == s.wakers[v]
  {
    match move
    case Push => s.(ready := s.ready + 1, wakers := s.wakers[w := Pushed(s.ready)])
    case LoadState =>
      s.(wakers := s.wakers[w := if s.wakers[w].previous == 0 && s.idle.Parked? then WillWake else Away])
    case SetFlag =>
      s.(flag := true, owed := s.owed || Committed(s.pc), wakers := s.wakers[w := FlagSet(if Committed(s.pc) then s.look else 0)])
    case SendSgi => s.(sgi := true, done := s.done || OfThisLook(s, s.wakers[w]), wakers := s.wakers[w := Away])
  }

  function Apply(s: Sys, a: Action): Sys
    requires Enabled(s, a)
  {
    match a
    case Own(step) => ApplyStep(s, step)
    case Other(w, move) => ApplyMove(s, w, move)
  }

  // ---- Invariant

  /** Some processor has still to set the flag and will. */
  predicate Coming(wakers: seq<WakerPc>) {
    exists w :: 0 <= w < |wakers| && (wakers[w] == Pushed(0) || wakers[w].WillWake?)
  }

  predicate Sending(wakers: seq<WakerPc>) {
    exists w :: 0 <= w < |wakers| && wakers[w].FlagSet?
  }

  /** A wake is under way that the owner cannot miss from where it stands. */
  predicate Signalled(s: Sys) {
    if s.pc.Waiting? then Coming(s.wakers) || Sending(s.wakers) || s.sgi else Coming(s.wakers) || s.flag
  }

  /** The idle state published at each place, and the mask where it is up. */
  predicate Idling(s: Sys) {
    && (s.idle.Running? <==> s.pc.Working?) && (s.idle.Polling? <==> s.pc.Polls?)
    && (s.pc.Masked? || s.pc.Waiting? || s.pc.Woken? ==> s.masked)
    && (Committed(s.pc) ==> s.look > 0)
  }

  /** A flag set since the last look is still up when the owner comes to swap
      it. Once the owner waits, the interrupt of every waker that has finished
      is pending, whatever the others are doing. */
  predicate Owed(s: Sys) {
    && (forall w :: 0 <= w < |s.wakers| && s.wakers[w].FlagSet? ==> s.wakers[w].look <= s.look)
    && (forall w :: 0 <= w < |s.wakers| && OfThisLook(s, s.wakers[w]) ==> s.owed)
    && (Committed(s.pc) && s.done ==> s.owed)
    && ((s.pc.Looked? || s.pc.Masked?) && s.owed ==> s.flag)
    && (s.pc.Waiting? && s.done ==> s.sgi)
  }

  predicate Inv(s: Sys) {
    Idling(s) && Owed(s) && (Committed(s.pc) && s.ready > 0 ==> Signalled(s))
  }

  /** The only step that can break the handshake: the owner's own interrupt
      handler queues work between the last look and the mask. It does not wake
      its own processor. */
  predicate InWindow(s: Sys, a: Action) {
    a == Own(SelfSchedule) && s.pc.Looked?
  }

  lemma FlagStep(s: Sys, step: Step)
    requires Idling(s) && Owed(s) && StepEnabled(s, step)
    ensures Idling(ApplyStep(s, step)) && Owed(ApplyStep(s, step))
  {
    hide Coming, Sending;
    IdleStep(s, step);
    hide Idling;
    OwedStep(s, step);
  }

  lemma IdleStep(s: Sys, step: Step)
    requires Idling(s) && StepEnabled(s, step)
    ensures Idling(ApplyStep(s, step))
  {
  }

  lemma OwedStep(s: Sys, step: Step)
    requires Idling(s) && Owed(s) && StepEnabled(s, step)
    ensures Owed(ApplyStep(s, step))
  {
    hide Owed;
    var t := ApplyStep(s, step);
    match step {
      case LookAgain => OwedLook(s);
      case SwapFlag => OwedSwap(s);
      case _ =>
        assert t.wakers == s.wakers && t.look == s.look && t.owed == s.owed && t.done == s.done && t.flag == s.flag;
        assert (t.pc.Looked? || t.pc.Masked? ==> s.pc.Looked? || s.pc.Masked?) && (t.pc.Waiting? ==> s.pc.Waiting? && t.sgi == s.sgi);
        OwedLike(s, t);
    }
  }

  lemma OwedLook(s: Sys)
    requires Owed(s) && s.pc.Published?
    ensures Owed(ApplyStep(s, LookAgain))
  {
  }

  lemma OwedSwap(s: Sys)
    requires Owed(s) && s.pc.Masked?
    ensures Owed(ApplyStep(s, SwapFlag))
  {
  }

  lemma OwedLike(s: Sys, t: Sys)
    requires Owed(s) && t.wakers == s.wakers && t.look == s.look && t.owed == s.owed && t.done == s.done && t.flag == s.flag
    requires (t.pc.Looked? || t.pc.Masked? ==> s.pc.Looked? || s.pc.Masked?) && (t.pc.Waiting? ==> s.pc.Waiting? && t.sgi == s.sgi)
    ensures Owed(t)
  {
  }

  lemma SendingStays(s: Sys, w: nat, move: Move)
    requires MoveEnabled(s, w, move) && Sending(s.wakers)
    ensures Sending(ApplyMove(s, w, move).wakers) || ApplyMove(s, w, move).sgi
  {
    var v :| 0 <= v < |s.wakers| && s.wakers[v].FlagSet?;
    assert v == w || ApplyMove(s, w, move).wakers[v].FlagSet?;
  }

  lemma FlagMove(s: Sys, w: nat, move: Move)
    requires Idling(s) && Owed(s) && MoveEnabled(s, w, move)
    ensures Idling(ApplyMove(s, w, move)) && Owed(ApplyMove(s, w, move))
  {
    assert Idling(ApplyMove(s, w, move));
    OwedMove(s, w, move);
  }

  lemma OwedMove(s: Sys, w: nat, move: Move)
    requires Owed(s) && MoveEnabled(s, w, move)
    ensures Owed(ApplyMove(s, w, move))
  {
    match move {
      case SetFlag =>
      case SendSgi =>
      case _ =>
    }
  }

  lemma ComingStays(s: Sys, w: nat, move: Move)
    requires MoveEnabled(s, w, move) && Coming(s.wakers) && s.idle.Parked?
    ensures Coming(ApplyMove(s, w, move).wakers) || (ApplyMove(s, w, move).flag && Sending(ApplyMove(s, w, move).wakers))
  {
    var v :| 0 <= v < |s.wakers| && (s.wakers[v] == Pushed(0) || s.wakers[v].WillWake?);
    var t := ApplyMove(s, w, move);
    assert t.wakers[v] == s.wakers[v] || t.wakers[v].WillWake? || t.wakers[v].FlagSet?;
  }

  lemma OwnKeeps(s: Sys, step: Step)
    requires Inv(s) && StepEnabled(s, step) && !InWindow(s, Own(step))
    ensures Inv(ApplyStep(s, step))
  {
    hide Owed, Coming, Sending;
    FlagStep(s, step);
  }

  lemma OtherKeeps(s: Sys, w: nat, move: Move)
    requires Inv(s) && MoveEnabled(s, w, move)
    ensures Inv(ApplyMove(s, w, move))
  {
    var t := ApplyMove(s, w, move);
    FlagMove(s, w, move);
    if Committed(s.pc) {
      if Coming(s.wakers) { ComingStays(s, w, move); }
      if Sending(s.wakers) { SendingStays(s, w, move); }
      assert s.ready == 0 && move.Push? ==> t.wakers[w] == Pushed(0);
      assert s.ready == 0 && move.Push? ==> Coming(t.wakers);
    }
  }

  /** Every step but a self-schedule in the window keeps the handshake. */
  lemma StepKeeps(s: Sys, a: Action)
    requires Inv(s) && Enabled(s, a) && !InWindow(s, a)
    ensures Inv(Apply(s, a))
  {
    hide Inv, ApplyStep, ApplyMove;
    match a
    case Own(step) => OwnKeeps(s, step);
    case Other(w, move) => OtherKeeps(s, w, move);
  }

  // ---- Runs

  predicate Leads(s: Sys, schedule: seq<Action>, t: Sys)
    decreases |schedule|
  {
    if schedule == [] then t == s
    else Enabled(s, schedule[0]) && Leads(Apply(s, schedule[0]), schedule[1..], t)
  }

  /** No step of the run is a self-schedule in the window. */
  predicate WindowClear(s: Sys, schedule: seq<Action>)
    decreases |schedule|
  {
    schedule == [] ||
    (Enabled(s, schedule[0]) ==> !InWindow(s, schedule[0]) && WindowClear(Apply(s, schedule[0]), schedule[1..]))
  }

  predicate Booted(s: Sys) {
    s.pc.Working? && s.idle.Running? && !s.flag && !s.sgi
    && forall w :: 0 <= w < |s.wakers| ==> s.wakers[w].Away?
  }

  /** Asleep over work, with nothing left that could wake it. */
  predicate Lost(s: Sys) {
    && s.pc.Waiting? && s.ready > 0 && !s.sgi
    && forall w :: 0 <= w < |s.wakers| ==> s.wakers[w].Away?
  }

  lemma {:induction false} LeadsInv(s: Sys, schedule: seq<Action>, t: Sys)
    requires Inv(s) && Leads(s, schedule, t) && WindowClear(s, schedule)
    ensures Inv(t)
    decreases |schedule|
  {
    if schedule != [] {
      StepKeeps(s, schedule[0]);
      LeadsInv(Apply(s, schedule[0]), schedule[1..], t);
    }
  }

  /** In every reachable state: if the owner is inside `wfi` with work queued,
      then the interrupt is pending or a processor that has still to send it is
      on the way; once every waker is done, it is pending. And once one waker
      has set the flag since the last look and finished, it is pending,
      whatever the other wakers are doing. */
  lemma NoLostWakeup(s: Sys, schedule: seq<Action>, t: Sys)
    requires Booted(s) && Leads(s, schedule, t) && WindowClear(s, schedule)
    ensures !Lost(t)
    ensures t.pc.Waiting? && t.ready > 0 ==> t.sgi || Coming(t.wakers) || Sending(t.wakers)
    ensures t.pc.Waiting? && t.done ==> t.sgi
    ensures t.pc.Waiting? && t.sgi ==> Enabled(t, Own(WfiDone(false)))
  {
    LeadsInv(s, schedule, t);
  }

  /** The flag half needs no hypothesis about the window: a `wake_processor`
      completed since the last look is never slept through. */
  lemma {:induction false} OwedAlways(s: Sys, schedule: seq<Action>, t: Sys)
    requires Idling(s) && Owed(s) && Leads(s, schedule, t)
    ensures Owed(t) && Idling(t) && (t.pc.Waiting? && t.done ==> t.sgi)
    decreases |schedule|
  {
    if schedule != [] {
      match schedule[0] {
        case Own(step) => FlagStep(s, step);
        case Other(w, move) => FlagMove(s, w, move);
      }
      OwedAlways(Apply(s, schedule[0]), schedule[1..], t);
    }
  }

  /** Before the swap, no waker about to set the flag and the flag down: every
      waker can run to its end without raising it. */
  lemma {:induction false} WakersFinish(s: Sys, n: nat) returns (schedule: seq<Action>, t: Sys)
    requires n <= |s.wakers| && s.pc.Looked? && !s.flag && !Coming(s.wakers)
    requires forall w :: 0 <= w < n ==> s.wakers[w].Away?
    ensures Leads(s, schedule, t) && WindowClear(s, schedule)
    ensures t == s.(wakers := t.wakers, sgi := t.sgi, done := t.done)
    ensures |t.wakers| == |s.wakers| && forall w :: 0 <= w < |t.wakers| ==> t.wakers[w].Away?
    decreases |s.wakers| - n
  {
    if n == |s.wakers| {
      return [], s;
    } else if s.wakers[n].Away? {
      schedule, t := WakersFinish(s, n + 1);
    } else {
      assert s.wakers[n] != Pushed(0) && !s.wakers[n].WillWake?;
      var a := Other(n, if s.wakers[n].Pushed? then LoadState else SendSgi);
      var s' := Apply(s, a);
      NoneComes(s, n, a.move);
      var rest;
      rest, t := WakersFinish(s', n + 1);
      schedule := [a] + rest;
      PrependClear(s, a, rest, t);
    }
  }

  lemma NoneComes(s: Sys, n: nat, move: Move)
    requires n < |s.wakers| && !Coming(s.wakers) && MoveEnabled(s, n, move) && (move.LoadState? || move.SendSgi?)
    ensures !Coming(ApplyMove(s, n, move).wakers)
    ensures ApplyMove(s, n, move).wakers[n].Away?
  {
    var s' := ApplyMove(s, n, move);
    assert s.wakers[n] != Pushed(0);
    forall w | 0 <= w < |s'.wakers| ensures s'.wakers[w] != Pushed(0) && !s'.wakers[w].WillWake? {
      assert s.wakers[w] != Pushed(0) && !s.wakers[w].WillWake?;
    }
  }

  lemma PrependClear(s: Sys, a: Action, rest: seq<Action>, t: Sys)
    requires Enabled(s, a) && !InWindow(s, a) && Leads(Apply(s, a), rest, t) && WindowClear(Apply(s, a), rest)
    ensures Leads(s, [a] + rest, t) && WindowClear(s, [a] + rest)
  {
    assert ([a] + rest)[1..] == rest;
  }

  lemma {:induction false} AppendClear(s: Sys, first: seq<Action>, t: Sys, rest: seq<Action>, u: Sys)
    requires Leads(s, first, t) && WindowClear(s, first) && Leads(t, rest, u) && WindowClear(t, rest)
    ensures Leads(s, first + rest, u) && WindowClear(s, first + rest)
    decreases |first|
  {
    if first == [] {
      assert first + rest == rest;
    } else {
      AppendClear(Apply(s, first[0]), first[1..], t, rest, u);
      assert (first + rest)[1..] == first[1..] + rest;
    }
  }

  /** From the last look to sleep, with every waker away: the pending interrupt
      is taken, then the owner masks and swaps a flag that is down. */
  lemma SleepsOver(t: Sys) returns (schedule: seq<Action>, u: Sys)
    requires t.pc.Looked? && !t.masked && !t.flag && t.ready > 0 && forall w :: 0 <= w < |t.wakers| ==> t.wakers[w].Away?
    ensures Leads(t, schedule, u) && WindowClear(t, schedule) && Lost(u)
  {
    var t1 := t.(sgi := false);
    var t2 := ApplyStep(t1, MaskIrq);
    u := ApplyStep(t2, SwapFlag);
    schedule := [Own(SwapFlag)];
    PrependClear(t2, Own(SwapFlag), [], u);
    assert [Own(SwapFlag)] + [] == schedule;
    PrependClear(t1, Own(MaskIrq), schedule, u);
    schedule := [Own(MaskIrq)] + schedule;
    if t.sgi {
      PrependClear(t, Own(TakeSgi), schedule, u);
      schedule := [Own(TakeSgi)] + schedule;
    }
  }

  /** The wake can be lost after a self-schedule in the window, by the steps of
      this processor and of the wakers already under way. */
  ghost predicate CanLose(s: Sys) {
    exists schedule, t :: Leads(s, schedule, t) && WindowClear(s, schedule) && Lost(t)
  }

  lemma SignalledStays(s: Sys)
    requires Inv(s) && s.pc.Looked? && !s.masked && Signalled(s)
    ensures !CanLose(ApplyStep(s, SelfSchedule))
  {
    var s1 := ApplyStep(s, SelfSchedule);
    assert Inv(s1);
    forall schedule, t | Leads(s1, schedule, t) && WindowClear(s1, schedule) ensures !Lost(t) {
      LeadsInv(s1, schedule, t);
      InvNotLost(t);
    }
  }

  lemma InvNotLost(t: Sys)
    requires Inv(t)
    ensures !Lost(t)
  {
  }

  /** A self-schedule in the window: the wake can be lost if and only if none
      was under way when it happened. */
  lemma WindowIff(s: Sys)
    requires Inv(s) && s.pc.Looked? && Enabled(s, Own(SelfSchedule))
    ensures CanLose(Apply(s, Own(SelfSchedule))) <==> !Signalled(s)
  {
    if Signalled(s) {
      SignalledStays(s);
    } else {
      var s1 := ApplyStep(s, SelfSchedule);
      var first, t := WakersFinish(s1, 0);
      var rest, u := SleepsOver(t);
      AppendClear(s1, first, t, rest, u);
    }
  }

  /** A self-schedule in the window loses the wake: the owner goes to sleep on
      a count of one, whatever the other processors have not started. */
  lemma WindowLoses(s: Sys)
    requires Booted(s) && s.ready == 0 && !s.masked
    ensures exists schedule, t :: Leads(s, schedule, t) && Lost(t)
  {
    var s1 := ApplyStep(s, StartPolling);
    var s2 := ApplyStep(s1, Publish);
    var s3 := ApplyStep(s2, LookAgain);
    assert Inv(s3) && !Signalled(s3) && s3.pc.Looked? && Enabled(s3, Own(SelfSchedule));
    hide Leads, ApplyStep, Inv, Signalled, WindowClear;
    WindowIff(s3);
    var rest, t :| Leads(ApplyStep(s3, SelfSchedule), rest, t) && Lost(t);
    Prepend(s3, SelfSchedule, rest, t);
    Prepend(s2, LookAgain, [Own(SelfSchedule)] + rest, t);
    Prepend(s1, Publish, [Own(LookAgain)] + ([Own(SelfSchedule)] + rest), t);
    Prepend(s, StartPolling, [Own(Publish)] + ([Own(LookAgain)] + ([Own(SelfSchedule)] + rest)), t);
  }

  lemma Prepend(s: Sys, step: Step, rest: seq<Action>, t: Sys)
    requires StepEnabled(s, step) && Leads(ApplyStep(s, step), rest, t)
    ensures Leads(s, [Own(step)] + rest, t)
  {
    assert ([Own(step)] + rest)[1..] == rest;
  }

  // ---- The interrupt mask

  /** Interrupts are as `mask` says wherever the owner has not masked them, and
      remembered where it has. */
  predicate MaskIs(s: Sys, mask: bool) {
    if s.pc.Masked? || s.pc.Waiting? || s.pc.Woken? then s.masked && s.saved == mask else s.masked == mask
  }

  lemma MaskStep(s: Sys, a: Action, mask: bool)
    requires MaskIs(s, mask) && Enabled(s, a)
    ensures MaskIs(Apply(s, a), mask)
  {
    match a {
      case Own(step) => MaskOwn(s, step, mask);
      case Other(w, move) =>
        hide ApplyMove;
        assert MaskIs(ApplyMove(s, w, move), mask);
    }
  }

  lemma MaskOwn(s: Sys, step: Step, mask: bool)
    requires MaskIs(s, mask) && StepEnabled(s, step)
    ensures MaskIs(ApplyStep(s, step), mask)
  {
  }

  /** Over every run, parking puts the mask back: everywhere outside the masked
      stretch it is the one the run began with. */
  lemma {:induction false} MaskKept(s: Sys, schedule: seq<Action>, t: Sys, mask: bool)
    requires MaskIs(s, mask) && Leads(s, schedule, t)
    ensures MaskIs(t, mask)
    decreases |schedule|
  {
    if schedule != [] {
      MaskStep(s, schedule[0], mask);
      MaskKept(Apply(s, schedule[0]), schedule[1..], t, mask);
    }
  }

  /** So a processor that was interruptible takes a pending wake as soon as it
      has left the masked stretch, and is running when it is back at work. */
  lemma WakeDelivered(s: Sys, schedule: seq<Action>, t: Sys)
    requires Booted(s) && !s.masked && Leads(s, schedule, t)
    ensures t.sgi && !t.pc.Masked? && !t.pc.Waiting? && !t.pc.Woken? ==> Enabled(t, Own(TakeSgi))
    ensures t.pc.Waiting? && t.sgi ==> Enabled(t, Own(WfiDone(false)))
    ensures t.pc.Working? <==> t.idle.Running?
  {
    MaskKept(s, schedule, t, false);
    OwedAlways(s, schedule, t);
  }

  /** The owner is never stuck and never has two ways to go: it goes idle only
      with its queue empty, polls exactly while it stays empty, and leaves the
      wait on its interrupt, or for no reason. */
  lemma OwnerChoices(s: Sys)
    ensures s.pc.Working? ==> (Enabled(s, Own(Pop)) <==> !Enabled(s, Own(StartPolling))) && (Enabled(s, Own(Pop)) <==> s.ready > 0)
    ensures s.pc.Polls? ==> (Enabled(s, Own(KeepPolling)) <==> !Enabled(s, Own(StopPolling)))
                            && (Enabled(s, Own(StopPolling)) <==> s.ready > 0)
    ensures s.pc.Waiting? ==> Enabled(s, Own(WfiDone(true))) && (Enabled(s, Own(WfiDone(false))) <==> s.sgi)
    ensures exists step :: StepEnabled(s, step) && !step.TakeSgi? && !step.SelfSchedule?
  {
    assert StepEnabled(s, match s.pc
                          case Working => if s.ready > 0 then Pop else StartPolling
                          case Polls => Publish
                          case Published => LookAgain
                          case FoundWork => GiveUp
                          case Looked => MaskIrq
                          case Masked => SwapFlag
                          case Waiting => WfiDone(true)
                          case Woken => RestoreIrq
                          case Restored => Resume);
  }

  // ---- What a run has done

  function CountOf(schedule: seq<Action>, what: Action -> bool): nat {
    if schedule == [] then 0 else (if what(schedule[0]) then 1 else 0) + CountOf(schedule[1..], what)
  }

  predicate Queues(a: Action) { a == Own(SelfSchedule) || (a.Other? && a.move.Push?) }

  predicate Pops(a: Action) { a == Own(Pop) }

  /** No task is lost or made up: the queue holds what was there, plus what was
      queued, minus what was taken. */
  lemma {:induction false} TasksConserved(s: Sys, schedule: seq<Action>, t: Sys)
    requires Leads(s, schedule, t)
    ensures t.ready + CountOf(schedule, Pops) == s.ready + CountOf(schedule, Queues)
    decreases |schedule|
  {
    if schedule != [] {
      TaskStep(s, schedule[0]);
      hide Apply, Enabled, Pops, Queues;
      TasksConserved(Apply(s, schedule[0]), schedule[1..], t);
    }
  }

  lemma TaskStep(s: Sys, a: Action)
    requires Enabled(s, a)
    ensures Apply(s, a).ready == s.ready + (if Queues(a) then 1 else 0) - if Pops(a) then 1 else 0
  {
    hide ApplyStep, ApplyMove;
    match a {
      case Own(step) => SignalOwn(s, step);
      case Other(w, move) => SignalOther(s, w, move);
    }
  }

  /** The last action of the run that is one of two kinds is of the first; if
      there is none, `before`. */
  predicate LastIs(schedule: seq<Action>, first: Action -> bool, second: Action -> bool, before: bool) {
    if schedule == [] then before
    else LastIs(schedule[1..], first, second, if first(schedule[0]) then true else if second(schedule[0]) then false else before)
  }

  predicate SetsFlag(a: Action) { a.Other? && a.move.SetFlag? }

  predicate Swaps(a: Action) { a == Own(SwapFlag) }

  predicate Sends(a: Action) { a.Other? && a.move.SendSgi? }

  predicate Takes(a: Action) { a == Own(TakeSgi) }

  /** The flag is up exactly when it was set after the last swap, and the
      interrupt pending exactly when it was sent after it was last taken. */
  lemma {:induction false} FlagAndSgi(s: Sys, schedule: seq<Action>, t: Sys)
    requires Leads(s, schedule, t)
    ensures t.flag <==> LastIs(schedule, SetsFlag, Swaps, s.flag)
    ensures t.sgi <==> LastIs(schedule, Sends, Takes, s.sgi)
    decreases |schedule|
  {
    if schedule != [] {
      SignalStep(s, schedule[0]);
      hide Apply, Enabled, SetsFlag, Swaps, Sends, Takes;
      FlagAndSgi(Apply(s, schedule[0]), schedule[1..], t);
    }
  }

  lemma SignalStep(s: Sys, a: Action)
    requires Enabled(s, a)
    ensures Apply(s, a).flag == if SetsFlag(a) then true else if Swaps(a) then false else s.flag
    ensures Apply(s, a).sgi == if Sends(a) then true else if Takes(a) then false else s.sgi
  {
    hide ApplyStep, ApplyMove;
    match a {
      case Own(step) => SignalOwn(s, step);
      case Other(w, move) => SignalOther(s, w, move);
    }
  }

  lemma SignalOwn(s: Sys, step: Step)
    requires StepEnabled(s, step)
    ensures ApplyStep(s, step).flag == (s.flag && !step.SwapFlag?) && ApplyStep(s, step).sgi == (s.sgi && !step.TakeSgi?)
    ensures ApplyStep(s, step).ready == if step.Pop? then s.ready - 1 else if step.SelfSchedule? then s.ready + 1 else s.ready
    ensures ApplyStep(s, step).look == if step.LookAgain? && s.ready == 0 then s.look + 1 else s.look
  {
    match step {
      case LookAgain =>
      case SwapFlag =>
      case _ => assert ApplyStep(s, step).flag == s.flag && ApplyStep(s, step).look == s.look;
    }
  }

  lemma SignalOther(s: Sys, w: nat, move: Move)
    requires MoveEnabled(s, w, move)
    ensures ApplyMove(s, w, move).flag == (s.flag || move.SetFlag?) && ApplyMove(s, w, move).sgi == (s.sgi || move.SendSgi?)
    ensures ApplyMove(s, w, move).ready == if move.Push? then s.ready + 1 else s.ready
  {
    hide OfThisLook, Committed;
  }

  /** The owner publishes that it is going idle somewhere in the run, and
      somebody pushes onto an empty queue. */
  predicate Publishes(a: Action) { a == Own(Publish) }

  predicate EverEmpty(s: Sys, schedule: seq<Action>)
    decreases |schedule|
  {
    schedule != [] && Enabled(s, schedule[0]) &&
    ((schedule[0].Other? && schedule[0].move.Push? && s.ready == 0) || EverEmpty(Apply(s, schedule[0]), schedule[1..]))
  }

  predicate NoWake(s: Sys) {
    !s.flag && !s.sgi && forall w :: 0 <= w < |s.wakers| ==> !s.wakers[w].WillWake? && !s.wakers[w].FlagSet?
  }

  predicate NoneFirst(s: Sys) {
    forall w :: 0 <= w < |s.wakers| ==> s.wakers[w] != Pushed(0)
  }

  /** Nobody is woken for nothing: no flag and no interrupt without a publish,
      and none without a push onto an empty queue. */
  lemma {:induction false} NoNeedlessWake(s: Sys, schedule: seq<Action>, t: Sys)
    requires NoWake(s) && Leads(s, schedule, t)
    requires (!s.idle.Parked? && CountOf(schedule, Publishes) == 0) || (NoneFirst(s) && !EverEmpty(s, schedule))
    ensures NoWake(t)
    decreases |schedule|
  {
    if schedule != [] {
      var s' := Apply(s, schedule[0]);
      NeedlessStep(s, schedule[0]);
      NoNeedlessWake(s', schedule[1..], t);
    }
  }

  lemma NeedlessStep(s: Sys, a: Action)
    requires NoWake(s) && Enabled(s, a) && (!s.idle.Parked? || NoneFirst(s))
    ensures NoWake(Apply(s, a))
    ensures !s.idle.Parked? && !Publishes(a) ==> !Apply(s, a).idle.Parked?
    ensures NoneFirst(s) && !(a.Other? && a.move.Push? && s.ready == 0) ==> NoneFirst(Apply(s, a))
  {
    match a {
      case Own(step) => assert ApplyStep(s, step).wakers == s.wakers;
      case Other(w, move) => assert ApplyMove(s, w, move).idle == s.idle;
    }
  }

  // ---- What `done` records

  predicate Concerns(a: Action, w: nat) { a == Own(LookAgain) || (a.Other? && a.w == w) }

  /** A waker that sets the flag while the owner is committed, and sends the
      interrupt before the owner looks again, is on record as done. */
  lemma {:induction false} Completed(s: Sys, w: nat, mid: seq<Action>, t: Sys)
    requires w < |s.wakers| && OfThisLook(s, s.wakers[w]) && Leads(s, mid, t)
    requires forall i :: 0 <= i < |mid| ==> !Concerns(mid[i], w)
    ensures w < |t.wakers| && t.wakers[w] == s.wakers[w] && t.look == s.look
    ensures Committed(t.pc) ==> Enabled(t, Other(w, SendSgi)) && Apply(t, Other(w, SendSgi)).done
    decreases |mid|
  {
    CompletedLater(s, w, mid, t, s.look);
  }

  lemma {:induction false} CompletedLater(s: Sys, w: nat, mid: seq<Action>, t: Sys, look: nat)
    requires w < |s.wakers| && s.wakers[w] == FlagSet(look) && s.look == look > 0 && Leads(s, mid, t)
    requires forall i :: 0 <= i < |mid| ==> !Concerns(mid[i], w)
    ensures w < |t.wakers| && t.wakers[w] == s.wakers[w] && t.look == s.look
    decreases |mid|
  {
    if mid != [] {
      var s' := Apply(s, mid[0]);
      assert !Concerns(mid[0], w);
      Unconcerned(s, mid[0], w);
      hide Apply, Enabled, Concerns;
      CompletedLater(s', w, mid[1..], t, look);
    }
  }

  lemma Unconcerned(s: Sys, a: Action, w: nat)
    requires w < |s.wakers| && Enabled(s, a) && !Concerns(a, w)
    ensures w < |Apply(s, a).wakers| && Apply(s, a).wakers[w] == s.wakers[w] && Apply(s, a).look == s.look
  {
    hide ApplyStep, ApplyMove;
    match a {
      case Own(step) => SignalOwn(s, step);
      case Other(v, move) => assert ApplyMove(s, v, move).look == s.look;
    }
  }
}
