/** The machine-wide critical section as a transition system: any number of
    processors, each with its own interrupt mask and stack of interrupted
    activations, over one owner word and one depth word. Every atomic access
    is a step of its own. */
module CriticalSection {

  // ---- Identities and tokens

  const USIZE_MAX := 0xffff_ffff_ffff_ffff

  /** `ProcessorIdentity::bootstrapping`: odd, so never the address of an
      installed runtime. */
  function Bootstrapping(hardwareId: nat): nat {
    2 * hardwareId + 1
  }

  function EncodeToken(wasEnabled: bool, outermost: bool): (token: nat)
    ensures token < 4
  {
    (if wasEnabled then 1 else 0) + (if outermost then 2 else 0)
  }

  predicate RestoresInterrupts(token: nat) { token % 2 == 1 }

  predicate Outermost(token: nat) { token / 2 % 2 == 1 }

  lemma TokenBack(wasEnabled: bool, outermost: bool)
    ensures RestoresInterrupts(EncodeToken(wasEnabled, outermost)) == wasEnabled
    ensures Outermost(EncodeToken(wasEnabled, outermost)) == outermost
  {
  }

  // ---- States

  /** Where one activation stands between two accesses. `acquire` runs through
      `Saved` .. `Won` or `Nesting`; `release` through `Subbed`, `Restoring`. */
  datatype Pc =
    | Idle
    | Saved(was: bool)
    | Masked(was: bool)
    | Spinning(was: bool, me: nat)
    | Won(was: bool)
    | Nesting(was: bool)
    | Subbed(token: nat)
    | Restoring(token: nat)

  /** `tokens` are those not yet released, newest last. `entry` is what the
      outermost acquire found the interrupt mask to be. */
  datatype Activation = Activation(pc: Pc, tokens: seq<nat>, entry: bool)

  datatype Cpu = Cpu(hardwareId: nat, runtime: nat, installed: bool, irq: bool, stack: seq<Activation>)
  {
    function Raw(): nat { if installed then runtime else Bootstrapping(hardwareId) }

    function Top(): Activation
      requires stack != []
    {
      stack[|stack| - 1]
    }

    function WithTop(a: Activation): Cpu
      requires stack != []
    {
      this.(stack := stack[|stack| - 1 := a])
    }
  }

  datatype Sys = Sys(owner: nat, depth: nat, cpus: seq<Cpu>)

  /** Inside the section: at least one token not yet given to `release`. */
  predicate Inside(c: Cpu) {
    c.stack != [] && c.Top().tokens != []
  }

  /** From the successful exchange to the store that frees the owner word. */
  predicate Owns(a: Activation) {
    a.tokens != [] || a.pc.Won? || a.pc.Subbed?
  }

  // ---- Steps

  datatype Action =
    | ReadIrq | Mask | ReadIdentity | Exchange | StoreDepth | AddDepth
    | SubDepth | StoreOwner | Restore
    | Interrupt | Return | SetIrq(on: bool) | Install

  predicate Enabled(s: Sys, p: nat, action: Action) {
    p < |s.cpus| && s.cpus[p].stack != [] &&
    var c := s.cpus[p];
    var a := c.Top();
    match action
    case ReadIrq => a.pc.Idle?
    case Mask => a.pc.Saved?
    case ReadIdentity => a.pc.Masked?
    case Exchange => a.pc.Spinning?
    case StoreDepth => a.pc.Won?
    case AddDepth => a.pc.Nesting?
    case SubDepth => a.pc.Idle? && a.tokens != []
    case StoreOwner => a.pc.Subbed?
    case Restore => a.pc.Restoring?
    case Interrupt => c.irq
    case Return => |c.stack| > 1 && a.pc.Idle? && a.tokens == []
    case SetIrq(_) => a.pc.Idle? && a.tokens == []
    case Install => a.pc.Idle? && a.tokens == [] && !c.installed
  }

  function Put(s: Sys, p: nat, c: Cpu): Sys
    requires p < |s.cpus|
  {
    s.(cpus := s.cpus[p := c])
  }

  function Apply(s: Sys, p: nat, action: Action): Sys
    requires Enabled(s, p, action)
  {
    var c := s.cpus[p];
    var a := c.Top();
    match action
    case ReadIrq =>
      Put(s, p, c.WithTop(a.(pc := Saved(c.irq), entry := if a.tokens == [] then c.irq else a.entry)))
    case Mask => Put(s, p, c.WithTop(a.(pc := Masked(a.pc.was))).(irq := false))
    case ReadIdentity => Put(s, p, c.WithTop(a.(pc := Spinning(a.pc.was, c.Raw()))))
    case Exchange =>
      if s.owner == 0 then Put(s.(owner := a.pc.me), p, c.WithTop(a.(pc := Won(a.pc.was))))
      else if s.owner == a.pc.me then Put(s, p, c.WithTop(a.(pc := Nesting(a.pc.was))))
      else s
    case StoreDepth =>
      Put(s.(depth := 1), p, c.WithTop(a.(pc := Idle, tokens := a.tokens + [EncodeToken(a.pc.was, true)])))
    case AddDepth =>
      Put(s.(depth := (s.depth + 1) % (USIZE_MAX + 1)), p,
          c.WithTop(a.(pc := Idle, tokens := a.tokens + [EncodeToken(a.pc.was, false)])))
    case SubDepth =>
      var n := |a.tokens| - 1;
      Put(s.(depth := (s.depth + USIZE_MAX) % (USIZE_MAX + 1)), p,
          c.WithTop(a.(pc := Subbed(a.tokens[n]), tokens := a.tokens[..n])))
    case StoreOwner =>
      Put(if Outermost(a.pc.token) then s.(owner := 0) else s, p, c.WithTop(a.(pc := Restoring(a.pc.token))))
    case Restore =>
      Put(s, p, c.WithTop(a.(pc := Idle)).(irq := c.irq || RestoresInterrupts(a.pc.token)))
    case Interrupt => Put(s, p, c.(stack := c.stack + [Activation(Idle, [], false)], irq := false))
    case Return => Put(s, p, c.(stack := c.stack[..|c.stack| - 1], irq := true))
    case SetIrq(on) => Put(s, p, c.(irq := on))
    case Install => Put(s, p, c.(installed := true))
  }

  /** What the assertions in `acquire` and `release` would report. */
  predicate Underflows(s: Sys) { s.depth == 0 }

  predicate NotOutermost(s: Sys, token: nat) { Outermost(token) && s.depth != 1 }

  predicate Overflows(s: Sys) { s.depth == USIZE_MAX }

  // ---- Invariant

  predicate DistinctIdentities(s: Sys) {
    forall p, q :: 0 <= p < q < |s.cpus| ==>
      s.cpus[p].hardwareId != s.cpus[q].hardwareId && s.cpus[p].runtime != s.cpus[q].runtime
  }

  predicate AlignedRuntimes(s: Sys) {
    forall p :: 0 <= p < |s.cpus| ==> s.cpus[p].runtime != 0 && s.cpus[p].runtime % 2 == 0
  }

  /** The oldest token restores what was found, every later one nothing. */
  predicate TokensOk(a: Activation) {
    forall i :: 0 <= i < |a.tokens| ==> a.tokens[i] == EncodeToken(i == 0 && a.entry, i == 0)
  }

  predicate ReleasedOk(token: nat, a: Activation) {
    token == EncodeToken(a.tokens == [] && a.entry, a.tokens == [])
  }

  predicate TopOk(a: Activation, irq: bool, me: nat) {
    && TokensOk(a) && (a.tokens != [] ==> !irq)
    && match a.pc
       case Idle => true
       case Saved(was) => was == irq && (a.tokens == [] ==> was == a.entry)
       case Masked(was) => !irq && was == (a.tokens == [] && a.entry)
       case Spinning(was, id) => !irq && was == (a.tokens == [] && a.entry) && id == me
       case Won(was) => !irq && was == a.entry && a.tokens == []
       case Nesting(was) => !irq && !was && a.tokens != []
       case Subbed(token) => !irq && ReleasedOk(token, a)
       case Restoring(token) => !irq && ReleasedOk(token, a)
  }

  /** An interrupted activation holds nothing. */
  predicate SuspendedOk(a: Activation) {
    a.tokens == [] && (a.pc.Idle? || a.pc == Saved(true)) && (a.pc.Saved? ==> a.entry)
  }

  predicate CpuOk(c: Cpu) {
    && c.stack != [] && TopOk(c.Top(), c.irq, c.Raw())
    && forall i :: 0 <= i < |c.stack| - 1 ==> SuspendedOk(c.stack[i])
  }

  /** The owner word names exactly the processor that owns, and the depth word
      counts its tokens. */
  predicate OwnerOk(s: Sys, c: Cpu)
    requires c.stack != []
  {
    && (Owns(c.Top()) <==> s.owner == c.Raw())
    && (s.owner == c.Raw() ==> s.depth == |c.Top().tokens|)
    && |c.Top().tokens| <= USIZE_MAX
  }

  /** The owner word is free or names somebody. */
  predicate OwnerReal(s: Sys) {
    s.owner == 0 || exists q :: 0 <= q < |s.cpus| && s.owner == s.cpus[q].Raw()
  }

  predicate Inv(s: Sys) {
    && DistinctIdentities(s) && AlignedRuntimes(s) && OwnerReal(s)
    && (s.owner == 0 ==> s.depth == 0)
    && forall p :: 0 <= p < |s.cpus| ==> CpuOk(s.cpus[p]) && OwnerOk(s, s.cpus[p])
  }

  // ---- Consequences

  lemma RawDistinct(s: Sys, p: nat, q: nat)
    requires DistinctIdentities(s) && AlignedRuntimes(s) && p < |s.cpus| && q < |s.cpus| && p != q
    ensures s.cpus[p].Raw() != s.cpus[q].Raw() && s.cpus[p].Raw() != 0
    ensures s.cpus[p].runtime != s.cpus[q].Raw()
  {
  }

  /** Bootstrapping identities are the odd words, each of one processor. */
  lemma BootstrappingExact(raw: nat)
    ensures raw % 2 == 1 <==> exists h: nat :: Bootstrapping(h) == raw
    ensures forall g: nat, h: nat :: Bootstrapping(g) == Bootstrapping(h) ==> g == h
  {
    if raw % 2 == 1 { assert Bootstrapping(raw / 2) == raw; }
  }

  predicate Exclusive(s: Sys) {
    forall p, q :: 0 <= p < q < |s.cpus| ==> !(Inside(s.cpus[p]) && Inside(s.cpus[q]))
  }

  /** At most one processor is inside, its interrupts are off, and the depth
      word is exactly its number of tokens. */
  lemma InvExcludes(s: Sys)
    requires Inv(s)
    ensures Exclusive(s)
    ensures forall p :: 0 <= p < |s.cpus| && Inside(s.cpus[p]) ==>
              !s.cpus[p].irq && s.owner == s.cpus[p].Raw() && s.depth == |s.cpus[p].Top().tokens|
  {
  }

  /** The release assertions never fire; the acquire assertion fires only at
      `USIZE_MAX` outstanding tokens. */
  lemma InvNoPanic(s: Sys, p: nat)
    requires Inv(s) && p < |s.cpus|
    ensures Enabled(s, p, SubDepth) ==>
              !Underflows(s) && !NotOutermost(s, s.cpus[p].Top().tokens[|s.cpus[p].Top().tokens| - 1])
    ensures Enabled(s, p, AddDepth) && Overflows(s) ==> |s.cpus[p].Top().tokens| == USIZE_MAX
  {
  }

  /** Releasing the outermost token before a nested one trips the assertion. */
  lemma OutOfOrderPanics(s: Sys, p: nat)
    requires Inv(s) && p < |s.cpus| && |s.cpus[p].Top().tokens| >= 2
    ensures NotOutermost(s, s.cpus[p].Top().tokens[0])
  {
  }

  /** The outermost release leaves the mask as the outermost acquire found it;
      a nested release leaves it off. */
  lemma RestoresWhatItFound(s: Sys, p: nat)
    requires Inv(s) && Enabled(s, p, Restore)
    ensures var c := Apply(s, p, Restore).cpus[p];
            c.Top().entry == s.cpus[p].Top().entry && c.irq == (c.Top().tokens == [] && c.Top().entry)
  {
  }

  /** A handler starts with interrupts off and nothing held; returning from it
      at once puts the processor back as it was. */
  lemma HandlerReturns(s: Sys, p: nat)
    requires Enabled(s, p, Interrupt)
    ensures var t := Apply(s, p, Interrupt);
            && !t.cpus[p].irq && !Inside(t.cpus[p]) && !Enabled(t, p, Interrupt) && Enabled(t, p, Return)
            && Apply(t, p, Return) == s
  {
    var c, t := s.cpus[p], Apply(s, p, Interrupt);
    var d := t.cpus[p];
    assert d.stack[..|d.stack| - 1] == c.stack;
    var u := Apply(t, p, Return);
    assert u.cpus == s.cpus;
  }

  /** A fresh acquire finds the mask as it was last set and leaves it off, and
      its token brings that mask back. */
  lemma AcquireFinds(s: Sys, p: nat, on: bool)
    requires Enabled(s, p, SetIrq(on))
    ensures var t := Apply(s, p, SetIrq(on));
            Enabled(t, p, ReadIrq) && Enabled(Apply(t, p, ReadIrq), p, Mask) &&
            var c := Apply(Apply(t, p, ReadIrq), p, Mask).cpus[p];
            c.Top().pc == Masked(on) && c.Top().entry == on && !c.irq && RestoresInterrupts(EncodeToken(c.Top().pc.was, true)) == on
  {
  }

  // ---- Preservation

  /** Every step but an overflowing one. */
  predicate Sound(s: Sys, p: nat, action: Action) {
    Enabled(s, p, action) && !(action.AddDepth? && Overflows(s))
  }

  predicate Acquiring(action: Action) {
    action.ReadIrq? || action.Mask? || action.ReadIdentity? || action.Exchange? || action.StoreDepth? || action.AddDepth?
  }

  predicate Releasing(action: Action) {
    action.SubDepth? || action.StoreOwner? || action.Restore?
  }

  lemma AcquireCpu(s: Sys, p: nat, action: Action)
    requires Inv(s) && Sound(s, p, action) && Acquiring(action)
    ensures CpuOk(Apply(s, p, action).cpus[p])
  {
  }

  lemma ReleaseCpu(s: Sys, p: nat, action: Action)
    requires Inv(s) && Sound(s, p, action) && Releasing(action)
    ensures CpuOk(Apply(s, p, action).cpus[p])
  {
  }

  lemma StepCpu(s: Sys, p: nat, action: Action)
    requires Inv(s) && Sound(s, p, action)
    ensures CpuOk(Apply(s, p, action).cpus[p])
  {
    if Acquiring(action) {
      AcquireCpu(s, p, action);
    } else if Releasing(action) {
      ReleaseCpu(s, p, action);
    } else {
      assert CpuOk(s.cpus[p]);
    }
  }

  lemma AcquireOwner(s: Sys, p: nat, action: Action)
    requires Inv(s) && Sound(s, p, action) && Acquiring(action)
    ensures OwnerOk(Apply(s, p, action), Apply(s, p, action).cpus[p])
    ensures Apply(s, p, action).owner == 0 ==> Apply(s, p, action).depth == 0
  {
  }

  lemma ReleaseOwner(s: Sys, p: nat, action: Action)
    requires Inv(s) && Sound(s, p, action) && Releasing(action)
    ensures OwnerOk(Apply(s, p, action), Apply(s, p, action).cpus[p])
    ensures Apply(s, p, action).owner == 0 ==> Apply(s, p, action).depth == 0
  {
  }

  lemma StepOwner(s: Sys, p: nat, action: Action)
    requires Inv(s) && Sound(s, p, action)
    ensures Apply(s, p, action).cpus[p].stack != [] && OwnerOk(Apply(s, p, action), Apply(s, p, action).cpus[p])
    ensures Apply(s, p, action).owner == 0 ==> Apply(s, p, action).depth == 0
  {
    if Acquiring(action) {
      AcquireOwner(s, p, action);
    } else if Releasing(action) {
      ReleaseOwner(s, p, action);
    } else {
      assert CpuOk(s.cpus[p]) && OwnerOk(s, s.cpus[p]);
      if action.Install? { InstallFree(s, p); }
    }
  }

  lemma StepReal(s: Sys, p: nat, action: Action)
    requires Inv(s) && Sound(s, p, action)
    ensures OwnerReal(Apply(s, p, action))
  {
    var s' := Apply(s, p, action);
    assert CpuOk(s.cpus[p]) && OwnerOk(s, s.cpus[p]);
    if s'.owner == s.owner != 0 {
      var q :| 0 <= q < |s.cpus| && s.owner == s.cpus[q].Raw();
      assert s'.owner == s'.cpus[q].Raw();
    } else if s'.owner != 0 {
      assert s'.owner == s'.cpus[p].Raw();
    }
  }

  /** A runtime address never equals the owner word of somebody else. */
  lemma InstallFree(s: Sys, p: nat)
    requires Inv(s) && p < |s.cpus| && !Owns(s.cpus[p].Top())
    ensures s.owner != s.cpus[p].runtime
  {
  }

  lemma StepOther(s: Sys, p: nat, action: Action, q: nat)
    requires Inv(s) && Sound(s, p, action) && q < |s.cpus| && q != p
    ensures Apply(s, p, action).cpus[q] == s.cpus[q]
    ensures OwnerOk(Apply(s, p, action), s.cpus[q])
  {
  }

  lemma StepConfig(s: Sys, p: nat, action: Action)
    requires Inv(s) && Sound(s, p, action)
    ensures DistinctIdentities(Apply(s, p, action)) && AlignedRuntimes(Apply(s, p, action))
    ensures |Apply(s, p, action).cpus| == |s.cpus|
  {
  }

  lemma StepKeeps(s: Sys, p: nat, action: Action)
    requires Inv(s) && Sound(s, p, action)
    ensures Inv(Apply(s, p, action))
  {
    var s' := Apply(s, p, action);
    StepConfig(s, p, action);
    StepCpu(s, p, action);
    StepOwner(s, p, action);
    StepReal(s, p, action);
    forall q | 0 <= q < |s'.cpus| ensures CpuOk(s'.cpus[q]) && OwnerOk(s', s'.cpus[q]) {
      if q != p { StepOther(s, p, action, q); assert CpuOk(s.cpus[q]); }
    }
  }

  // ---- Runs

  type Schedule = seq<(nat, Action)>

  /** `t` is where the schedule leads from `s`. */
  predicate Leads(s: Sys, schedule: Schedule, t: Sys)
    decreases |schedule|
  {
    if schedule == [] then t == s
    else Sound(s, schedule[0].0, schedule[0].1) && Leads(Apply(s, schedule[0].0, schedule[0].1), schedule[1..], t)
  }

  predicate Booted(s: Sys) {
    && AlignedRuntimes(s) && s.owner == 0 && s.depth == 0
    && forall p :: 0 <= p < |s.cpus| ==> !s.cpus[p].installed && s.cpus[p].stack == [Activation(Idle, [], false)]
  }

  lemma BootedInv(s: Sys)
    requires Booted(s) && DistinctIdentities(s)
    ensures Inv(s)
  {
  }

  lemma {:induction false} LeadsInv(s: Sys, schedule: Schedule, t: Sys)
    requires Inv(s) && Leads(s, schedule, t)
    ensures Inv(t)
    decreases |schedule|
  {
    if schedule != [] {
      StepKeeps(s, schedule[0].0, schedule[0].1);
      LeadsInv(Apply(s, schedule[0].0, schedule[0].1), schedule[1..], t);
    }
  }

  /** Over every interleaving of any number of processors with distinct
      identities, interrupts and identity switches included. */
  lemma MutualExclusion(s: Sys, schedule: Schedule, t: Sys)
    requires Booted(s) && DistinctIdentities(s) && Leads(s, schedule, t)
    ensures Exclusive(t)
    ensures forall p :: 0 <= p < |t.cpus| && Inside(t.cpus[p]) ==> !t.cpus[p].irq && t.depth == |t.cpus[p].Top().tokens|
    ensures forall p :: 0 <= p < |t.cpus| && Enabled(t, p, SubDepth) ==>
              !Underflows(t) && !NotOutermost(t, t.cpus[p].Top().tokens[|t.cpus[p].Top().tokens| - 1])
  {
    BootedInv(s);
    LeadsInv(s, schedule, t);
    InvExcludes(t);
    forall p | 0 <= p < |t.cpus| && Enabled(t, p, SubDepth)
      ensures !Underflows(t) && !NotOutermost(t, t.cpus[p].Top().tokens[|t.cpus[p].Top().tokens| - 1])
    {
      InvNoPanic(t, p);
    }
  }

  // ---- What the hypotheses are for

  /** Switching to the installed identity between calls keeps the invariant
      exactly when the processor holds nothing. */
  lemma InstallIffFree(s: Sys, p: nat)
    requires Inv(s) && p < |s.cpus| && s.cpus[p].Top().pc.Idle? && !s.cpus[p].installed
    ensures Inv(Put(s, p, s.cpus[p].(installed := true))) <==> !Inside(s.cpus[p])
  {
    var c := s.cpus[p];
    assert CpuOk(c) && OwnerOk(s, c);
    if Inside(c) {
      var t := Put(s, p, c.(installed := true));
      assert s.owner == c.Raw() != c.runtime;
      assert !OwnerOk(t, t.cpus[p]);
    } else {
      StepKeeps(s, p, Install);
    }
  }

  lemma {:induction false} LeadsConcat(s: Sys, first: Schedule, t: Sys, second: Schedule, u: Sys)
    requires Leads(s, first, t) && Leads(t, second, u)
    ensures Leads(s, first + second, u)
    decreases |first|
  {
    if first == [] {
      assert first + second == second;
    } else {
      LeadsConcat(Apply(s, first[0].0, first[0].1), first[1..], t, second, u);
      assert (first + second)[1..] == first[1..] + second;
    }
  }

  lemma LeadsOne(s: Sys, p: nat, action: Action)
    requires Sound(s, p, action)
    ensures Leads(s, [(p, action)], Apply(s, p, action))
  {
  }

  predicate Fresh(c: Cpu) {
    |c.stack| == 1 && c.stack[0].pc.Idle? && c.stack[0].tokens == []
  }

  /** The first four accesses of `acquire`, up to and including the exchange. */
  lemma ToExchange(s: Sys, p: nat) returns (schedule: Schedule, t: Sys)
    requires p < |s.cpus| && Fresh(s.cpus[p])
    ensures Leads(s, schedule, t) && Enabled(t, p, Exchange)
    ensures t.owner == s.owner && t.depth == s.depth && |t.cpus| == |s.cpus| && t.cpus[p].Raw() == s.cpus[p].Raw()
    ensures |t.cpus[p].stack| == 1 && t.cpus[p].Top().tokens == [] && t.cpus[p].Top().pc.me == s.cpus[p].Raw()
    ensures forall q :: 0 <= q < |s.cpus| && q != p ==> t.cpus[q] == s.cpus[q]
  {
    var s1 := Apply(s, p, ReadIrq);
    LeadsOne(s, p, ReadIrq);
    var s2 := Apply(s1, p, Mask);
    LeadsOne(s1, p, Mask);
    LeadsConcat(s, [(p, ReadIrq)], s1, [(p, Mask)], s2);
    t := Apply(s2, p, ReadIdentity);
    LeadsOne(s2, p, ReadIdentity);
    LeadsConcat(s, [(p, ReadIrq)] + [(p, Mask)], s2, [(p, ReadIdentity)], t);
    schedule := [(p, ReadIrq)] + [(p, Mask)] + [(p, ReadIdentity)];
  }

  lemma Enter(s: Sys, p: nat) returns (schedule: Schedule, t: Sys)
    requires p < |s.cpus| && Fresh(s.cpus[p]) && s.depth < 2 && (s.owner == 0 || s.owner == s.cpus[p].Raw())
    ensures Leads(s, schedule, t) && |t.cpus| == |s.cpus| && Inside(t.cpus[p])
    ensures t.owner == s.cpus[p].Raw() && (s.owner == 0 ==> t.depth == 1)
    ensures forall q :: 0 <= q < |s.cpus| && q != p ==> t.cpus[q] == s.cpus[q]
  {
    var first, s1 := ToExchange(s, p);
    var s2 := Apply(s1, p, Exchange);
    LeadsOne(s1, p, Exchange);
    LeadsConcat(s, first, s1, [(p, Exchange)], s2);
    var last := if s.owner == 0 then StoreDepth else AddDepth;
    t := Apply(s2, p, last);
    LeadsOne(s2, p, last);
    LeadsConcat(s, first + [(p, Exchange)], s2, [(p, last)], t);
    schedule := first + [(p, Exchange)] + [(p, last)];
  }

  /** Two processors answering with one identity can both get in. */
  lemma SharedIdentity(s: Sys, p: nat, q: nat) returns (schedule: Schedule, t: Sys)
    requires p < q < |s.cpus| && Fresh(s.cpus[p]) && Fresh(s.cpus[q]) && s.owner == 0 && s.depth == 0
    requires s.cpus[p].Raw() == s.cpus[q].Raw()
    ensures Leads(s, schedule, t) && !Exclusive(t)
  {
    var first, s1 := Enter(s, p);
    var second, s2 := Enter(s1, q);
    LeadsConcat(s, first, s1, second, s2);
    schedule, t := first + second, s2;
    assert Inside(t.cpus[p]) && Inside(t.cpus[q]);
  }

  lemma SharedRuntime(s: Sys, p: nat, q: nat) returns (schedule: Schedule, t: Sys)
    requires Booted(s) && p < q < |s.cpus| && s.cpus[p].runtime == s.cpus[q].runtime
    ensures Leads(s, schedule, t) && !Exclusive(t)
  {
    var s1 := Apply(s, p, Install);
    LeadsOne(s, p, Install);
    var s2 := Apply(s1, q, Install);
    LeadsOne(s1, q, Install);
    LeadsConcat(s, [(p, Install)], s1, [(q, Install)], s2);
    var rest, u := SharedIdentity(s2, p, q);
    LeadsConcat(s, [(p, Install)] + [(q, Install)], s2, rest, u);
    schedule, t := [(p, Install)] + [(q, Install)] + rest, u;
  }

  ghost predicate AlwaysExclusive(s: Sys) {
    forall schedule: Schedule, t: Sys :: Leads(s, schedule, t) ==> Exclusive(t)
  }

  lemma Breaks(s: Sys, schedule: Schedule, t: Sys)
    requires Leads(s, schedule, t) && !Exclusive(t)
    ensures !AlwaysExclusive(s)
  {
  }

  /** Mutual exclusion over every run is exactly distinctness of identities. */
  lemma ExclusiveIffDistinct(s: Sys)
    requires Booted(s)
    ensures AlwaysExclusive(s) <==> DistinctIdentities(s)
  {
    if DistinctIdentities(s) {
      forall schedule: Schedule, t: Sys | Leads(s, schedule, t) ensures Exclusive(t) {
        MutualExclusion(s, schedule, t);
      }
    } else {
      var p, q :| 0 <= p < q < |s.cpus| && !(s.cpus[p].hardwareId != s.cpus[q].hardwareId && s.cpus[p].runtime != s.cpus[q].runtime);
      if s.cpus[p].hardwareId == s.cpus[q].hardwareId {
        var schedule, t := SharedIdentity(s, p, q);
        Breaks(s, schedule, t);
      } else {
        var schedule, t := SharedRuntime(s, p, q);
        Breaks(s, schedule, t);
      }
    }
  }
}
