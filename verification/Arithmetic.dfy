/** Quotients, remainders and powers of two. */
module Arithmetic {

  lemma Quotient(x: nat, b: nat, q: nat)
    requires b > 0 && q * b <= x < q * b + b
    ensures x / b == q
  {
    var k := x / b;
    assert x == k * b + x % b;
    MulStep(k, q, b);
    MulStep(q, k, b);
  }

  lemma MulStep(a: nat, c: nat, b: nat)
    ensures a < c ==> a * b + b <= c * b
  {
    if a < c {
      assert (a + 1) * b <= c * b;
      assert (a + 1) * b == a * b + b;
    }
  }

  /** Whole multiples come out of a quotient. */
  lemma DivSplit(k: nat, x: nat, b: nat)
    requires b > 0
    ensures (k * b + x) / b == k + x / b && (k * b + x) % b == x % b
  {
    var q, r := x / b, x % b;
    assert x == q * b + r;
    assert (k + q) * b == k * b + q * b;
    Quotient(k * b + x, b, k + q);
  }

  lemma NoRemainder(x: nat, b: nat, q: nat)
    requires b > 0 && x == q * b
    ensures x % b == 0
  {
    Quotient(x, b, q);
  }

  predicate PowerOfTwo(n: nat) {
    n == 1 || (n > 1 && n % 2 == 0 && PowerOfTwo(n / 2))
  }

  function Pow2(k: nat): (r: nat)
    ensures r > 0
  {
    if k == 0 then 1 else 2 * Pow2(k - 1)
  }

  lemma {:induction false} PowerLog(n: nat) returns (k: nat)
    requires PowerOfTwo(n)
    ensures n == Pow2(k)
  {
    if n == 1 {
      k := 0;
    } else {
      var j := PowerLog(n / 2);
      k := j + 1;
    }
  }

  lemma {:induction false} Pow2IsPower(k: nat)
    ensures PowerOfTwo(Pow2(k))
  {
    if k > 0 { Pow2IsPower(k - 1); }
  }

  /** The alignment check passes exactly on the powers of two. */
  lemma PowerOfTwoIff(n: nat)
    ensures PowerOfTwo(n) <==> exists k: nat :: n == Pow2(k)
  {
    if PowerOfTwo(n) { var k := PowerLog(n); }
    if k: nat :| n == Pow2(k) { Pow2IsPower(k); }
  }
}
