/** Bitwise arithmetic on non-negative integers, as Python's `<<`, `&`, `|`
    and `& ~` behave on them. The flags column of the notification database
    is read back with `int(...)` and never bounded to a width, so the bit
    operations are defined on `nat` and bit k is read with `/ 2` and `% 2`. */
module FlagBits {

  /** `1 << k` */
  function Pow2(k: nat): (p: nat)
    ensures p > 0
  {
    if k == 0 then 1 else 2 * Pow2(k - 1)
  }

  /** Bit k of f is set (bit 0 is the least significant). */
  predicate Bit(f: nat, k: nat)
  {
    if k == 0 then f % 2 == 1 else Bit(f / 2, k - 1)
  }

  /** `a & b` */
  function And(a: nat, b: nat): (r: nat)
    decreases a
  {
    if a == 0 || b == 0 then 0
    else 2 * And(a / 2, b / 2) + (if a % 2 == 1 && b % 2 == 1 then 1 else 0)
  }

  /** `a | b` */
  function Or(a: nat, b: nat): (r: nat)
    decreases a + b
  {
    if a == 0 then b
    else if b == 0 then a
    else 2 * Or(a / 2, b / 2) + (if a % 2 == 1 || b % 2 == 1 then 1 else 0)
  }

  /** `a & ~b`: the bits of a that are not set in b. */
  function AndNot(a: nat, b: nat): (r: nat)
    decreases a
  {
    if a == 0 then 0
    else 2 * AndNot(a / 2, b / 2) + (if a % 2 == 1 && b % 2 == 0 then 1 else 0)
  }

  /** The two halves of a number seen through Bit: the low bit and the rest. */
  lemma BitSplit(x: nat, q: nat, r: nat, k: nat)
    requires r < 2 && x == 2 * q + r
    ensures Bit(x, 0) <==> r == 1
    ensures k > 0 ==> (Bit(x, k) <==> Bit(q, k - 1))
  {
    assert x / 2 == q && x % 2 == r;
  }

  lemma {:induction false} BitOfZero(k: nat)
    ensures !Bit(0, k)
  {
    if k > 0 { BitOfZero(k - 1); }
  }

  /** A number is determined by its bits. */
  lemma {:induction false} BitsDetermine(a: nat, b: nat)
    requires forall k: nat :: Bit(a, k) <==> Bit(b, k)
    ensures a == b
    decreases a + b
  {
    if a != 0 || b != 0 {
      forall k: nat ensures Bit(a / 2, k) <==> Bit(b / 2, k) {
        BitSplit(a, a / 2, a % 2, k + 1);
        BitSplit(b, b / 2, b % 2, k + 1);
      }
      BitsDetermine(a / 2, b / 2);
      BitSplit(a, a / 2, a % 2, 0);
      BitSplit(b, b / 2, b % 2, 0);
    }
  }

  lemma {:induction false} BitOfPow2(j: nat, k: nat)
    ensures Bit(Pow2(j), k) <==> j == k
  {
    if j == 0 {
      BitSplit(1, 0, 1, k);
      if k > 0 { BitOfZero(k - 1); }
    } else {
      BitSplit(Pow2(j), Pow2(j - 1), 0, k);
      if k > 0 { BitOfPow2(j - 1, k - 1); }
    }
  }

  lemma {:induction false} BitOfAnd(a: nat, b: nat, k: nat)
    ensures Bit(And(a, b), k) <==> Bit(a, k) && Bit(b, k)
    decreases a
  {
    if a == 0 {
      BitOfZero(k);
    } else if b == 0 {
      BitOfZero(k);
    } else {
      var low := if a % 2 == 1 && b % 2 == 1 then 1 else 0;
      BitSplit(And(a, b), And(a / 2, b / 2), low, k);
      BitSplit(a, a / 2, a % 2, k);
      BitSplit(b, b / 2, b % 2, k);
      if k > 0 { BitOfAnd(a / 2, b / 2, k - 1); }
    }
  }

  lemma {:induction false} BitOfOr(a: nat, b: nat, k: nat)
    ensures Bit(Or(a, b), k) <==> Bit(a, k) || Bit(b, k)
    decreases a + b
  {
    if a == 0 {
      BitOfZero(k);
    } else if b == 0 {
      BitOfZero(k);
    } else {
      var low := if a % 2 == 1 || b % 2 == 1 then 1 else 0;
      BitSplit(Or(a, b), Or(a / 2, b / 2), low, k);
      BitSplit(a, a / 2, a % 2, k);
      BitSplit(b, b / 2, b % 2, k);
      if k > 0 { BitOfOr(a / 2, b / 2, k - 1); }
    }
  }

  lemma {:induction false} BitOfAndNot(a: nat, b: nat, k: nat)
    ensures Bit(AndNot(a, b), k) <==> Bit(a, k) && !Bit(b, k)
    decreases a
  {
    if a == 0 {
      BitOfZero(k);
    } else {
      var low := if a % 2 == 1 && b % 2 == 0 then 1 else 0;
      BitSplit(AndNot(a, b), AndNot(a / 2, b / 2), low, k);
      BitSplit(a, a / 2, a % 2, k);
      BitSplit(b, b / 2, b % 2, k);
      if k > 0 { BitOfAndNot(a / 2, b / 2, k - 1); }
    }
  }

  /** Testing one mask, as in `if flags & MASK:`, reads exactly that bit. */
  lemma {:induction false} AndPow2(f: nat, k: nat)
    ensures And(f, Pow2(k)) == (if Bit(f, k) then Pow2(k) else 0)
  {
    forall j: nat ensures Bit(And(f, Pow2(k)), j) <==> Bit(if Bit(f, k) then Pow2(k) else 0, j) {
      BitOfAnd(f, Pow2(k), j);
      BitOfPow2(k, j);
      BitOfZero(j);
    }
    BitsDetermine(And(f, Pow2(k)), if Bit(f, k) then Pow2(k) else 0);
  }

  /** `|` of two values of width n stays of width n. */
  lemma {:induction false} OrBelow(a: nat, b: nat, n: nat)
    requires a < Pow2(n) && b < Pow2(n)
    ensures Or(a, b) < Pow2(n)
    decreases a + b
  {
    if a != 0 && b != 0 {
      assert n > 0;
      OrBelow(a / 2, b / 2, n - 1);
    }
  }

  /** `& ~` only ever clears bits, so it never increases a value. */
  lemma {:induction false} AndNotAtMost(a: nat, b: nat)
    ensures AndNot(a, b) <= a
    decreases a
  {
    if a != 0 { AndNotAtMost(a / 2, b / 2); }
  }
}
