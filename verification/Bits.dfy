// Bit arithmetic on naturals: shifts, masks and disjoint unions as the address map uses them.
module Bits {
  import opened Counting

  function Pow2(n: nat): pos {
    if n == 0 then 1 else 2 * Pow2(n - 1)
  }

  /** Python's bit_length() - 1. */
  function BitsOf(n: nat): nat {
    if n <= 1 then 0 else 1 + BitsOf(n / 2)
  }

  function BitAnd(a: nat, b: nat): (r: nat)
    decreases a
  {
    if a == 0 then 0 else 2 * BitAnd(a / 2, b / 2) + (if a % 2 == 1 && b % 2 == 1 then 1 else 0)
  }

  function BitOr(a: nat, b: nat): (r: nat)
    decreases a + b
  {
    if a == 0 && b == 0 then 0 else
    2 * BitOr(a / 2, b / 2) + (if a % 2 == 1 || b % 2 == 1 then 1 else 0)
  }

  function ShiftRight(x: nat, s: nat): nat {
    DivNat(x, Pow2(s));
    x / Pow2(s)
  }

  function ShiftLeft(x: nat, s: nat): nat { x * Pow2(s) }

  predicate IsPow2(x: int) { x > 0 && BitAnd(x, x - 1) == 0 }

  lemma {:induction false} AndSelf(x: nat)
    ensures BitAnd(x, x) == x
  {
    if x > 0 {
      AndSelf(x / 2);
    }
  }

  /** The bit trick recognises exactly the powers of two. */
  lemma {:induction false} Pow2Recognised(x: nat)
    ensures IsPow2(x) <==> x > 0 && x == Pow2(BitsOf(x))
    ensures forall n: nat :: IsPow2(x) && x == Pow2(n) ==> n == BitsOf(x)
    decreases x
  {
    if x > 1 {
      Pow2Recognised(x / 2);
      if x % 2 == 1 {
        AndSelf(x / 2);
      }
    }
    forall n: nat | IsPow2(x) && x == Pow2(n)
      ensures n == BitsOf(x)
    {
      if x > 1 && n > 0 {
        assert x / 2 == Pow2(n - 1);
      }
    }
  }

  /** Or-ing in a chunk above the low s bits adds it. */
  lemma {:induction false} OrIsAdd(a: nat, c: nat, s: nat)
    requires a < Pow2(s)
    ensures BitOr(a, c * Pow2(s)) == a + c * Pow2(s)
    decreases s, c
  {
    if s == 0 {
      if c > 0 {
        OrIsAdd(0, c / 2, 0);
      }
    } else {
      var p := Pow2(s - 1);
      assert c * (2 * p) == 2 * (c * p);
      OrIsAdd(a / 2, c, s - 1);
    }
  }

  lemma {:induction false} Pow2Add(a: nat, b: nat)
    ensures Pow2(a + b) == Pow2(a) * Pow2(b)
  {
    if a > 0 {
      Pow2Add(a - 1, b);
      Doubled(Pow2(a - 1), Pow2(b));
    }
  }

  lemma Doubled(p: nat, q: nat)
    ensures 2 * p * q == 2 * (p * q)
  {
  }

  /** The low p*q part of x is its low p part plus its next q part. */
  lemma ModSplit(x: nat, p: nat, q: nat)
    requires p > 0 && q > 0
    ensures p * q > 0
    ensures x % (p * q) == x % p + (x / p % q) * p
    ensures x / (p * q) == x / p / q
  {
    var y, lo := x / p, x % p;
    DivNat(x, p);
    var hi, mid := y / q, y % q;
    DivNat(y, q);
    Regroup(x, y, p, q, hi, mid, lo);
    DivUnique(x, p * q, hi, lo + mid * p);
  }

  lemma Regroup(x: nat, y: nat, p: nat, q: nat, hi: nat, mid: nat, lo: nat)
    requires x == y * p + lo && y == hi * q + mid && mid < q && lo < p
    ensures p * q > 0 && x == hi * (p * q) + (lo + mid * p) && lo + mid * p < p * q
  {
    MulMono(1, q, p);
    MulDistributes(hi * q, mid, p);
    MulMono(mid + 1, q, p);
    MulDistributes(mid, 1, p);
  }

  lemma {:induction false} AndZero(x: nat)
    ensures BitAnd(x, 0) == 0
  {
    if x > 0 {
      AndZero(x / 2);
    }
  }

  /** x & (2^n - 1) keeps the low n bits. */
  lemma {:induction false} MaskIsMod(x: nat, n: nat)
    ensures BitAnd(x, Pow2(n) - 1) == x % Pow2(n)
    decreases x
  {
    if n == 0 {
      AndZero(x);
    } else if x > 0 {
      var p := Pow2(n - 1);
      MaskIsMod(x / 2, n - 1);
      ModSplit(x, 2, p);
      assert Pow2(n) == 2 * p;
    } else {
      DivUnique(0, Pow2(n), 0, 0);
    }
  }
}
