// Finite counting facts shared by the proofs: pigeonhole on sequences and sets,
// rounding-up division and powers of two.
module Counting {

  type pos = n: nat | n > 0 witness 1

  function Max(a: nat, b: nat): nat { if a < b then b else a }

  function Min(a: nat, b: nat): nat { if a < b then a else b }

  function Abs(x: int): nat { if x < 0 then -x else x }

  function Bit(b: bool): nat { if b then 1 else 0 }

  ghost predicate Distinct<T>(s: seq<T>) {
    forall i, j | 0 <= i < j < |s| :: s[i] != s[j]
  }

  ghost predicate Ascending(u: seq<nat>) {
    forall i, j | 0 <= i < j < |u| :: u[i] < u[j]
  }

  ghost function Elems<T>(s: seq<T>): set<T> { set x | x in s }

  function Below(n: nat): set<nat> {
    if n == 0 then {} else Below(n - 1) + {n - 1}
  }

  lemma {:induction false} BelowSize(n: nat)
    ensures |Below(n)| == n
    ensures forall x: nat :: x in Below(n) <==> x < n
  {
    if n > 0 {
      BelowSize(n - 1);
    }
  }

  lemma SubsetSize<T>(a: set<T>, b: set<T>)
    requires a <= b
    ensures |a| <= |b|
    ensures |a| == |b| ==> a == b
  {
    assert b == a + (b - a);
  }

  /** Some element of a non-empty set, for iterating over a dictionary's keys. */
  method AnyOf<T>(s: set<T>) returns (x: T)
    requires |s| > 0
    ensures x in s
  {
    x :| x in s;
  }

  lemma ElemsAppend<T>(s: seq<T>, x: T)
    ensures Elems(s + [x]) == Elems(s) + {x}
  {
    assert forall y | y in s :: y in s + [x];
    assert (s + [x])[|s|] == x;
  }

  lemma {:induction false} DistinctSize<T>(s: seq<T>)
    requires Distinct(s)
    ensures |Elems(s)| == |s|
  {
    if s != [] {
      var p := s[..|s| - 1];
      DistinctSize(p);
      assert Elems(s) == Elems(p) + {s[|s| - 1]};
    }
  }

  /** Pigeonhole: distinct naturals below n number at most n. */
  lemma DistinctBelow(s: seq<nat>, n: nat)
    requires Distinct(s)
    requires forall i | 0 <= i < |s| :: s[i] < n
    ensures |s| <= n
  {
    DistinctSize(s);
    BelowSize(n);
    SubsetSize(Elems(s), Below(n));
  }

  lemma MulMono(x: int, y: int, z: nat)
    requires x <= y
    ensures x * z <= y * z
  {
    assert (y - x) * z >= 0;
  }

  lemma MulDistributes(x: int, y: int, z: int)
    ensures (x + y) * z == x * z + y * z
  {
  }

  /** Quotient and remainder are determined by n == q * d + r. */
  lemma DivUnique(n: nat, d: nat, q: int, r: int)
    requires d > 0 && n == q * d + r && 0 <= r < d
    ensures n / d == q && n % d == r
  {
    var q', r' := n / d, n % d;
    if q' < q { MulMono(q' + 1, q, d); }
    if q < q' { MulMono(q + 1, q', d); }
  }

  lemma DivNat(n: nat, d: nat)
    requires d > 0
    ensures n / d >= 0
  {
    if n / d <= -1 { MulMono(n / d, -1, d); }
  }

  lemma DivMonotone(a: nat, b: nat, d: nat)
    requires d > 0 && a <= b
    ensures a / d <= b / d
  {
    var p, q := a / d, b / d;
    assert p * d <= a;
    assert b < q * d + d;
    if q < p { MulMono(q + 1, p, d); }
  }

  /** Division rounded up. */
  function Ceil(a: nat, b: pos): nat {
    DivNat(a + b - 1, b);
    (a + b - 1) / b
  }

  lemma CeilUnique(a: nat, b: pos, c: nat)
    requires a <= c * b < a + b
    ensures Ceil(a, b) == c
  {
    DivUnique(a + b - 1, b, c, a + b - 1 - c * b);
  }
}
