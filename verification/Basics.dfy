/** What every module may use: optional values, and division with remainder. */
module Basics {

  datatype Option<+T> = None | Some(value: T)

  /** A quotient with a remainder below the divisor is the quotient and the remainder. */
  lemma QuotientRemainder(v: nat, d: nat, q: nat, r: nat)
    requires d > 0 && r < d && v == r + d * q
    ensures v / d == q && v % d == r
  {
    var q' := v / d;
    assert v % d == v - d * q';
    assert q > q' ==> d * q >= d * (q' + 1) == d * q' + d;
    assert q < q' ==> d * q' >= d * (q + 1) == d * q + d;
  }

  lemma SumOfMultiples(a: nat, b: nat)
    requires a % 8 == 0 && b % 8 == 0
    ensures (a + b) % 8 == 0
  {
    QuotientRemainder(a + b, 8, a / 8 + b / 8, 0);
  }

  /** A sum wraps the same whichever part of it wraps before. */
  lemma WrapsOnce(a: nat, b: nat, m: nat)
    requires m > 0
    ensures (a % m + b) % m == (a + b) % m
  {
    var c := a % m + b;
    assert a == m * (a / m) + a % m && c == m * (c / m) + c % m;
    assert m * (a / m) + m * (c / m) == m * (a / m + c / m);
    QuotientRemainder(a + b, m, a / m + c / m, c % m);
  }

  /** A slice of a prefix is a slice of the whole. */
  lemma SliceOfPrefix<T>(s: seq<T>, k: nat, a: nat, b: nat)
    requires a <= b <= k <= |s|
    ensures s[..k][a..b] == s[a..b]
  {
    var x, y := s[..k][a..b], s[a..b];
    assert |x| == |y| == b - a;
    forall i | 0 <= i < b - a
      ensures x[i] == y[i]
    {
      assert x[i] == s[a + i] == y[i];
    }
  }
}
