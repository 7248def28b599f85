/** Periods, local repetitions and critical cuts of a word, and the facts about
    them that make the Two-Way shifts safe. Nothing here depends on an order of the letters. */
module Periods {

  /** Letters at distance p agree, wherever both exist. */
  ghost predicate HasPeriod<T>(x: seq<T>, p: int) {
    1 <= p && forall i, j | 0 <= i < |x| && 0 <= j < |x| && j == i + p :: x[i] == x[j]
  }

  /** x[i..i+m] and y[j..j+m] lie inside their words and are equal. */
  ghost predicate Agree<T>(x: seq<T>, i: int, y: seq<T>, j: int, m: int) {
    && 0 <= i && i + m <= |x| && 0 <= j && j + m <= |y|
    && forall a, b | i <= a < i + m && b == a - i + j :: x[a] == y[b]
  }

  lemma AgreeTransitive<T>(x: seq<T>, i: int, y: seq<T>, j: int, z: seq<T>, k: int, m: int)
    requires Agree(x, i, y, j, m) && Agree(y, j, z, k, m)
    ensures Agree(x, i, z, k, m)
  {
    forall a, b | i <= a < i + m && b == a - i + k ensures x[a] == z[b] {
      assert x[a] == y[a - i + j];
    }
  }

  lemma AgreePart<T>(x: seq<T>, i: int, y: seq<T>, j: int, m: int, o: int, n: int)
    requires Agree(x, i, y, j, m) && 0 <= o <= o + n <= m
    ensures Agree(x, i + o, y, j + o, n)
  {
  }

  /** A word of length r can be laid ending at cut c and again starting at cut c
      without disagreeing with x on either side. */
  ghost predicate LocalRepetition<T>(x: seq<T>, c: int, r: int) {
    1 <= r && forall i, j | 0 <= i < c && c - r <= i && j == i + r && j < |x| :: x[i] == x[j]
  }

  ghost function LeastPeriodFrom<T>(x: seq<T>, p: nat): (q: nat)
    requires 1 <= p <= |x|
    ensures p <= q <= |x| && HasPeriod(x, q)
    ensures forall t | p <= t < q :: !HasPeriod(x, t)
    decreases |x| - p
  {
    if HasPeriod(x, p) || p == |x| then p else LeastPeriodFrom(x, p + 1)
  }

  /** The global period of a non-empty word. */
  ghost function Period<T>(x: seq<T>): (q: nat)
    requires |x| > 0
    ensures 1 <= q <= |x| && HasPeriod(x, q)
    ensures forall t | 1 <= t < q :: !HasPeriod(x, t)
  {
    LeastPeriodFrom(x, 1)
  }

  ghost function LeastRepetitionFrom<T>(x: seq<T>, c: nat, r: nat): (q: nat)
    requires c <= |x| && 1 <= r <= |x|
    ensures r <= q <= |x| && LocalRepetition(x, c, q)
    ensures forall t | r <= t < q :: !LocalRepetition(x, c, t)
    decreases |x| - r
  {
    if LocalRepetition(x, c, r) || r == |x| then r else LeastRepetitionFrom(x, c, r + 1)
  }

  /** The local period of x at cut c: its shortest local repetition. */
  ghost function LocalPeriod<T>(x: seq<T>, c: nat): (q: nat)
    requires 0 < |x| && c <= |x|
    ensures 1 <= q <= |x| && LocalRepetition(x, c, q)
    ensures forall t | 1 <= t < q :: !LocalRepetition(x, c, t)
  {
    LeastRepetitionFrom(x, c, 1)
  }

  /** The cut splits x critically: its local period there is the period of all of x. */
  ghost predicate IsCritical<T>(x: seq<T>, c: nat) {
    0 < |x| && c <= |x| && LocalPeriod(x, c) == Period(x)
  }

  /** What critical_factorization promises of a cut c and a period p of the right half. */
  ghost predicate IsCriticalFactorization<T>(x: seq<T>, c: nat, p: nat) {
    && c < |x| && IsCritical(x, c) && c < Period(x) && p == Period(x[c..])
  }

  lemma LocalPeriodAtMostPeriod<T>(x: seq<T>, c: nat)
    requires 0 < |x| && c <= |x|
    ensures LocalPeriod(x, c) <= Period(x)
  {
    assert LocalRepetition(x, c, Period(x));
  }

  /** If no local repetition at c is shorter than the period of x, the cut is critical. */
  lemma CriticalIfNoShortRepetition<T>(x: seq<T>, c: nat)
    requires 0 < |x| && c <= |x|
    requires forall r | LocalRepetition(x, c, r) && r < |x| :: HasPeriod(x, r)
    ensures IsCritical(x, c)
  {
    LocalPeriodAtMostPeriod(x, c);
  }

  /** A stretch with period p also repeats at every distance q * p. */
  lemma {:induction false} PeriodMultiple<T>(x: seq<T>, p: nat, q: nat, i: nat)
    requires HasPeriod(x, p) && i + q * p < |x|
    ensures x[i] == x[i + q * p]
    decreases q
  {
    if q > 0 {
      assert q * p == (q - 1) * p + p;
      PeriodMultiple(x, p, q - 1, i);
      assert x[i + (q - 1) * p] == x[i + q * p];
    }
  }

  lemma {:induction false} RemainderRepeats<T>(x: seq<T>, p: nat, d: nat, i: nat)
    requires HasPeriod(x, p) && i + d < |x|
    ensures x[i + d] == x[i + d % p]
  {
    assert d == d % p + d / p * p;
    PeriodMultiple(x, p, d / p, i + d % p);
  }

  /** At a critical cut left of the period, every local repetition that fits on the
      right is a multiple of the period. */
  lemma RepetitionIsMultiple<T>(x: seq<T>, c: nat, d: nat)
    requires IsCritical(x, c) && c < Period(x)
    requires LocalRepetition(x, c, d) && c + d <= |x|
    ensures d % Period(x) == 0
  {
    var p := Period(x);
    var e := d % p;
    if e != 0 {
      assert d == e + d / p * p;
      assert e <= d;
      forall i, j | 0 <= i < c && c - e <= i && j == i + e && j < |x|
        ensures x[i] == x[j]
      {
        assert x[i] == x[i + d];
        RemainderRepeats(x, p, d, i);
      }
      assert LocalRepetition(x, c, e);
    }
  }

  /** If the left half repeats one right-period later, the right period is global. */
  lemma PeriodicNeedle<T>(x: seq<T>, c: nat, p: nat)
    requires c < |x| && p == Period(x[c..]) && Agree(x, 0, x, p, c)
    ensures p == Period(x)
  {
    var v := x[c..];
    assert HasPeriod(x, p) by {
      forall i, j | 0 <= i < |x| && 0 <= j < |x| && j == i + p ensures x[i] == x[j] {
        if i >= c { assert x[i] == v[i - c] && x[j] == v[j - c]; }
      }
    }
    var g := Period(x);
    assert HasPeriod(v, g);
  }

  /** Otherwise the global period is longer than either half, so the larger half
      plus one never exceeds it. */
  lemma DistinctHalves<T>(x: seq<T>, c: nat, p: nat)
    requires IsCriticalFactorization(x, c, p) && !Agree(x, 0, x, p, c)
    ensures 0 < c && c < Period(x) && |x| - c < Period(x)
  {
    var g, v := Period(x), x[c..];
    if g <= |x| - c {
      assert HasPeriod(v, g);
      assert p <= g;
      if p == g {
        assert Agree(x, 0, x, p, c);
      } else {
        var r := if g % p == 0 then p else g % p;
        forall i, j | 0 <= i < c && c - r <= i && j == i + r && j < |x|
          ensures x[i] == x[j]
        {
          assert x[i] == x[i + g];
          ReduceInRightHalf(x, c, p, g, r, i);
        }
        assert LocalRepetition(x, c, r);
        assert false;
      }
    }
    assert c > 0;
  }

  lemma ReduceInRightHalf<T>(x: seq<T>, c: nat, p: nat, g: nat, r: nat, i: nat)
    requires c < |x| && HasPeriod(x[c..], p) && 1 <= p < g
    requires r == (if g % p == 0 then p else g % p)
    requires c <= i + r && i + g < |x|
    ensures x[i + g] == x[i + r]
  {
    var v := x[c..];
    assert g == g % p + g / p * p;
    var q := if g % p == 0 then g / p - 1 else g / p;
    assert g == r + q * p by {
      if g % p == 0 { assert g / p * p == (g / p - 1) * p + p; }
    }
    PeriodMultiple(v, p, q, i + r - c);
    assert v[i + r - c] == x[i + r] && v[i + r - c + q * p] == x[i + g];
  }
}
