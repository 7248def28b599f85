/** The critical factorization of a needle from its two maximal suffixes. */
module MaximalSuffix {
  import opened Bytes
  import opened Periods

  /** The byte order, or its reverse. */
  predicate Less(rev: bool, a: Byte, b: Byte) {
    if rev then b < a else a < b
  }

  /** The suffix of x at i loses to the one at j at offset m, where one of its bytes is smaller. */
  ghost predicate BeatenAt(x: seq<Byte>, rev: bool, i: int, j: int, m: int) {
    && 0 <= m && i + m < |x| && j + m < |x|
    && Agree(x, i, x, j, m) && Less(rev, x[i + m], x[j + m])
  }

  /** The suffix of x at i is lexicographically smaller than the one at j: it loses at some
      byte or is a proper prefix of it. */
  ghost predicate SuffixLess(x: seq<Byte>, rev: bool, i: int, j: int) {
    || (exists m :: BeatenAt(x, rev, i, j, m))
    || (0 <= j < i <= |x| && Agree(x, i, x, j, |x| - i))
  }

  ghost predicate IsMaximalSuffix(x: seq<Byte>, rev: bool, s: int) {
    0 <= s < |x| && forall i | 0 <= i <= |x| && i != s :: SuffixLess(x, rev, i, s)
  }

  /** Every suffix starting before s is smaller than the one at s. */
  ghost predicate AllBelow(x: seq<Byte>, rev: bool, s: int) {
    forall i | 0 <= i < s :: SuffixLess(x, rev, i, s)
  }

  /** The suffix at i loses to the one at s before index e. */
  ghost predicate BeatenBefore(x: seq<Byte>, rev: bool, i: int, s: int, e: int) {
    exists m :: i + m < e && BeatenAt(x, rev, i, s, m)
  }

  /** No proper suffix of the block x[s..e] survives a comparison with the block itself. */
  ghost predicate BlockDominates(x: seq<Byte>, rev: bool, s: int, e: int) {
    forall i | s < i < e :: BeatenBefore(x, rev, i, s, e)
  }

  /** The stretch x[s..l] has period p. */
  ghost predicate StretchPeriod(x: seq<Byte>, s: int, l: int, p: int) {
    && 0 <= s && 1 <= p && s + p <= l <= |x|
    && Agree(x, s, x, s + p, l - s - p)
  }

  /** The suffix of the stretch at i agrees to its end, and the byte it is next compared with
      is no smaller than the one the period predicts. */
  ghost predicate Ties(x: seq<Byte>, rev: bool, s: int, l: int, p: int, i: int) {
    && 0 <= s < i <= l <= |x| && 1 <= p <= l - s
    && Agree(x, i, x, s, l - i) && !Less(rev, x[s + l - i], x[l - p])
  }

  lemma {:induction false} StretchSettled(x: seq<Byte>, rev: bool, s: int, l: int, p: int, i: int)
    requires StretchPeriod(x, s, l, p) && BlockDominates(x, rev, s, s + p)
    requires s < i <= l
    ensures BeatenBefore(x, rev, i, s, l) || Ties(x, rev, s, l, p, i)
    decreases i - s
  {
    if i < s + p {
      assert BeatenBefore(x, rev, i, s, s + p);
    } else if i > s + p {
      var i' := i - p;
      StretchSettled(x, rev, s, l, p, i');
      AgreePart(x, s, x, s + p, l - s - p, i' - s, l - i);
      if BeatenBefore(x, rev, i', s, l) {
        var m :| i' + m < l && BeatenAt(x, rev, i', s, m);
        BlockLater(x, rev, s, l, i', i, m);
      } else {
        AgreeTransitive(x, i, x, i', x, s, l - i);
        assert x[i' + (l - i)] == x[s + (l - i)];
      }
    }
  }

  /** A suffix that loses at offset m still loses one block later, unless the stretch ends first. */
  lemma BlockLater(x: seq<Byte>, rev: bool, s: int, l: int, i': int, i: int, m: int)
    requires 0 <= s < i' < i <= l <= |x| && Agree(x, i', x, i, l - i)
    requires i' + m < l && BeatenAt(x, rev, i', s, m)
    ensures BeatenBefore(x, rev, i, s, l) || Ties(x, rev, s, l, i - i', i)
  {
    var n := if i + m < l then m else l - i;
    assert Agree(x, i, x, i', n);
    AgreeTransitive(x, i, x, i', x, s, n);
    if i + m < l {
      assert x[i + m] == x[i' + m];
      assert BeatenAt(x, rev, i, s, m);
    } else {
      assert i + m > l ==> x[i' + n] == x[s + n];
    }
  }

  lemma BeatenTransitive(x: seq<Byte>, rev: bool, i: int, j: int, k: int, n: int, m: int)
    requires 0 <= i && 0 <= j && 0 <= k && BeatenAt(x, rev, i, j, n) && BeatenAt(x, rev, j, k, m)
    ensures BeatenAt(x, rev, i, k, if m < n then m else n)
  {
    var o := if m < n then m else n;
    AgreeTransitive(x, i, x, j, x, k, o);
    assert m < n ==> x[i + m] == x[j + m];
    assert n < m ==> x[j + n] == x[k + n];
  }

  lemma LessTransitive(x: seq<Byte>, rev: bool, i: int, j: int, k: int, m: int)
    requires 0 <= i && 0 <= j && 0 <= k
    requires SuffixLess(x, rev, i, j) && BeatenAt(x, rev, j, k, m)
    ensures SuffixLess(x, rev, i, k)
  {
    if n :| BeatenAt(x, rev, i, j, n) {
      BeatenTransitive(x, rev, i, j, k, n, m);
    } else {
      var n := |x| - i;
      AgreeTransitive(x, i, x, j, x, k, if m < n then m else n);
      if m < n {
        assert x[i + m] == x[j + m];
        assert BeatenAt(x, rev, i, k, m);
      }
    }
  }

  /** The next byte is larger than the period predicts: everything up to j loses to j + 1. */
  lemma RestartBeatsAll(x: seq<Byte>, rev: bool, s: int, j: int, k: int, p: int)
    requires 0 <= s <= j && 1 <= k <= p && s + p <= j + 1 && j + k < |x|
    requires StretchPeriod(x, s, j + k, p) && BlockDominates(x, rev, s, s + p)
    requires Agree(x, s, x, j + 1, k - 1) && Less(rev, x[s + k - 1], x[j + k])
    requires AllBelow(x, rev, s)
    ensures AllBelow(x, rev, j + 1)
  {
    var t := j + 1;
    assert BeatenAt(x, rev, s, t, k - 1);
    forall i | 0 <= i < t ensures SuffixLess(x, rev, i, t) {
      if i != s {
        if i > s { StretchSettled(x, rev, s, j + k, p, i); }
        if i < s || BeatenBefore(x, rev, i, s, j + k) {
          LessTransitive(x, rev, i, s, t, k - 1);
        } else {
          AgreeTransitive(x, i, x, s, x, t, k - 1);
          assert x[i + (k - 1)] == x[s + (k - 1)];
          assert BeatenAt(x, rev, i, t, k - 1);
        }
      }
    }
  }

  /** The next byte is smaller than the period predicts: the whole stretch becomes the block. */
  lemma LongerBlockDominates(x: seq<Byte>, rev: bool, s: int, l: int, p: int)
    requires StretchPeriod(x, s, l, p) && BlockDominates(x, rev, s, s + p)
    requires l < |x| && Less(rev, x[l], x[l - p])
    ensures BlockDominates(x, rev, s, l + 1)
  {
    var e := l + 1;
    forall i | s < i < e ensures BeatenBefore(x, rev, i, s, e) {
      StretchSettled(x, rev, s, l, p, i);
      if Ties(x, rev, s, l, p, i) {
        assert BeatenAt(x, rev, i, s, l - i);
      }
    }
  }

  /** When the stretch reaches the end, its start is the maximal suffix and p its least period. */
  lemma StretchIsMaximal(x: seq<Byte>, rev: bool, s: int, p: int)
    requires StretchPeriod(x, s, |x|, p) && BlockDominates(x, rev, s, s + p)
    requires AllBelow(x, rev, s)
    ensures IsMaximalSuffix(x, rev, s) && p == Period(x[s..])
  {
    forall i | s < i <= |x| ensures SuffixLess(x, rev, i, s) {
      StretchSettled(x, rev, s, |x|, p, i);
    }
    var v := x[s..];
    forall i, j | 0 <= i < |v| && 0 <= j < |v| && j == i + p ensures v[i] == v[j] {
      assert v[i] == x[s + i] && v[j] == x[s + j];
    }
    assert HasPeriod(v, p);
    forall q | 1 <= q < p ensures !HasPeriod(v, q) {
      var i := s + q;
      assert BeatenBefore(x, rev, i, s, s + p);
      var m :| i + m < s + p && BeatenAt(x, rev, i, s, m);
      assert v[q + m] == x[s + q + m] && v[m] == x[s + m];
    }
  }

  /** What the scan keeps: x[maxSuffix+1..j+k] is the best suffix so far, made of blocks of
      length p, the last of them incomplete and starting at j + 1. */
  ghost predicate Scanning(x: seq<Byte>, rev: bool, maxSuffix: int, j: int, k: int, p: int) {
    var s := maxSuffix + 1;
    && -1 <= maxSuffix < j && 1 <= k <= p <= j - maxSuffix && j + k <= |x|
    && StretchPeriod(x, s, j + k, p) && BlockDominates(x, rev, s, s + p)
    && Agree(x, s, x, j + 1, k - 1) && Agree(x, s, x, j + 1 - p, p)
    && AllBelow(x, rev, s)
  }

  lemma ScanSmaller(x: seq<Byte>, rev: bool, maxSuffix: int, j: int, k: int, p: int)
    requires Scanning(x, rev, maxSuffix, j, k, p) && j + k < |x|
    requires Less(rev, x[j + k], x[maxSuffix + k])
    ensures Scanning(x, rev, maxSuffix, j + k, 1, j + k - maxSuffix)
  {
    assert x[maxSuffix + k] == x[j + k - p];
    LongerBlockDominates(x, rev, maxSuffix + 1, j + k, p);
  }

  lemma ScanEqual(x: seq<Byte>, rev: bool, maxSuffix: int, j: int, k: int, p: int)
    requires Scanning(x, rev, maxSuffix, j, k, p) && j + k < |x|
    requires x[j + k] == x[maxSuffix + k]
    ensures if k != p then Scanning(x, rev, maxSuffix, j, k + 1, p) else Scanning(x, rev, maxSuffix, j + p, 1, p)
  {
    var s := maxSuffix + 1;
    assert x[maxSuffix + k] == x[j + k - p];
    assert Agree(x, s, x, s + p, j + k + 1 - s - p);
    assert Agree(x, s, x, j + 1, k);
  }

  lemma ScanLarger(x: seq<Byte>, rev: bool, maxSuffix: int, j: int, k: int, p: int)
    requires Scanning(x, rev, maxSuffix, j, k, p) && j + k < |x|
    requires Less(rev, x[maxSuffix + k], x[j + k])
    ensures Scanning(x, rev, j, j + 1, 1, 1)
  {
    RestartBeatsAll(x, rev, maxSuffix + 1, j, k, p);
  }

  lemma ScanStart(x: seq<Byte>, rev: bool)
    requires |x| > 0
    ensures Scanning(x, rev, -1, 0, 1, 1)
  {
  }

  lemma ScanDone(x: seq<Byte>, rev: bool, maxSuffix: int, j: int, k: int, p: int)
    requires Scanning(x, rev, maxSuffix, j, k, p) && j + k == |x|
    ensures IsMaximalSuffix(x, rev, maxSuffix + 1) && p == Period(x[maxSuffix + 1..])
  {
    StretchIsMaximal(x, rev, maxSuffix + 1, p);
  }

  /** One of the two scans of critical_factorization. max_suffix is -1 where the C code
      holds SIZE_MAX; the result is max_suffix + 1, the first byte of the suffix. */
  method ScanMaximalSuffix(x: seq<Byte>, rev: bool) returns (s: nat, p: nat)
    requires |x| > 0
    ensures IsMaximalSuffix(x, rev, s) && p == Period(x[s..])
  {
    var maxSuffix := -1;
    var j, k := 0, 1;
    p := 1;
    ScanStart(x, rev);
    while j + k < |x|
      invariant Scanning(x, rev, maxSuffix, j, k, p) == true  // kept whole, so it is not re-proved clause by clause
      decreases |x| - maxSuffix, |x| - j - k
    {
      var a, b := x[j + k], x[maxSuffix + k];
      if Less(rev, a, b) {
        ScanSmaller(x, rev, maxSuffix, j, k, p);
        j := j + k;
        k := 1;
        p := j - maxSuffix;
      } else if a == b {
        ScanEqual(x, rev, maxSuffix, j, k, p);
        if k != p {
          k := k + 1;
        } else {
          j := j + p;
          k := 1;
        }
      } else {
        ScanLarger(x, rev, maxSuffix, j, k, p);
        maxSuffix := j;
        j := j + 1;
        k, p := 1, 1;
      }
    }
    ScanDone(x, rev, maxSuffix, j, k, p);
    s := maxSuffix + 1;
  }

  /** A repetition that fits on both sides carries a defeat over to its right half. */
  lemma DefeatCarries(x: seq<Byte>, rev: bool, c: nat, r: nat, m: nat)
    requires LocalRepetition(x, c, r) && r <= c && c + r <= |x| && BeatenAt(x, rev, c - r, c, m)
    ensures m >= r && BeatenAt(x, rev, c, c + r, m - r)
  {
    assert m >= r;
  }

  /** A local repetition at a maximal suffix cannot fit inside the left half. */
  lemma RepetitionOverhangsLeft(x: seq<Byte>, rev: bool, c: nat, r: nat)
    requires IsMaximalSuffix(x, rev, c) && LocalRepetition(x, c, r)
    ensures r > c
  {
    if r <= c {
      assert SuffixLess(x, rev, c - r, c);
      var b := c - r;
      var m :| BeatenAt(x, rev, b, c, m);
      if c + r <= |x| {
        DefeatCarries(x, rev, c, r, m);
        assert SuffixLess(x, rev, c + r, c);
        AntiSymmetric(x, rev, c, c + r, m - r);
      }
    }
  }

  lemma AntiSymmetric(x: seq<Byte>, rev: bool, i: nat, j: nat, m: nat)
    requires BeatenAt(x, rev, i, j, m) && i < j
    ensures !SuffixLess(x, rev, j, i)
  {
    forall n ensures !BeatenAt(x, rev, j, i, n) {
      assert m < n && j + m < |x| ==> !BeatenAt(x, rev, j, i, n);
      assert n < m && 0 <= n && j + n < |x| ==> x[i + n] == x[j + n];
    }
  }

  /** The critical factorization theorem: of the maximal suffixes for an order and for its
      reverse, the shorter one starts at a critical cut, left of the period. */
  lemma LaterMaximalSuffixIsCritical(x: seq<Byte>, rev: bool, c: nat, d: nat)
    requires IsMaximalSuffix(x, rev, c) && IsMaximalSuffix(x, !rev, d) && d <= c
    ensures IsCritical(x, c) && c < Period(x)
  {
    RepetitionOverhangsLeft(x, rev, c, Period(x));
    forall r: int | LocalRepetition(x, c, r) && r < |x| ensures HasPeriod(x, r) {
      RepetitionOverhangsLeft(x, rev, c, r);
      if c + r <= |x| {
        RightHalfRepeats(x, rev, c, d, r, |x| - c - r);
      }
    }
    CriticalIfNoShortRepetition(x, c);
  }

  /** What follows the repeated word agrees with the right half: any first difference would
      contradict one of the two maximal suffixes. */
  lemma {:induction false} RightHalfRepeats(x: seq<Byte>, rev: bool, c: nat, d: nat, r: nat, n: nat)
    requires IsMaximalSuffix(x, rev, c) && IsMaximalSuffix(x, !rev, d) && d <= c
    requires LocalRepetition(x, c, r) && c < r && c + r + n <= |x|
    ensures Agree(x, c, x, c + r, n)
    decreases n
  {
    if n > 0 {
      RightHalfRepeats(x, rev, c, d, r, n - 1);
      var a, b := x[c + n - 1], x[c + r + n - 1];
      if Less(rev, a, b) {
        AntiSymmetric(x, rev, c, c + r, n - 1);
      } else if Less(rev, b, a) {
        assert BeatenAt(x, !rev, d, d + r, c - d + n - 1);
        AntiSymmetric(x, !rev, d, d + r, c - d + n - 1);
      }
    }
  }

  /** critical_factorization: the cut is critical and left of the global period, and the
      period returned is the least period of the right half. */
  method CriticalFactorization(needle: seq<Byte>) returns (suffix: nat, period: nat)
    requires |needle| > 0
    ensures IsCriticalFactorization(needle, suffix, period)
  {
    var s, p := ScanMaximalSuffix(needle, false);
    var sRev, pRev := ScanMaximalSuffix(needle, true);
    if sRev < s {
      LaterMaximalSuffixIsCritical(needle, false, s, sRev);
      return s, p;
    }
    LaterMaximalSuffixIsCritical(needle, true, sRev, s);
    return sRev, pRev;
  }
}
