/** The Two-Way search: no shift it takes ever skips an occurrence of the needle. */
module TwoWay {
  import opened Bytes
  import opened CStrings
  import opened Options
  import opened Periods
  import opened MaximalSuffix

  /** The right half matches up to a mismatch at i: nothing occurs in the next i - c places. */
  lemma MismatchShift(s: seq<Byte>, x: seq<Byte>, c: nat, p: nat, j: nat, i: nat, d: nat)
    requires IsCriticalFactorization(x, c, p) && c <= i < |x| && j + |x| <= |s|
    requires Agree(x, c, s, j + c, i - c) && x[i] != s[j + i] && d <= i - c
    ensures !Occurs(s, x, j + d)
  {
    var g, shifted := Period(x), x[i - d];
    if Occurs(s, x, j + d) && d > 0 {
      forall a, b | 0 <= a < c && c - d <= a && b == a + d && b < |x| ensures x[a] == x[b] {
        assert x[b] == s[j + b];
      }
      assert LocalRepetition(x, c, d);
      RepetitionIsMultiple(x, c, d);
      RemainderRepeats(x, g, d, i - d);
    }
  }

  /** The whole right half matches: nothing occurs in the next Period(x) - 1 places. */
  lemma PeriodShift(s: seq<Byte>, x: seq<Byte>, c: nat, p: nat, j: nat, d: nat)
    requires IsCriticalFactorization(x, c, p) && j + |x| <= |s|
    requires Agree(x, c, s, j + c, |x| - c) && 1 <= d < Period(x)
    ensures !Occurs(s, x, j + d)
  {
    if Occurs(s, x, j + d) {
      forall a, b | 0 <= a < c && c - d <= a && b == a + d && b < |x| ensures x[a] == x[b] {
        assert x[b] == s[j + b];
      }
      assert LocalRepetition(x, c, d);
    }
  }

  /** After a shift by the period, the start of the needle is known to match again. */
  lemma RememberedPrefix(s: seq<Byte>, x: seq<Byte>, c: nat, g: nat, j: nat)
    requires c < g <= |x| && HasPeriod(x, g) && j + |x| <= |s|
    requires Agree(x, c, s, j + c, |x| - c)
    ensures j + g + (|x| - g) <= |s| && Agree(x, 0, s, j + g, |x| - g)
  {
    forall a, b | 0 <= a < |x| - g && b == a + j + g ensures x[a] == s[b] {
      assert x[a] == x[a + g];
    }
  }

  /** With a remembered prefix and a last byte out of place, nothing occurs before |x| - g. */
  lemma MemoryShift(s: seq<Byte>, x: seq<Byte>, g: nat, j: nat, d: nat)
    requires 1 <= g < |x| && HasPeriod(x, g) && j + |x| <= |s|
    requires Agree(x, 0, s, j, |x| - g) && s[j + |x| - 1] != x[|x| - 1] && d < |x| - g
    ensures !Occurs(s, x, j + d)
  {
    var n := |x| - 1;
    var k, l := n - g - d, n - d;
    var u, v, w, t := x[k], x[l], s[j + n - g], s[j + n];
    assert u == v;
    assert x[n] == x[n - g] == w;
  }

  /** d locates the last byte b among the first i bytes of x, as a distance from the end of x;
      it is |x| if there is none. */
  ghost predicate LastSeen(x: seq<Byte>, i: int, b: int, d: nat) {
    && i <= |x| && d <= |x|
    && (d < |x| ==> d >= |x| - i && x[|x| - 1 - d] as int == b)
    && forall k | |x| - d <= k < i :: x[k] as int != b
  }

  ghost predicate IsShiftTable(x: seq<Byte>, t: seq<nat>) {
    |t| == 256 && forall b | 0 <= b < 256 :: LastSeen(x, |x|, b, t[b])
  }

  lemma SameByte(a: Byte, b: Byte)
    requires a as int == b as int
    ensures a == b
  {
    assert (a as int) as Byte == a;
  }

  /** A bad last byte: nothing occurs until its last place in the needle lines up with it. */
  lemma BadByteShift(s: seq<Byte>, x: seq<Byte>, t: seq<nat>, j: nat, d: nat)
    requires |x| > 0 && IsShiftTable(x, t) && j + |x| <= |s|
    requires d < t[s[j + |x| - 1] as int]
    ensures !Occurs(s, x, j + d)
  {
    var b := s[j + |x| - 1] as int;
    assert LastSeen(x, |x|, b, t[b]);
    var l, k := j + |x| - 1, |x| - 1 - d;
    var u, v := x[k], s[l];
  }

  /** AVAILABLE: are needleLen bytes left at j? The known length is extended at most once, by
      at least 2048 bytes; the answer is about the whole haystack all the same. */
  method Available(haystack: seq<Byte>, known: nat, j: nat, needleLen: nat) returns (ok: bool, known': nat)
    requires NulFree(haystack) && needleLen <= known <= |haystack| && j <= known
    ensures known <= known' <= |haystack|
    ensures ok <==> j + needleLen <= |haystack|
    ensures ok ==> j + needleLen <= known'
  {
    known' := known;
    if j <= known - needleLen {
      return true, known;
    }
    var more := StrNLen(haystack, known, WithBit(needleLen, 2048));
    known' := known + more;
    ok := j <= known' - needleLen;
  }

  /** Scans the right half upwards to end, starting past what memory already vouches for. The
      bytes from end on are known to match. */
  method ScanRight(haystack: seq<Byte>, j: nat, needle: seq<Byte>, suffix: nat, memory: nat, end: nat)
    returns (i: nat)
    requires suffix <= end <= |needle| && memory <= end && j + |needle| <= |haystack|
    requires Agree(needle, 0, haystack, j, memory)
    requires Agree(needle, end, haystack, j + end, |needle| - end)
    ensures suffix <= i <= end && Agree(needle, suffix, haystack, j + suffix, i - suffix)
    ensures i < end ==> needle[i] != haystack[j + i]
    ensures i == end ==> Agree(needle, suffix, haystack, j + suffix, |needle| - suffix)
  {
    i := if suffix < memory then memory else suffix;
    while i < end && needle[i] == At(haystack, i + j)
      invariant suffix <= i <= end
      invariant Agree(needle, suffix, haystack, j + suffix, i - suffix)
    {
      i := i + 1;
    }
  }

  /** Scans the left half downwards, stopping at what memory already vouches for. */
  method ScanLeft(haystack: seq<Byte>, j: nat, needle: seq<Byte>, suffix: nat, memory: nat) returns (found: bool)
    requires suffix <= |needle| && memory <= |needle| && j + |needle| <= |haystack|
    requires Agree(needle, 0, haystack, j, memory)
    requires Agree(needle, suffix, haystack, j + suffix, |needle| - suffix)
    ensures found <==> Occurs(haystack, needle, j)
  {
    var i := suffix - 1;
    while memory < i + 1 && needle[i] == At(haystack, i + j)
      invariant -1 <= i < suffix && (i < suffix - 1 ==> memory <= i + 1)
      invariant Agree(needle, i + 1, haystack, j + i + 1, |needle| - i - 1)
    {
      i := i - 1;
    }
    found := i + 1 < memory + 1;
  }

  method ShiftTable(needle: seq<Byte>) returns (table: array<nat>)
    requires |needle| > 0
    ensures fresh(table) && IsShiftTable(needle, table[..])
  {
    table := new nat[256];
    var i := 0;
    while i < 256
      invariant i <= 256 && forall k | 0 <= k < i :: table[k] == |needle|
    {
      table[i] := |needle|;
      i := i + 1;
    }
    i := 0;
    while i < |needle|
      invariant i <= |needle|
      invariant forall b | 0 <= b < 256 :: LastSeen(needle, i, b, table[b])
    {
      table[needle[i] as int] := |needle| - i - 1;
      i := i + 1;
    }
  }

  lemma SkipMismatch(s: seq<Byte>, x: seq<Byte>, c: nat, p: nat, j: nat, i: nat)
    requires IsCriticalFactorization(x, c, p) && c <= i < |x| && j + |x| <= |s|
    requires Agree(x, c, s, j + c, i - c) && x[i] != s[j + i] && NoneBefore(s, x, j)
    ensures NoneBefore(s, x, j + i - c + 1)
  {
    forall k | j <= k < j + i - c + 1 ensures !Occurs(s, x, k) {
      MismatchShift(s, x, c, p, j, i, k - j);
    }
  }

  lemma SkipPeriod(s: seq<Byte>, x: seq<Byte>, c: nat, p: nat, j: nat, shift: nat)
    requires IsCriticalFactorization(x, c, p) && j + |x| <= |s| && shift <= Period(x)
    requires Agree(x, c, s, j + c, |x| - c) && NoneBefore(s, x, j) && !Occurs(s, x, j)
    ensures NoneBefore(s, x, j + shift)
  {
    forall k | j < k < j + shift ensures !Occurs(s, x, k) {
      PeriodShift(s, x, c, p, j, k - j);
    }
  }

  lemma SkipBadByte(s: seq<Byte>, x: seq<Byte>, t: seq<nat>, j: nat)
    requires |x| > 0 && IsShiftTable(x, t) && j + |x| <= |s| && NoneBefore(s, x, j)
    ensures NoneBefore(s, x, j + t[s[j + |x| - 1] as int])
  {
    forall k | j <= k < j + t[s[j + |x| - 1] as int] ensures !Occurs(s, x, k) {
      BadByteShift(s, x, t, j, k - j);
    }
  }

  lemma SkipMemory(s: seq<Byte>, x: seq<Byte>, g: nat, j: nat)
    requires 1 <= g < |x| && HasPeriod(x, g) && j + |x| <= |s| && NoneBefore(s, x, j)
    requires Agree(x, 0, s, j, |x| - g) && s[j + |x| - 1] != x[|x| - 1]
    ensures NoneBefore(s, x, j + |x| - g)
  {
    forall k | j <= k < j + |x| - g ensures !Occurs(s, x, k) {
      MemoryShift(s, x, g, j, k - j);
    }
  }

  lemma NotFound(s: seq<Byte>, x: seq<Byte>, j: nat)
    requires NoneBefore(s, x, j) && j + |x| > |s|
    ensures IsLeftmost(s, x, None)
  {
  }

  /** Short needle, one period throughout: memory saves rescanning what a period shift kept. */
  method ShortPeriodic(haystack: seq<Byte>, haystackLen: nat, needle: seq<Byte>, suffix: nat, period: nat)
    returns (r: Option<nat>)
    requires NulFree(haystack) && |needle| <= haystackLen <= |haystack|
    requires IsCriticalFactorization(needle, suffix, period) && period == Period(needle)
    ensures IsLeftmost(haystack, needle, r)
  {
    var memory, j := 0, 0;
    var ok, known := Available(haystack, haystackLen, j, |needle|);
    while ok
      invariant |needle| <= known <= |haystack|
      invariant ok <==> j + |needle| <= |haystack|
      invariant ok ==> j + |needle| <= known
      invariant memory == 0 || memory == |needle| - period
      invariant ok ==> Agree(needle, 0, haystack, j, memory)
      invariant NoneBefore(haystack, needle, j)
      decreases |haystack| - j
    {
      var i := ScanRight(haystack, j, needle, suffix, memory, |needle|);
      if |needle| <= i {
        var found := ScanLeft(haystack, j, needle, suffix, memory);
        if found {
          return Some(j);
        }
        SkipPeriod(haystack, needle, suffix, period, j, period);
        RememberedPrefix(haystack, needle, suffix, period, j);
        j := j + period;
        memory := |needle| - period;
      } else {
        SkipMismatch(haystack, needle, suffix, period, j, i);
        j := j + i - suffix + 1;
        memory := 0;
      }
      ok, known := Available(haystack, known, j, |needle|);
    }
    NotFound(haystack, needle, j);
    return None;
  }

  /** Short needle with two distinct halves: any mismatch on the left allows the longest shift. */
  method ShortDistinct(haystack: seq<Byte>, haystackLen: nat, needle: seq<Byte>, suffix: nat, ghost right: nat)
    returns (r: Option<nat>)
    requires NulFree(haystack) && |needle| <= haystackLen <= |haystack|
    requires IsCriticalFactorization(needle, suffix, right) && !Agree(needle, 0, needle, right, suffix)
    ensures IsLeftmost(haystack, needle, r)
  {
    DistinctHalves(needle, suffix, right);
    var period := (if suffix < |needle| - suffix then |needle| - suffix else suffix) + 1;
    var j := 0;
    var ok, known := Available(haystack, haystackLen, j, |needle|);
    while ok
      invariant |needle| <= known <= |haystack|
      invariant ok <==> j + |needle| <= |haystack|
      invariant ok ==> j + |needle| <= known
      invariant NoneBefore(haystack, needle, j)
      decreases |haystack| - j
    {
      var i := ScanRight(haystack, j, needle, suffix, 0, |needle|);
      if |needle| <= i {
        var found := ScanLeft(haystack, j, needle, suffix, 0);
        if found {
          return Some(j);
        }
        SkipPeriod(haystack, needle, suffix, right, j, period);
        j := j + period;
      } else {
        SkipMismatch(haystack, needle, suffix, right, j, i);
        j := j + i - suffix + 1;
      }
      ok, known := Available(haystack, known, j, |needle|);
    }
    NotFound(haystack, needle, j);
    return None;
  }

  /** two_way_short_needle returns the leftmost occurrence, or None exactly if there is none. */
  method TwoWayShortNeedle(haystack: seq<Byte>, haystackLen: nat, needle: seq<Byte>) returns (r: Option<nat>)
    requires NulFree(haystack) && 0 < |needle| <= haystackLen <= |haystack|
    ensures IsLeftmost(haystack, needle, r)
  {
    var suffix, period := CriticalFactorization(needle);
    var cmp := MemCmp(needle, 0, needle, period, suffix);
    if cmp == 0 {
      PeriodicNeedle(needle, suffix, period);
      r := ShortPeriodic(haystack, haystackLen, needle, suffix, period);
    } else {
      r := ShortDistinct(haystack, haystackLen, needle, suffix, period);
    }
  }

  /** Looks the last byte of the window up; a zero shift means that it matches. */
  method LastByteShift(haystack: seq<Byte>, j: nat, needle: seq<Byte>, table: seq<nat>) returns (shift: nat)
    requires |needle| > 0 && IsShiftTable(needle, table) && j + |needle| <= |haystack|
    requires NoneBefore(haystack, needle, j)
    ensures shift <= |needle| && NoneBefore(haystack, needle, j + shift)
    ensures shift == 0 <==> haystack[j + |needle| - 1] == needle[|needle| - 1]
  {
    var last := At(haystack, j + |needle| - 1);
    shift := table[last as int];
    assert LastSeen(needle, |needle|, last as int, shift);
    SkipBadByte(haystack, needle, table, j);
    if shift == 0 {
      SameByte(needle[|needle| - 1], last);
    }
  }

  /** Long needle, one period throughout: the table looks at the last byte of the window first. */
  method LongPeriodic(haystack: seq<Byte>, haystackLen: nat, needle: seq<Byte>, suffix: nat, period: nat,
                      table: seq<nat>)
    returns (r: Option<nat>)
    requires NulFree(haystack) && |needle| <= haystackLen <= |haystack|
    requires IsCriticalFactorization(needle, suffix, period) && period == Period(needle)
    requires IsShiftTable(needle, table)
    ensures IsLeftmost(haystack, needle, r)
  {
    var memory, j := 0, 0;
    var ok, known := Available(haystack, haystackLen, j, |needle|);
    while ok
      invariant |needle| <= known <= |haystack|
      invariant ok <==> j + |needle| <= |haystack|
      invariant ok ==> j + |needle| <= known
      invariant memory == 0 || memory == |needle| - period
      invariant ok ==> Agree(needle, 0, haystack, j, memory)
      invariant NoneBefore(haystack, needle, j)
      decreases |haystack| - j
    {
      var shift := LastByteShift(haystack, j, needle, table);
      if 0 < shift {
        if memory != 0 && shift < period {
          SkipMemory(haystack, needle, period, j);
          shift := |needle| - period;
        }
        memory := 0;
        j := j + shift;
      } else {
        var i := ScanRight(haystack, j, needle, suffix, memory, |needle| - 1);
        if |needle| - 1 <= i {
          var found := ScanLeft(haystack, j, needle, suffix, memory);
          if found {
            return Some(j);
          }
          SkipPeriod(haystack, needle, suffix, period, j, period);
          RememberedPrefix(haystack, needle, suffix, period, j);
          j := j + period;
          memory := |needle| - period;
        } else {
          SkipMismatch(haystack, needle, suffix, period, j, i);
          j := j + i - suffix + 1;
          memory := 0;
        }
      }
      ok, known := Available(haystack, known, j, |needle|);
    }
    NotFound(haystack, needle, j);
    return None;
  }

  /** Long needle with two distinct halves. */
  method LongDistinct(haystack: seq<Byte>, haystackLen: nat, needle: seq<Byte>, suffix: nat, ghost right: nat,
                      table: seq<nat>)
    returns (r: Option<nat>)
    requires NulFree(haystack) && |needle| <= haystackLen <= |haystack|
    requires IsCriticalFactorization(needle, suffix, right) && !Agree(needle, 0, needle, right, suffix)
    requires IsShiftTable(needle, table)
    ensures IsLeftmost(haystack, needle, r)
  {
    DistinctHalves(needle, suffix, right);
    var period := (if suffix < |needle| - suffix then |needle| - suffix else suffix) + 1;
    var j := 0;
    var ok, known := Available(haystack, haystackLen, j, |needle|);
    while ok
      invariant |needle| <= known <= |haystack|
      invariant ok <==> j + |needle| <= |haystack|
      invariant ok ==> j + |needle| <= known
      invariant NoneBefore(haystack, needle, j)
      decreases |haystack| - j
    {
      var shift := LastByteShift(haystack, j, needle, table);
      if 0 < shift {
        j := j + shift;
      } else {
        var i := ScanRight(haystack, j, needle, suffix, 0, |needle| - 1);
        if |needle| - 1 <= i {
          var found := ScanLeft(haystack, j, needle, suffix, 0);
          if found {
            return Some(j);
          }
          SkipPeriod(haystack, needle, suffix, right, j, period);
          j := j + period;
        } else {
          SkipMismatch(haystack, needle, suffix, right, j, i);
          j := j + i - suffix + 1;
        }
      }
      ok, known := Available(haystack, known, j, |needle|);
    }
    NotFound(haystack, needle, j);
    return None;
  }

  /** two_way_long_needle returns the leftmost occurrence, or None exactly if there is none. */
  method TwoWayLongNeedle(haystack: seq<Byte>, haystackLen: nat, needle: seq<Byte>) returns (r: Option<nat>)
    requires NulFree(haystack) && 0 < |needle| <= haystackLen <= |haystack|
    ensures IsLeftmost(haystack, needle, r)
  {
    var suffix, period := CriticalFactorization(needle);
    var table := ShiftTable(needle);
    var cmp := MemCmp(needle, 0, needle, period, suffix);
    if cmp == 0 {
      PeriodicNeedle(needle, suffix, period);
      r := LongPeriodic(haystack, haystackLen, needle, suffix, period, table[..]);
    } else {
      r := LongDistinct(haystack, haystackLen, needle, suffix, period, table[..]);
    }
  }
}
