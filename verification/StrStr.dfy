/** strstr: four length classes of needle, one promise, the leftmost occurrence. */
module StrStr {
  import opened Bytes
  import opened CStrings
  import opened Options
  import opened WordScan
  import TwoWay

  /** The byte k places before i, or 0 before the start: what the rolling hashes start from. */
  function Back(s: seq<Byte>, i: int, k: int): Byte
    requires 0 <= i <= |s| && 0 < k
  {
    if i - k >= 0 then s[i - k] else 0
  }

  function Hash2(a: Byte, b: Byte): bv32 {
    (a as bv32 << 16) | b as bv32
  }

  function Hash3(a: Byte, b: Byte, c: Byte): bv32 {
    (a as bv32 << 24) | (b as bv32 << 16) | (c as bv32 << 8)
  }

  function Hash4(a: Byte, b: Byte, c: Byte, d: Byte): bv32 {
    (a as bv32 << 24) | (b as bv32 << 16) | (c as bv32 << 8) | d as bv32
  }

  /** The hash of two bytes identifies them, and rolls by one shift. */
  lemma RollHash2(a: Byte, b: Byte, c: Byte, d: Byte)
    ensures Hash2(a, b) == Hash2(c, d) <==> a == c && b == d
    ensures (Hash2(a, b) << 16) | c as bv32 == Hash2(b, c)
  {
  }

  lemma RollHash3(a: Byte, b: Byte, c: Byte, d: Byte, e: Byte, f: Byte)
    ensures Hash3(a, b, c) == Hash3(d, e, f) <==> a == d && b == e && c == f
    ensures (Hash3(a, b, c) | d as bv32) << 8 == Hash3(b, c, d)
  {
  }

  lemma RollHash4(a: Byte, b: Byte, c: Byte, d: Byte, e: Byte, f: Byte, g: Byte, h: Byte)
    ensures Hash4(a, b, c, d) == Hash4(e, f, g, h) <==> a == e && b == f && c == g && d == h
    ensures (Hash4(a, b, c, d) << 8) | e as bv32 == Hash4(b, c, d, e)
  {
  }

  /** The bytes just before i are the needle. */
  ghost predicate EndsHere(s: seq<Byte>, x: seq<Byte>, i: int) {
    0 <= i <= |s| && forall k | 0 < k <= |x| :: Back(s, i, k) == x[|x| - k]
  }

  lemma EndsHereIsOccurrence(s: seq<Byte>, x: seq<Byte>, i: int)
    requires 0 <= i <= |s| && NulFree(x) && |x| > 0
    ensures EndsHere(s, x, i) <==> Occurs(s, x, i - |x|)
  {
    if EndsHere(s, x, i) {
      assert Back(s, i, |x|) == x[0];
      forall a, b | 0 <= a < |x| && b == i - |x| + a ensures x[a] == s[b] {
        assert Back(s, i, |x| - a) == x[a];
      }
    }
  }

  lemma StopAt(s: seq<Byte>, x: seq<Byte>, i: int)
    requires 0 <= i <= |s| && NulFree(x) && |x| > 0 && NoneBefore(s, x, i - |x|)
    ensures EndsHere(s, x, i) ==> |x| <= i && IsLeftmost(s, x, Some(i - |x|))
    ensures !EndsHere(s, x, i) ==> NoneBefore(s, x, i + 1 - |x|)
    ensures !EndsHere(s, x, i) && i == |s| ==> IsLeftmost(s, x, None)
  {
    EndsHereIsOccurrence(s, x, i);
  }

  ghost function Window2(s: seq<Byte>, i: int): bv32
    requires 0 <= i <= |s|
  {
    Hash2(Back(s, i, 2), Back(s, i, 1))
  }

  lemma RollWindow2(s: seq<Byte>, x: seq<Byte>, i: int)
    requires 0 <= i <= |s| && |x| == 2
    ensures Hash2(x[0], x[1]) == Window2(s, i) <==> EndsHere(s, x, i)
    ensures i < |s| ==> (Window2(s, i) << 16) | s[i] as bv32 == Window2(s, i + 1)
  {
    RollHash2(Back(s, i, 2), Back(s, i, 1), x[0], x[1]);
    RollHash2(Back(s, i, 2), Back(s, i, 1), At(s, i), 0);
  }

  /** The loop of strstr2: rolls the hash until it is the needle's or the haystack ends. */
  method RollTo2(hs: seq<Byte>, ne: seq<Byte>) returns (i: nat, found: bool)
    requires NulFree(hs) && NulFree(ne) && |ne| == 2
    ensures i <= |hs| && NoneBefore(hs, ne, i - 2)
    ensures (found <==> EndsHere(hs, ne, i)) && (found || i == |hs|)
  {
    var h1, h2 := Hash2(ne[0], ne[1]), 0;
    i := 0;
    RollWindow2(hs, ne, i);
    while h1 != h2 && At(hs, i) != 0
      invariant i <= |hs| && NoneBefore(hs, ne, i - 2)
      invariant h2 == Window2(hs, i) && (h1 == h2 <==> EndsHere(hs, ne, i))
      decreases |hs| - i
    {
      StopAt(hs, ne, i);
      RollWindow2(hs, ne, i);
      h2 := (h2 << 16) | At(hs, i) as bv32;
      i := i + 1;
      RollWindow2(hs, ne, i);
    }
    found := h1 == h2;
  }

  method StrStr2(hs: seq<Byte>, ne: seq<Byte>) returns (r: Option<nat>)
    requires NulFree(hs) && NulFree(ne) && |ne| == 2
    ensures IsLeftmost(hs, ne, r)
  {
    var i, found := RollTo2(hs, ne);
    StopAt(hs, ne, i);
    return if found then Some(i - 2) else None;
  }

  ghost function Window3(s: seq<Byte>, i: int): bv32
    requires 0 <= i <= |s|
  {
    Hash3(Back(s, i, 3), Back(s, i, 2), Back(s, i, 1))
  }

  lemma RollWindow3(s: seq<Byte>, x: seq<Byte>, i: int)
    requires 0 <= i <= |s| && |x| == 3
    ensures Hash3(x[0], x[1], x[2]) == Window3(s, i) <==> EndsHere(s, x, i)
    ensures i < |s| ==> (Window3(s, i) | At(s, i) as bv32) << 8 == Window3(s, i + 1)
  {
    RollHash3(Back(s, i, 3), Back(s, i, 2), Back(s, i, 1), x[0], x[1], x[2]);
    RollHash3(Back(s, i, 3), Back(s, i, 2), Back(s, i, 1), At(s, i), 0, 0);
  }

  /** One turn of the loop of strstr3: takes the next byte into the hash. */
  method Roll3(hs: seq<Byte>, ne: seq<Byte>, i: nat, h2: bv32) returns (h: bv32)
    requires |ne| == 3 && i < |hs| && h2 == Window3(hs, i)
    ensures h == Window3(hs, i + 1) && (Hash3(ne[0], ne[1], ne[2]) == h <==> EndsHere(hs, ne, i + 1))
  {
    RollWindow3(hs, ne, i);
    RollWindow3(hs, ne, i + 1);
    h := (h2 | At(hs, i) as bv32) << 8;
  }

  /** The loop of strstr3: rolls the hash until it is the needle's or the haystack ends. */
  method RollTo3(hs: seq<Byte>, ne: seq<Byte>) returns (i: nat, found: bool)
    requires NulFree(hs) && NulFree(ne) && |ne| == 3
    ensures i <= |hs| && NoneBefore(hs, ne, i - 3)
    ensures (found <==> EndsHere(hs, ne, i)) && (found || i == |hs|)
  {
    var h1, h2 := Hash3(ne[0], ne[1], ne[2]), 0;
    i := 0;
    RollWindow3(hs, ne, i);
    while h1 != h2 && At(hs, i) != 0
      invariant i <= |hs| && NoneBefore(hs, ne, i - 3)
      invariant h2 == Window3(hs, i) && (h1 == h2 <==> EndsHere(hs, ne, i))
      decreases |hs| - i
    {
      StopAt(hs, ne, i);
      h2 := Roll3(hs, ne, i, h2);
      i := i + 1;
    }
    found := h1 == h2;
  }

  method StrStr3(hs: seq<Byte>, ne: seq<Byte>) returns (r: Option<nat>)
    requires NulFree(hs) && NulFree(ne) && |ne| == 3
    ensures IsLeftmost(hs, ne, r)
  {
    var i, found := RollTo3(hs, ne);
    StopAt(hs, ne, i);
    return if found then Some(i - 3) else None;
  }

  ghost function Window4(s: seq<Byte>, i: int): bv32
    requires 0 <= i <= |s|
  {
    Hash4(Back(s, i, 4), Back(s, i, 3), Back(s, i, 2), Back(s, i, 1))
  }

  lemma RollWindow4(s: seq<Byte>, x: seq<Byte>, i: int)
    requires 0 <= i <= |s| && |x| == 4
    ensures Hash4(x[0], x[1], x[2], x[3]) == Window4(s, i) <==> EndsHere(s, x, i)
    ensures i < |s| ==> (Window4(s, i) << 8) | s[i] as bv32 == Window4(s, i + 1)
  {
    RollHash4(Back(s, i, 4), Back(s, i, 3), Back(s, i, 2), Back(s, i, 1), x[0], x[1], x[2], x[3]);
    RollHash4(Back(s, i, 4), Back(s, i, 3), Back(s, i, 2), Back(s, i, 1), At(s, i), 0, 0, 0);
  }

  /** The loop of strstr4: rolls the hash until it is the needle's or the haystack ends. */
  method RollTo4(hs: seq<Byte>, ne: seq<Byte>) returns (i: nat, found: bool)
    requires NulFree(hs) && NulFree(ne) && |ne| == 4
    ensures i <= |hs| && NoneBefore(hs, ne, i - 4)
    ensures (found <==> EndsHere(hs, ne, i)) && (found || i == |hs|)
  {
    var h1, h2 := Hash4(ne[0], ne[1], ne[2], ne[3]), 0;
    i := 0;
    RollWindow4(hs, ne, i);
    while At(hs, i) != 0 && h1 != h2
      invariant i <= |hs| && NoneBefore(hs, ne, i - 4)
      invariant h2 == Window4(hs, i) && (h1 == h2 <==> EndsHere(hs, ne, i))
      decreases |hs| - i
    {
      StopAt(hs, ne, i);
      RollWindow4(hs, ne, i);
      h2 := (h2 << 8) | At(hs, i) as bv32;
      i := i + 1;
      RollWindow4(hs, ne, i);
    }
    found := h1 == h2;
  }

  method StrStr4(hs: seq<Byte>, ne: seq<Byte>) returns (r: Option<nat>)
    requires NulFree(hs) && NulFree(ne) && |ne| == 4
    ensures IsLeftmost(hs, ne, r)
  {
    var i, found := RollTo4(hs, ne);
    StopAt(hs, ne, i);
    return if found then Some(i - 4) else None;
  }

  /** The slot of the 64-entry shift table a byte is hashed to. */
  function Slot(b: Byte): int {
    b as int % 64
  }

  /** No byte of the needle in the last d - 1 places among the first i hashes to slot h. */
  ghost predicate SlotShift(x: seq<Byte>, i: int, h: int, d: int) {
    && 1 <= d <= |x| + 1
    && forall k | |x| - d < k < i && 0 <= k < |x| :: Slot(x[k]) != h
  }

  ghost predicate IsSlotTable(x: seq<Byte>, t: seq<int>) {
    |t| == 64 && forall h | 0 <= h < 64 :: SlotShift(x, |x|, h, t[h])
  }

  /** The table holds bytes: for needles shorter than 255 every shift fits in one. */
  method SlotTable(needle: seq<Byte>) returns (shift: array<int>)
    requires 0 < |needle| < 255
    ensures IsSlotTable(needle, shift[..]) && forall h | 0 <= h < 64 :: 0 <= shift[h] < 256
  {
    shift := new int[64];
    var i := 0;
    while i < 64
      invariant i <= 64 && forall k | 0 <= k < i :: shift[k] == |needle| + 1
    {
      shift[i] := |needle| + 1;
      i := i + 1;
    }
    i := 0;
    while i < |needle|
      invariant i <= |needle|
      invariant forall h | 0 <= h < 64 :: SlotShift(needle, i, h, shift[h])
    {
      shift[Slot(needle[i])] := |needle| - i;
      i := i + 1;
    }
  }

  /** The byte after the window at w allows a shift by its table entry. */
  lemma SkipBySlot(s: seq<Byte>, x: seq<Byte>, t: seq<int>, w: int)
    requires |x| > 0 && IsSlotTable(x, t) && -1 <= w && w + |x| <= |s|
    requires NoneBefore(s, x, w + 1)
    ensures 1 <= t[Slot(At(s, w + |x|))] <= |x| + 1
    ensures NoneBefore(s, x, w + t[Slot(At(s, w + |x|))])
  {
    var h := Slot(At(s, w + |x|));
    assert SlotShift(x, |x|, h, t[h]);
    forall j | w < j < w + t[h] ensures !Occurs(s, x, j) {
      if w + |x| < |s| {
        var k, l := w + |x| - j, w + |x|;
        assert Slot(x[k]) != h;
        assert x[k] != s[l];
      }
    }
  }

  /** Sunday's Quick-Search over the hashed table. It reads no byte past the NUL, and the
      2048-byte extensions of the known length never end the search early. */
  method QuickSearch(haystack: seq<Byte>, known: nat, needle: seq<Byte>) returns (r: Option<nat>)
    requires NulFree(haystack) && 0 < |needle| < 255 && |needle| <= known <= |haystack|
    ensures IsLeftmost(haystack, needle, r)
  {
    var table := SlotTable(needle);
    var shift := table[..];
    var n := |needle|;
    var hs, end := 0, known - n;
    while true
      invariant 0 <= hs <= end && end + n <= |haystack|
      invariant NoneBefore(haystack, needle, hs)
      decreases |haystack| - end
    {
      hs := hs - 1;
      SkipBySlot(haystack, needle, shift, hs);
      var tmp := shift[Slot(At(haystack, hs + n))];
      hs := hs + tmp;
      while hs <= end
        invariant 0 <= hs <= end + n + 1 && NoneBefore(haystack, needle, hs)
        decreases end - hs
      {
        tmp := shift[Slot(At(haystack, hs + n))];
        var cmp := MemCmp(haystack, hs, needle, 0, n);
        assert cmp == 0 <==> Occurs(haystack, needle, hs);
        if cmp == 0 {
          return Some(hs);
        }
        SkipBySlot(haystack, needle, shift, hs);
        hs := hs + tmp;
      }
      if At(haystack, end + n) == 0 {
        return None;
      }
      var more := StrNLen(haystack, end + n, 2048);
      end := end + more;
      if hs > end {
        return None;
      }
    }
  }

  /** The string a pointer leads to, up to but not including its NUL. */
  function Contents(mem: seq<Byte>, p: nat, ghost nul: nat): (s: seq<Byte>)
    requires StringEnds(mem, p, nul)
    ensures s == mem[p..nul] && NulFree(s)
    decreases nul - p
  {
    if mem[p] == 0 then [] else [mem[p]] + Contents(mem, p + 1, nul)
  }

  /** strstr returns the offset of the leftmost occurrence, or None exactly if there is none,
      for every haystack and every needle. */
  method StrStr(mem: seq<Byte>, haystack: nat, needle: nat, ghost hsNul: nat, ghost neNul: nat)
    returns (r: Option<nat>)
    requires StringEnds(mem, haystack, hsNul) && StringEnds(mem, needle, neNul)
    ensures IsLeftmost(mem[haystack..hsNul], mem[needle..neNul], r)
  {
    var hs := Contents(mem, haystack, hsNul);
    var ne := Contents(mem, needle, neNul);
    if mem[needle] == 0 {
      return Some(0);
    }
    if mem[needle + 1] == 0 {
      var p := StrChr(mem, haystack, mem[needle], hsNul);
      SingleByte(mem, haystack, hsNul, ne, p);
      return if p.None? then None else Some(p.value - haystack);
    }
    if mem[needle + 2] == 0 {
      r := StrStr2(hs, ne);
      return;
    }
    if mem[needle + 3] == 0 {
      r := StrStr3(hs, ne);
      return;
    }
    if mem[needle + 4] == 0 {
      r := StrStr4(hs, ne);
      return;
    }
    var neLen := StrLen(mem, needle, neNul);
    var hsLen := StrNLen(hs, 0, WithBit(neLen, 512));
    if hsLen < neLen {
      return None;
    }
    if neLen < 255 {
      r := QuickSearch(hs, hsLen, ne);
    } else {
      r := TwoWay.TwoWayLongNeedle(hs, hsLen, ne);
    }
  }

  lemma SingleByte(mem: seq<Byte>, p: nat, nul: nat, x: seq<Byte>, r: Option<nat>)
    requires StringEnds(mem, p, nul) && |x| == 1 && x[0] != 0
    requires r.Some? ==> p <= r.value <= nul && mem[r.value] == x[0] && !HasByte(mem, p, r.value, x[0])
    requires r.None? ==> !HasByte(mem, p, nul + 1, x[0])
    ensures IsLeftmost(mem[p..nul], x, if r.None? then None else Some(r.value - p))
  {
    var s := mem[p..nul];
    forall j | 0 <= j < |s| ensures Occurs(s, x, j) <==> mem[p + j] == x[0] {
      assert s[j] == mem[p + j];
    }
  }
}
