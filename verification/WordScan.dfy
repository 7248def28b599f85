/** The word-at-a-time string functions equal their byte-at-a-time definitions. Memory is a
    sequence of bytes indexed by address. */
module WordScan {
  import opened Bytes
  import opened Options
  import opened Periods

  /** HASZERO and DETECTNULL. */
  function HasZero(x: bv64): bv64 {
    (x - 0x0101010101010101) & !x & 0x8080808080808080
  }

  /** The little-endian word made of eight bytes. */
  function Join(b0: Byte, b1: Byte, b2: Byte, b3: Byte, b4: Byte, b5: Byte, b6: Byte, b7: Byte): bv64 {
    b0 as bv64 | (b1 as bv64 << 8) | (b2 as bv64 << 16) | (b3 as bv64 << 24)
    | (b4 as bv64 << 32) | (b5 as bv64 << 40) | (b6 as bv64 << 48) | (b7 as bv64 << 56)
  }

  /** x is a word whose bytes, lowest first, are the given ones. */
  ghost predicate Spells(x: bv64, b0: Byte, b1: Byte, b2: Byte, b3: Byte, b4: Byte, b5: Byte, b6: Byte, b7: Byte) {
    && x & 0xff == b0 as bv64 && (x >> 8) & 0xff == b1 as bv64
    && (x >> 16) & 0xff == b2 as bv64 && (x >> 24) & 0xff == b3 as bv64
    && (x >> 32) & 0xff == b4 as bv64 && (x >> 40) & 0xff == b5 as bv64
    && (x >> 48) & 0xff == b6 as bv64 && (x >> 56) & 0xff == b7 as bv64
  }

  /** x is the word at address a. */
  ghost predicate IsWordAt(x: bv64, mem: seq<Byte>, a: int) {
    && 0 <= a && a + 8 <= |mem|
    && Spells(x, mem[a], mem[a + 1], mem[a + 2], mem[a + 3], mem[a + 4], mem[a + 5], mem[a + 6], mem[a + 7])
  }

  lemma JoinSpells(b0: Byte, b1: Byte, b2: Byte, b3: Byte, b4: Byte, b5: Byte, b6: Byte, b7: Byte)
    ensures Spells(Join(b0, b1, b2, b3, b4, b5, b6, b7), b0, b1, b2, b3, b4, b5, b6, b7)
  {
  }

  method Load(mem: seq<Byte>, a: nat) returns (x: bv64)
    requires a + 8 <= |mem|
    ensures IsWordAt(x, mem, a)
  {
    x := Join(mem[a], mem[a + 1], mem[a + 2], mem[a + 3], mem[a + 4], mem[a + 5], mem[a + 6], mem[a + 7]);
    JoinSpells(mem[a], mem[a + 1], mem[a + 2], mem[a + 3], mem[a + 4], mem[a + 5], mem[a + 6], mem[a + 7]);
  }

  /** ONES * c: the byte c in all eight places. */
  method RepeatByte(c: Byte) returns (k: bv64)
    ensures Spells(k, c, c, c, c, c, c, c, c)
  {
    k := 0x0101010101010101 * (c as bv64);
    assert k == Join(c, c, c, c, c, c, c, c);
    JoinSpells(c, c, c, c, c, c, c, c);
  }

  /** HASZERO of an exclusive or finds a byte on which the words agree. */
  lemma HasZeroXor(x: bv64, k: bv64)
    ensures HasZero(x ^ k) != 0 <==>
      || x & 0xff == k & 0xff || (x >> 8) & 0xff == (k >> 8) & 0xff
      || (x >> 16) & 0xff == (k >> 16) & 0xff || (x >> 24) & 0xff == (k >> 24) & 0xff
      || (x >> 32) & 0xff == (k >> 32) & 0xff || (x >> 40) & 0xff == (k >> 40) & 0xff
      || (x >> 48) & 0xff == (k >> 48) & 0xff || (x >> 56) & 0xff == (k >> 56) & 0xff
  {
  }

  lemma WidenInjective(a: Byte, b: Byte)
    ensures a as bv64 == b as bv64 <==> a == b
  {
  }

  ghost predicate HasByte(mem: seq<Byte>, lo: int, hi: int, c: Byte) {
    exists k :: 0 <= lo <= k < hi && k < |mem| && mem[k] == c
  }

  lemma EightBytes(mem: seq<Byte>, a: nat, c: Byte)
    requires a + 8 <= |mem|
    ensures HasByte(mem, a, a + 8, c) <==>
            || mem[a] == c || mem[a + 1] == c || mem[a + 2] == c || mem[a + 3] == c
            || mem[a + 4] == c || mem[a + 5] == c || mem[a + 6] == c || mem[a + 7] == c
  {
  }

  /** Xored with a repeated byte c, the zero-byte test is non-zero exactly if the word holds c. */
  lemma MatchByteTest(mem: seq<Byte>, a: nat, c: Byte, x: bv64, k: bv64)
    requires IsWordAt(x, mem, a) && Spells(k, c, c, c, c, c, c, c, c)
    ensures HasZero(x ^ k) != 0 <==> HasByte(mem, a, a + 8, c)
  {
    HasZeroXor(x, k);
    WidenInjective(mem[a], c); WidenInjective(mem[a + 1], c); WidenInjective(mem[a + 2], c);
    WidenInjective(mem[a + 3], c); WidenInjective(mem[a + 4], c); WidenInjective(mem[a + 5], c);
    WidenInjective(mem[a + 6], c); WidenInjective(mem[a + 7], c);
    EightBytes(mem, a, c);
  }

  /** The zero-byte test is non-zero exactly if the word holds a zero byte. */
  lemma ZeroByteTest(mem: seq<Byte>, a: nat, x: bv64)
    requires IsWordAt(x, mem, a)
    ensures HasZero(x) != 0 <==> HasByte(mem, a, a + 8, 0)
  {
    assert x ^ 0 == x;
    MatchByteTest(mem, a, 0, x, 0);
  }

  /** Equal words hold equal bytes. */
  lemma SameWordSameBytes(m: seq<Byte>, a: nat, n: seq<Byte>, b: nat, x: bv64)
    requires IsWordAt(x, m, a) && IsWordAt(x, n, b)
    ensures Agree(m, a, n, b, 8)
  {
    WidenInjective(m[a], n[b]); WidenInjective(m[a + 1], n[b + 1]); WidenInjective(m[a + 2], n[b + 2]);
    WidenInjective(m[a + 3], n[b + 3]); WidenInjective(m[a + 4], n[b + 4]); WidenInjective(m[a + 5], n[b + 5]);
    WidenInjective(m[a + 6], n[b + 6]); WidenInjective(m[a + 7], n[b + 7]);
  }

  /** HASZERO(*w): tests the word at w for a NUL. */
  method WordHasNul(mem: seq<Byte>, w: nat) returns (hit: bool)
    requires w + 8 <= |mem|
    ensures hit <==> HasByte(mem, w, w + 8, 0)
  {
    var x := Load(mem, w);
    hit := HasZero(x) != 0;
    ZeroByteTest(mem, w, x);
  }

  /** HASZERO(*w ^ ONES * c): tests the word at w for the byte c. */
  method WordHasByte(mem: seq<Byte>, w: nat, c: Byte) returns (hit: bool)
    requires w + 8 <= |mem|
    ensures hit <==> HasByte(mem, w, w + 8, c)
  {
    var k := RepeatByte(c);
    var x := Load(mem, w);
    hit := HasZero(x ^ k) != 0;
    MatchByteTest(mem, w, c, x, k);
  }

  /** A string starts at p: its NUL is at nul, and the word holding the NUL may be loaded. */
  ghost predicate StringEnds(mem: seq<Byte>, p: nat, nul: nat) {
    && p <= nul && nul + 8 <= |mem| && mem[nul] == 0
    && forall k | p <= k < nul :: mem[k] != 0
  }

  /** strlen: the distance from str to its NUL. */
  method StrLen(mem: seq<Byte>, str: nat, ghost nul: nat) returns (r: nat)
    requires StringEnds(mem, str, nul)
    ensures r == nul - str
  {
    var p := str;
    while p % 8 != 0
      invariant str <= p <= nul
      decreases nul - p
    {
      if mem[p] == 0 {
        return p - str;
      }
      p := p + 1;
    }
    var word := p;
    var hit := WordHasNul(mem, word);
    while !hit
      invariant str <= word <= nul && (hit <==> HasByte(mem, word, word + 8, 0))
      decreases nul - word
    {
      word := word + 8;
      hit := WordHasNul(mem, word);
    }
    p := word;
    while mem[p] != 0
      invariant str <= p <= nul
      decreases nul - p
    {
      p := p + 1;
    }
    return p - str;
  }

  /** memchr: the first address of c among the n bytes at src. If c comes first, not all of them
      need be readable, only the word that holds it. */
  method MemChr(mem: seq<Byte>, src: nat, c: Byte, n: nat) returns (r: Option<nat>)
    requires src + n <= |mem| || HasByte(mem, src, |mem| - 7, c)
    ensures r.Some? ==> src <= r.value < src + n && r.value < |mem| && mem[r.value] == c && !HasByte(mem, src, r.value, c)
    ensures r.None? ==> !HasByte(mem, src, src + n, c)
  {
    var s: nat, m: nat := src, n;
    while s % 8 != 0 && m != 0 && mem[s] != c
      invariant src <= s && s + m == src + n && !HasByte(mem, src, s, c)
      decreases m
    {
      s, m := s + 1, m - 1;
    }
    if m != 0 && mem[s] != c {
      var w := s;
      while m >= 8
        invariant src <= w && w + m == src + n && !HasByte(mem, src, w, c)
        decreases m
      {
        var hit := WordHasByte(mem, w, c);
        if hit {
          break;
        }
        w, m := w + 8, m - 8;
      }
      s := w;
    }
    while m != 0 && mem[s] != c
      invariant src <= s && s + m == src + n && !HasByte(mem, src, s, c)
      decreases m
    {
      s, m := s + 1, m - 1;
    }
    return if m != 0 then Some(s) else None;
  }

  /** __strchrnul: the first c in the string, or its NUL. The word loop starts at a multiple
      of seven, because the C code reduces the address by ALIGN. */
  method StrChrNul(mem: seq<Byte>, str: nat, c: Byte, ghost nul: nat) returns (r: nat)
    requires StringEnds(mem, str, nul)
    ensures str <= r <= nul && !HasByte(mem, str, r, c) && (r < nul ==> mem[r] == c)
  {
    if c == 0 {
      var len := StrLen(mem, str, nul);
      return str + len;
    }
    var s := str;
    while s % 7 != 0
      invariant str <= s <= nul && !HasByte(mem, str, s, c)
      decreases nul - s
    {
      if mem[s] == 0 || mem[s] == c {
        return s;
      }
      s := s + 1;
    }
    var w := s;
    while true
      invariant str <= w <= nul && !HasByte(mem, str, w, c)
      decreases nul - w
    {
      var hitNul := WordHasNul(mem, w);
      var hit := WordHasByte(mem, w, c);
      if hitNul || hit {
        break;
      }
      w := w + 8;
    }
    s := w;
    while mem[s] != 0 && mem[s] != c
      invariant str <= s <= nul && !HasByte(mem, str, s, c)
      decreases nul - s
    {
      s := s + 1;
    }
    return s;
  }

  /** strchr: the first c in the string including its NUL, or None. */
  method StrChr(mem: seq<Byte>, str: nat, c: Byte, ghost nul: nat) returns (r: Option<nat>)
    requires StringEnds(mem, str, nul)
    ensures r.Some? ==> str <= r.value <= nul && mem[r.value] == c && !HasByte(mem, str, r.value, c)
    ensures r.None? ==> !HasByte(mem, str, nul + 1, c)
  {
    var p := StrChrNul(mem, str, c, nul);
    return if mem[p] == c then Some(p) else None;
  }

  /** n bytes may be read at p, or a string ends there before n and its last word may be loaded. */
  ghost predicate Readable(mem: seq<Byte>, p: nat, n: nat) {
    p + n <= |mem| || exists nul :: StringEnds(mem, p, nul)
  }

  /** The first k bytes of the two strings are equal and hold no NUL. */
  ghost predicate SameSoFar(mem: seq<Byte>, s1: nat, s2: nat, k: nat) {
    Agree(mem, s1, mem, s2, k) && !HasByte(mem, s1, s1 + k, 0)
  }

  /** r is what comparing byte by byte gives: the difference at the first place where the
      strings differ or end, or 0 if that is not among the first n. */
  ghost predicate IsByteComparison(mem: seq<Byte>, s1: nat, s2: nat, n: nat, r: int) {
    exists k: nat :: k <= n && SameSoFar(mem, s1, s2, k) &&
      if k == n then r == 0
      else s1 + k < |mem| && s2 + k < |mem| && r == mem[s1 + k] as int - mem[s2 + k] as int
           && (mem[s1 + k] != mem[s2 + k] || mem[s1 + k] == 0)
  }

  lemma NoNulSoFar(mem: seq<Byte>, s1: nat, s2: nat, k: nat, i: nat)
    requires SameSoFar(mem, s1, s2, k)
    ensures s2 <= i < s2 + k ==> mem[i] != 0
  {
    if s2 <= i < s2 + k { assert mem[i] == mem[i - s2 + s1]; }
  }

  lemma MoreReadable(mem: seq<Byte>, s1: nat, s2: nat, n: nat, k: nat)
    requires Readable(mem, s2, n) && SameSoFar(mem, s1, s2, k) && k <= n
    ensures k < n ==> s2 + k < |mem|
    ensures k + 8 <= n ==> s2 + k + 8 <= |mem|
  {
    if s2 + n > |mem| {
      var nul: nat :| StringEnds(mem, s2, nul);
      NoNulSoFar(mem, s1, s2, k, nul);
    }
  }

  lemma WordKeepsSame(mem: seq<Byte>, s1: nat, s2: nat, k: nat)
    requires SameSoFar(mem, s1, s2, k) && s1 + k + 8 <= |mem| && s2 + k + 8 <= |mem|
    requires Agree(mem, s1 + k, mem, s2 + k, 8) && !HasByte(mem, s1 + k, s1 + k + 8, 0)
    ensures SameSoFar(mem, s1, s2, k + 8)
  {
  }

  /** The words agree and either are the last ones or hold a NUL: the strings compare equal. */
  lemma WordEnds(mem: seq<Byte>, s1: nat, s2: nat, n: nat, k: nat)
    requires SameSoFar(mem, s1, s2, k) && s1 + k + 8 <= |mem| && s2 + k + 8 <= |mem| && k + 8 <= n
    requires Agree(mem, s1 + k, mem, s2 + k, 8)
    requires k + 8 == n || HasByte(mem, s1 + k, s1 + k + 8, 0)
    ensures IsByteComparison(mem, s1, s2, n, 0)
  {
    if HasByte(mem, s1 + k, s1 + k + 8, 0) {
      var i := FirstByte(mem, s1 + k, s1 + k + 8, 0);
      assert SameSoFar(mem, s1, s2, i - s1);
      assert mem[i] == mem[i - s1 + s2];
    } else {
      WordKeepsSame(mem, s1, s2, k);
    }
  }

  lemma FirstByte(mem: seq<Byte>, lo: nat, hi: nat, c: Byte) returns (i: nat)
    requires HasByte(mem, lo, hi, c)
    ensures lo <= i < hi && i < |mem| && mem[i] == c && !HasByte(mem, lo, i, c)
  {
    i := lo;
    while mem[i] != c
      invariant lo <= i < hi && i < |mem| && !HasByte(mem, lo, i, c)
      decreases hi - i
    {
      i := i + 1;
    }
  }

  method WordsEqual(mem: seq<Byte>, a: nat, b: nat) returns (same: bool)
    requires a + 8 <= |mem| && b + 8 <= |mem|
    ensures same ==> Agree(mem, a, mem, b, 8)
  {
    var x := Load(mem, a);
    var y := Load(mem, b);
    same := x == y;
    if same {
      SameWordSameBytes(mem, a, mem, b, x);
    }
  }

  /** The word loop of strncmp: stops at k, or knows already that the strings compare equal. */
  method CompareWords(mem: seq<Byte>, s1: nat, s2: nat, n: nat) returns (equal: bool, k: nat)
    requires 0 < n && Readable(mem, s1, n) && Readable(mem, s2, n) && s1 < |mem| && s2 < |mem|
    ensures if equal then IsByteComparison(mem, s1, s2, n, 0) else k < n && SameSoFar(mem, s1, s2, k)
  {
    equal, k := false, 0;
    while n - k >= 8
      invariant k < n && SameSoFar(mem, s1, s2, k)
      decreases n - k
    {
      MoreReadable(mem, s1, s1, n, k);
      MoreReadable(mem, s1, s2, n, k);
      var same := WordsEqual(mem, s1 + k, s2 + k);
      if !same {
        break;
      }
      var nul := WordHasNul(mem, s1 + k);
      if n - k - 8 == 0 || nul {
        WordEnds(mem, s1, s2, n, k);
        return true, k;
      }
      WordKeepsSame(mem, s1, s2, k);
      k := k + 8;
    }
  }

  /** strncmp, a word at a time when both strings are aligned, equals the comparison by bytes. */
  method StrNCmp(mem: seq<Byte>, s1: nat, s2: nat, n: nat) returns (r: int)
    requires Readable(mem, s1, n) && Readable(mem, s2, n) && s1 < |mem| && s2 < |mem|
    ensures IsByteComparison(mem, s1, s2, n, r)
  {
    if n == 0 {
      assert SameSoFar(mem, s1, s2, 0);
      return 0;
    }
    var k := 0;
    if s1 % 8 == 0 && s2 % 8 == 0 {
      var equal;
      equal, k := CompareWords(mem, s1, s2, n);
      if equal {
        return 0;
      }
    }
    MoreReadable(mem, s1, s1, n, k);
    MoreReadable(mem, s1, s2, n, k);
    while mem[s1 + k] == mem[s2 + k]
      invariant k < n && SameSoFar(mem, s1, s2, k) && s1 + k < |mem| && s2 + k < |mem|
      decreases n - k
    {
      if n - k - 1 == 0 || mem[s1 + k] == 0 {
        assert mem[s1 + k] != 0 ==> SameSoFar(mem, s1, s2, k + 1);
        return 0;
      }
      k := k + 1;
      MoreReadable(mem, s1, s1, n, k);
      MoreReadable(mem, s1, s2, n, k);
    }
    return mem[s1 + k] as int - mem[s2 + k] as int;
  }

  /** What strncpy leaves at dst + k: the source byte, or padding once the source has ended. */
  ghost function Copied(before: seq<Byte>, src: nat, k: nat): Byte {
    if src + k < |before| && !HasByte(before, src, src + k, 0) then before[src + k] else 0
  }

  method Store(mem: array<Byte>, a: nat, x: bv64)
    requires a + 8 <= mem.Length
    modifies mem
    ensures IsWordAt(x, mem[..], a)
    ensures forall k | 0 <= k < mem.Length && !(a <= k < a + 8) :: mem[k] == old(mem[k])
  {
    mem[a], mem[a + 1] := (x & 0xff) as Byte, ((x >> 8) & 0xff) as Byte;
    mem[a + 2], mem[a + 3] := ((x >> 16) & 0xff) as Byte, ((x >> 24) & 0xff) as Byte;
    mem[a + 4], mem[a + 5] := ((x >> 32) & 0xff) as Byte, ((x >> 40) & 0xff) as Byte;
    mem[a + 6], mem[a + 7] := ((x >> 48) & 0xff) as Byte, ((x >> 56) & 0xff) as Byte;
  }

  /** No byte that is copied, up to the NUL that ends the source, lies among the count bytes at dst. */
  ghost predicate Apart(before: seq<Byte>, dst: nat, src: nat, count: nat) {
    forall i | src <= i < src + count && !HasByte(before, src, i, 0) :: !(dst <= i < dst + count)
  }

  /** What strncpy keeps: k bytes are copied, none of them a NUL, and nothing else has changed. */
  ghost predicate Copying(before: seq<Byte>, mem: seq<Byte>, dst: nat, src: nat, count: nat, k: nat) {
    && |mem| == |before| && k <= count && dst + count <= |mem| && src + k <= |mem|
    && Apart(before, dst, src, count)
    && Agree(before, src, mem, dst, k)
    && !HasByte(before, src, src + k, 0)
    && Unchanged(before, mem, dst, dst + k)
  }

  ghost predicate Unchanged(before: seq<Byte>, mem: seq<Byte>, lo: int, hi: int) {
    |mem| == |before| && forall i | 0 <= i < |mem| && !(lo <= i < hi) :: mem[i] == before[i]
  }

  lemma SourceReadable(before: seq<Byte>, mem: seq<Byte>, dst: nat, src: nat, count: nat, k: nat)
    requires Readable(before, src, count) && Copying(before, mem, dst, src, count, k)
    ensures k < count ==> src + k < |before| && mem[src + k] == before[src + k]
    ensures k + 8 <= count ==> src + k + 8 <= |before|
  {
    if src + count > |before| {
      var nul: nat :| StringEnds(before, src, nul);
    }
  }

  /** Writing to dst changes no byte of the source before its NUL, nor the NUL. */
  lemma NulStays(before: seq<Byte>, mem: seq<Byte>, dst: nat, src: nat, count: nat, k: nat, n: nat)
    requires Copying(before, mem, dst, src, count, k) && k + n <= count && src + k + n <= |before|
    requires HasByte(before, src + k, src + k + n, 0)
    ensures HasByte(mem, src + k, src + k + n, 0)
  {
    var i := FirstByte(before, src + k, src + k + n, 0);
    assert !HasByte(before, src, i, 0);
    assert mem[i] == before[i];
  }

  /** A word of the source that holds no NUL now is the original one. */
  lemma SourceWord(before: seq<Byte>, mem: seq<Byte>, dst: nat, src: nat, count: nat, k: nat)
    requires Copying(before, mem, dst, src, count, k) && k + 8 <= count && src + k + 8 <= |before|
    requires !HasByte(mem, src + k, src + k + 8, 0)
    ensures !HasByte(before, src + k, src + k + 8, 0) && Agree(before, src + k, mem, src + k, 8)
  {
    if HasByte(before, src + k, src + k + 8, 0) {
      NulStays(before, mem, dst, src, count, k, 8);
    }
    forall i | src + k <= i < src + k + 8 ensures mem[i] == before[i] {
      assert !HasByte(before, src, i, 0);
    }
  }

  lemma CopyStep(before: seq<Byte>, mem: seq<Byte>, mem': seq<Byte>, dst: nat, src: nat, count: nat, k: nat, n: nat)
    requires Copying(before, mem, dst, src, count, k) && k + n <= count && src + k + n <= |before|
    requires Agree(before, src + k, mem', dst + k, n) && Unchanged(mem, mem', dst + k, dst + k + n)
    requires !HasByte(before, src + k, src + k + n, 0)
    ensures Copying(before, mem', dst, src, count, k + n)
  {
    forall a, b | src <= a < src + k + n && b == a - src + dst ensures before[a] == mem'[b] {
      if a < src + k { assert mem'[b] == mem[b]; }
    }
  }

  method CopyWord(mem: array<Byte>, dst: nat, src: nat)
    requires dst + 8 <= mem.Length && src + 8 <= mem.Length
    modifies mem
    ensures Agree(old(mem[..]), src, mem[..], dst, 8) && Unchanged(old(mem[..]), mem[..], dst, dst + 8)
  {
    ghost var now := mem[..];
    var x := Load(mem[..], src);
    Store(mem, dst, x);
    SameWordSameBytes(now, src, mem[..], dst, x);
  }

  /** The word loop of strncpy. */
  method CopyWords(mem: array<Byte>, dst: nat, src: nat, count: nat) returns (k: nat)
    requires Copying(mem[..], mem[..], dst, src, count, 0) && Readable(mem[..], src, count)
    modifies mem
    ensures Copying(old(mem[..]), mem[..], dst, src, count, k)
  {
    k := 0;
    ghost var before := mem[..];
    while count - k >= 8
      invariant Copying(before, mem[..], dst, src, count, k) == true
      invariant k <= count
      decreases count - k
    {
      ghost var now := mem[..];
      SourceReadable(before, now, dst, src, count, k);
      var nul := WordHasNul(mem[..], src + k);
      if nul {
        break;
      }
      SourceWord(before, now, dst, src, count, k);
      CopyWord(mem, dst + k, src + k);
      AgreeTransitive(before, src + k, now, src + k, mem[..], dst + k, 8);
      CopyStep(before, now, mem[..], dst, src, count, k, 8);
      k := k + 8;
    }
  }

  /** After the source has ended at e: the rest of the k bytes written are NULs. */
  ghost predicate Padding(before: seq<Byte>, mem: seq<Byte>, dst: nat, src: nat, count: nat, k: nat) {
    && |mem| == |before| && k <= count && dst + count <= |mem|
    && (forall i, j | 0 <= i < k && j == dst + i :: mem[j] == Copied(before, src, i))
    && (k < count ==> HasByte(before, src, src + k, 0))
    && Unchanged(before, mem, dst, dst + count)
  }

  lemma CopyEnds(before: seq<Byte>, mem: seq<Byte>, mem': seq<Byte>, dst: nat, src: nat, count: nat, k: nat)
    requires Copying(before, mem, dst, src, count, k) && k < count && src + k < |before| && before[src + k] == 0
    requires mem' == mem[dst + k := 0]
    ensures Padding(before, mem', dst, src, count, k + 1)
  {
  }

  lemma PadStep(before: seq<Byte>, mem: seq<Byte>, dst: nat, src: nat, count: nat, k: nat)
    requires Padding(before, mem, dst, src, count, k) && k < count
    ensures Padding(before, mem[dst + k := 0], dst, src, count, k + 1)
  {
  }

  lemma CopyFills(before: seq<Byte>, mem: seq<Byte>, dst: nat, src: nat, count: nat)
    requires Copying(before, mem, dst, src, count, count)
    ensures Padding(before, mem, dst, src, count, count)
  {
  }

  /** The byte loop of strncpy: copies on from k until a NUL has been copied or count is reached. */
  method CopyBytes(mem: array<Byte>, ghost before: seq<Byte>, dst: nat, src: nat, count: nat, from: nat)
    returns (k: nat)
    requires Copying(before, mem[..], dst, src, count, from) && Readable(before, src, count)
    modifies mem
    ensures Padding(before, mem[..], dst, src, count, k)
  {
    k := from;
    while k < count
      invariant k <= count && Copying(before, mem[..], dst, src, count, k) == true
    {
      ghost var now := mem[..];
      SourceReadable(before, now, dst, src, count, k);
      mem[dst + k] := mem[src + k];
      k := k + 1;
      if mem[dst + k - 1] == 0 {
        CopyEnds(before, now, mem[..], dst, src, count, k - 1);
        return;
      }
      CopyStep(before, now, mem[..], dst, src, count, k - 1, 1);
    }
    CopyFills(before, mem[..], dst, src, count);
  }

  /** strncpy leaves at dst the source up to its NUL, then NULs, count bytes in all, and
      changes nothing else. */
  method StrNCpy(mem: array<Byte>, dst: nat, src: nat, count: nat)
    requires Copying(mem[..], mem[..], dst, src, count, 0) && Readable(mem[..], src, count)
    modifies mem
    ensures Padding(old(mem[..]), mem[..], dst, src, count, count)
  {
    ghost var before := mem[..];
    var k := 0;
    if src % 8 == 0 && dst % 8 == 0 && count >= 8 {
      k := CopyWords(mem, dst, src, count);
    }
    k := CopyBytes(mem, before, dst, src, count, k);
    while k < count
      invariant k <= count && Padding(before, mem[..], dst, src, count, k) == true
    {
      PadStep(before, mem[..], dst, src, count, k);
      mem[dst + k] := 0;
      k := k + 1;
    }
  }
}
