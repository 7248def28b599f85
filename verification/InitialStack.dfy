/** com_sys_elf64_prepare_stack: what a program that follows section 3.4.1 of the System V AMD64
    psABI reads from its initial stack is what the loader was given. */
module InitialStack {
  /** A byte of stack memory, as a number: words are sums of bytes here. */
  newtype Octet = x: int | 0 <= x < 256

  type Texts = seq<seq<Octet>>

  const WORDS: nat := 0x1_0000_0000_0000_0000
  const AT_PHDR: nat := 3
  const AT_PHENT: nat := 4
  const AT_PHNUM: nat := 5
  const AT_ENTRY: nat := 9
  const MARKER: nat := 0xDEADBEEFCAFEBABE

  /** What the loader knows about the program. */
  datatype ElfData = ElfData(entry: nat, phdr: nat, phentSize: nat, phentNum: nat)

  predicate FitsWords(e: ElfData) {
    e.entry < WORDS && e.phdr < WORDS && e.phentSize < WORDS && e.phentNum < WORDS
  }

  function Low(x: nat): Octet {
    (x % 256) as Octet
  }

  function HalfWord(m: seq<Octet>, o: nat): nat
    requires o + 4 <= |m|
  {
    m[o] as nat + 0x100 * m[o + 1] as nat + 0x10000 * m[o + 2] as nat + 0x1000000 * m[o + 3] as nat
  }

  /** The little-endian word at offset o. */
  function Word(m: seq<Octet>, o: nat): nat
    requires o + 8 <= |m|
  {
    HalfWord(m, o) + 0x1_0000_0000 * HalfWord(m, o + 4)
  }

  /** m' differs from m only in [lo, hi). */
  ghost predicate SameOutside(m: seq<Octet>, m': seq<Octet>, lo: int, hi: int) {
    |m'| == |m| && forall k | 0 <= k < |m| && !(lo <= k < hi) :: m'[k] == m[k]
  }

  lemma SameOutsideUnion(m: seq<Octet>, m1: seq<Octet>, m2: seq<Octet>, lo: int, mid: int, hi: int)
    requires lo <= mid <= hi && SameOutside(m, m1, mid, hi) == true && SameOutside(m1, m2, lo, mid) == true
    ensures SameOutside(m, m2, lo, hi) == true
  {
  }

  lemma SameOutsideMore(m: seq<Octet>, m1: seq<Octet>, m2: seq<Octet>, lo: int, mid: int, hi: int)
    requires lo <= mid <= hi && SameOutside(m, m1, lo, mid) == true && SameOutside(m1, m2, mid, hi) == true
    ensures SameOutside(m, m2, lo, hi) == true
  {
  }

  /** Consecutive words from offset o on. */
  ghost predicate WordsAt(m: seq<Octet>, o: nat, ws: seq<nat>)
    decreases |ws|
  {
    if ws == [] then o <= |m| else o + 8 <= |m| && Word(m, o) == ws[0] && WordsAt(m, o + 8, ws[1..])
  }

  lemma WordKept(m: seq<Octet>, m': seq<Octet>, lo: int, hi: int, o: nat)
    requires SameOutside(m, m', lo, hi) && o + 8 <= |m| && (o + 8 <= lo || hi <= o)
    ensures Word(m', o) == Word(m, o)
  {
  }

  lemma {:induction false} WordsKept(m: seq<Octet>, m': seq<Octet>, lo: int, hi: int, o: nat, ws: seq<nat>)
    requires SameOutside(m, m', lo, hi) == true && WordsAt(m, o, ws) == true && (o + 8 * |ws| <= lo || hi <= o)
    ensures WordsAt(m', o, ws) == true
    decreases |ws|
  {
    if ws != [] {
      WordKept(m, m', lo, hi, o);
      WordsKept(m, m', lo, hi, o + 8, ws[1..]);
    }
  }

  /** Four bytes split off a word, put together. */
  lemma HalfOfDigits(m: seq<Octet>, o: nat, w: nat, w1: nat, w2: nat, w3: nat, w4: nat)
    requires o + 4 <= |m| && w1 == w / 256 && w2 == w1 / 256 && w3 == w2 / 256 && w4 == w3 / 256
    requires m[o] == Low(w) && m[o + 1] == Low(w1) && m[o + 2] == Low(w2) && m[o + 3] == Low(w3)
    ensures w == HalfWord(m, o) + 0x1_0000_0000 * w4
  {
    assert w == m[o] as nat + 0x100 * w1;
    assert w1 == m[o + 1] as nat + 0x100 * w2;
    assert w2 == m[o + 2] as nat + 0x100 * w3;
    assert w3 == m[o + 3] as nat + 0x100 * w4;
  }

  /** A 64-bit store. */
  method StoreWord(a: array<Octet>, o: nat, w: nat)
    requires o + 8 <= a.Length && w < WORDS
    modifies a
    ensures Word(a[..], o) == w && SameOutside(old(a[..]), a[..], o, o + 8) == true
  {
    var w1 := w / 256;
    var w2 := w1 / 256;
    var w3 := w2 / 256;
    var w4 := w3 / 256;
    var w5 := w4 / 256;
    var w6 := w5 / 256;
    var w7 := w6 / 256;
    a[o], a[o + 1], a[o + 2], a[o + 3] := Low(w), Low(w1), Low(w2), Low(w3);
    a[o + 4], a[o + 5], a[o + 6], a[o + 7] := Low(w4), Low(w5), Low(w6), Low(w7);
    HalfOfDigits(a[..], o, w, w1, w2, w3, w4);
    HalfOfDigits(a[..], o + 4, w4, w5, w6, w7, w7 / 256);
  }

  /** PUSH, below words that are there already. */
  method Push(a: array<Octet>, o: nat, w: nat, ghost ws: seq<nat>) returns (sp: nat)
    requires 8 <= o && w < WORDS && WordsAt(a[..], o, ws) == true
    modifies a
    ensures sp == o - 8 && WordsAt(a[..], sp, [w] + ws) == true && SameOutside(old(a[..]), a[..], sp, o) == true
  {
    sp := o - 8;
    StoreWord(a, sp, w);
    WordsKept(old(a[..]), a[..], sp, o, o, ws);
    assert ([w] + ws)[1..] == ws;
  }

  /** An entry of the auxiliary vector: its value above its type. */
  method PushEntry(a: array<Octet>, o: nat, value: nat, key: nat, ghost ws: seq<nat>) returns (sp: nat)
    requires 16 <= o && value < WORDS && key < WORDS && WordsAt(a[..], o, ws) == true
    modifies a
    ensures sp == o - 16 && WordsAt(a[..], sp, [key, value] + ws) == true
    ensures SameOutside(old(a[..]), a[..], sp, o) == true
  {
    sp := Push(a, o, value, ws);
    ghost var m := a[..];
    sp := Push(a, sp, key, [value] + ws);
    assert [key] + ([value] + ws) == [key, value] + ws;
    SameOutsideUnion(old(a[..]), m, a[..], sp, o - 8, o);
  }

  lemma {:induction false} WordsJoin(m: seq<Octet>, o: nat, us: seq<nat>, ws: seq<nat>)
    requires WordsAt(m, o, us) == true && WordsAt(m, o + 8 * |us|, ws) == true
    ensures WordsAt(m, o, us + ws) == true
    decreases |us|
  {
    if us == [] {
      assert us + ws == ws;
    } else {
      WordsJoin(m, o + 8, us[1..], ws);
      assert (us + ws)[1..] == us[1..] + ws;
    }
  }

  /** The bytes that the strings take, each with its terminator. */
  function Total(strs: Texts): nat {
    if strs == [] then 0 else Total(strs[..|strs| - 1]) + |strs[|strs| - 1]| + 1
  }

  lemma TotalNext(strs: Texts, i: nat)
    requires i < |strs|
    ensures Total(strs[..i + 1]) == Total(strs[..i]) + |strs[i]| + 1
  {
    assert strs[..i + 1][..i] == strs[..i];
  }

  lemma {:induction false} TotalGrows(strs: Texts, i: nat)
    requires i <= |strs|
    ensures Total(strs[..i]) <= Total(strs)
    decreases |strs| - i
  {
    if i == |strs| {
      assert strs[..i] == strs;
    } else {
      TotalNext(strs, i);
      TotalGrows(strs, i + 1);
    }
  }

  /** A string and its terminator at offset o. */
  ghost predicate TextAt(m: seq<Octet>, o: int, s: seq<Octet>)
    decreases |s|
  {
    0 <= o < |m| && if s == [] then m[o] == 0 else m[o] == s[0] && TextAt(m, o + 1, s[1..])
  }

  /** The strings one below the other, the first ending at top. */
  ghost predicate TextsAt(m: seq<Octet>, top: int, strs: Texts) {
    strs != [] ==>
      var n := |strs| - 1;
      TextsAt(m, top, strs[..n]) && TextAt(m, top - Total(strs), strs[n])
  }

  lemma {:induction false} TextKept(m: seq<Octet>, m': seq<Octet>, lo: int, hi: int, o: int, s: seq<Octet>)
    requires SameOutside(m, m', lo, hi) == true && TextAt(m, o, s) == true && hi <= o
    ensures TextAt(m', o, s) == true
    decreases |s|
  {
    if s != [] { TextKept(m, m', lo, hi, o + 1, s[1..]); }
  }

  lemma {:induction false} TextFrom(m: seq<Octet>, o: nat, s: seq<Octet>, i: nat)
    requires i <= |s| && o + |s| < |m| && m[o + |s|] == 0 && m[o..o + |s|] == s
    ensures TextAt(m, o + i, s[i..]) == true
    decreases |s| - i
  {
    if i < |s| {
      TextFrom(m, o, s, i + 1);
      assert m[o + i] == m[o..o + |s|][i];
      assert s[i..][1..] == s[i + 1..];
    }
  }

  lemma {:induction false} TextsKept(m: seq<Octet>, m': seq<Octet>, lo: int, hi: int, top: int, strs: Texts)
    requires SameOutside(m, m', lo, hi) == true && TextsAt(m, top, strs) == true && hi <= top - Total(strs)
    ensures TextsAt(m', top, strs) == true
  {
    if strs != [] {
      var n := |strs| - 1;
      TextsKept(m, m', lo, hi, top, strs[..n]);
      TextKept(m, m', lo, hi, top - Total(strs), strs[n]);
    }
  }

  /** memcpy of a string and its terminator. */
  method StoreText(a: array<Octet>, o: nat, s: seq<Octet>)
    requires o + |s| < a.Length
    modifies a
    ensures TextAt(a[..], o, s) == true && SameOutside(old(a[..]), a[..], o, o + |s| + 1) == true
  {
    var i := 0;
    while i < |s|
      invariant i <= |s| && SameOutside(old(a[..]), a[..], o, o + |s| + 1)
      invariant a[o..o + i] == s[..i]
    {
      a[o + i] := s[i];
      i := i + 1;
    }
    a[o + i] := 0;
    assert a[o..o + i] == s;
    TextFrom(a[..], o, s, 0);
  }

  /** The two string loops: each string goes below the one before it. */
  method StoreTexts(a: array<Octet>, top: nat, strs: Texts) returns (o: nat)
    requires Total(strs) <= top <= a.Length
    modifies a
    ensures o == top - Total(strs) && TextsAt(a[..], top, strs) == true
    ensures SameOutside(old(a[..]), a[..], o, top) == true
  {
    o := top;
    var i := 0;
    while i < |strs|
      invariant i <= |strs| && o == top - Total(strs[..i])
      invariant TextsAt(a[..], top, strs[..i]) == true && SameOutside(old(a[..]), a[..], o, top) == true
    {
      ghost var m := a[..];
      TotalNext(strs, i);
      TotalGrows(strs, i + 1);
      ghost var above := o;
      o := o - (|strs[i]| + 1);
      StoreText(a, o, strs[i]);
      TextsKept(m, a[..], o, above, top, strs[..i]);
      assert strs[..i + 1][..i] == strs[..i];
      SameOutsideUnion(old(a[..]), m, a[..], o, above, top);
      i := i + 1;
    }
    assert strs[..i] == strs;
  }

  /** The addresses of strings stored downwards from top. */
  ghost function Pointers(top: nat, strs: Texts): (ps: seq<nat>)
    requires Total(strs) <= top
    ensures |ps| == |strs|
  {
    if strs == [] then [] else Pointers(top, strs[..|strs| - 1]) + [top - Total(strs)]
  }

  lemma {:induction false} PointersMore(m: seq<Octet>, m': seq<Octet>, o: nat, top: nat, strs: Texts, i: nat,
                                        next: nat)
    requires i < |strs| && Total(strs[..i]) <= top && Total(strs[..i + 1]) <= top && next == top - Total(strs[..i + 1])
    requires WordsAt(m, o, Pointers(top, strs[..i])) == true
    requires SameOutside(m, m', o + 8 * i, o + 8 * i + 8) == true && o + 8 * i + 8 <= |m'| && Word(m', o + 8 * i) == next
    ensures WordsAt(m', o, Pointers(top, strs[..i + 1])) == true
  {
    var ps := Pointers(top, strs[..i]);
    WordsKept(m, m', o + 8 * i, o + 8 * i + 8, o, ps);
    assert WordsAt(m', o + 8 * i, [next]);
    WordsJoin(m', o, ps, [next]);
    assert strs[..i + 1][..i] == strs[..i];
  }

  /** The two pointer loops, which count the lengths once more; next is where the last string starts. */
  method StorePointers(a: array<Octet>, o: nat, top: nat, strs: Texts) returns (next: nat)
    requires Total(strs) <= top < WORDS && o + 8 * |strs| <= a.Length
    modifies a
    ensures next == top - Total(strs) && WordsAt(a[..], o, Pointers(top, strs))
    ensures SameOutside(old(a[..]), a[..], o, o + 8 * |strs|)
  {
    next := top;
    var i := 0;
    TotalGrows(strs, 0);
    while i < |strs|
      invariant i <= |strs| && next == top - Total(strs[..i]) && Total(strs[..i]) <= top
      invariant WordsAt(a[..], o, Pointers(top, strs[..i])) == true && SameOutside(old(a[..]), a[..], o, o + 8 * i) == true
    {
      ghost var m := a[..];
      TotalNext(strs, i);
      TotalGrows(strs, i + 1);
      next := next - (|strs[i]| + 1);
      StoreWord(a, o + 8 * i, next);
      PointersMore(m, a[..], o, top, strs, i, next);
      SameOutsideMore(old(a[..]), m, a[..], o, o + 8 * i, o + 8 * i + 8);
      i := i + 1;
    }
    assert strs[..i] == strs;
  }

  /** The auxiliary vector as the loader pushes it, lowest address first. */
  function Auxv(e: ElfData): seq<nat> {
    [AT_PHNUM, e.phentNum] + ([AT_PHENT, e.phentSize] + ([AT_PHDR, e.phdr] + ([AT_ENTRY, e.entry] + [0, 0])))
  }

  method PushAuxv(a: array<Octet>, o: nat, e: ElfData) returns (sp: nat)
    requires 80 <= o <= a.Length && FitsWords(e)
    modifies a
    ensures sp == o - 80 && WordsAt(a[..], sp, Auxv(e)) == true && SameOutside(old(a[..]), a[..], sp, o) == true
  {
    ghost var m, ws := a[..], [0, 0];
    assert WordsAt(m, o, []) && ws + [] == ws;
    sp := PushEntry(a, o, 0, 0, []);
    ghost var m1 := a[..];
    sp := PushEntry(a, sp, e.entry, AT_ENTRY, ws);
    SameOutsideUnion(m, m1, a[..], sp, o - 16, o);
    ghost var m2, ws2 := a[..], [AT_ENTRY, e.entry] + ws;
    sp := PushEntry(a, sp, e.phdr, AT_PHDR, ws2);
    SameOutsideUnion(m, m2, a[..], sp, o - 32, o);
    ghost var m3, ws3 := a[..], [AT_PHDR, e.phdr] + ws2;
    sp := PushEntry(a, sp, e.phentSize, AT_PHENT, ws3);
    SameOutsideUnion(m, m3, a[..], sp, o - 48, o);
    ghost var m4, ws4 := a[..], [AT_PHENT, e.phentSize] + ws3;
    sp := PushEntry(a, sp, e.phentNum, AT_PHNUM, ws4);
    SameOutsideUnion(m, m4, a[..], sp, o - 64, o);
  }

  /** A terminator and the pointers below it. */
  method PushVector(a: array<Octet>, o: nat, top: nat, strs: Texts, ghost ws: seq<nat>) returns (sp: nat, next: nat)
    requires 8 + 8 * |strs| <= o && Total(strs) <= top < WORDS && WordsAt(a[..], o, ws) == true
    modifies a
    ensures sp == o - 8 - 8 * |strs| && next == top - Total(strs)
    ensures WordsAt(a[..], sp, Pointers(top, strs) + ([0] + ws)) == true
    ensures SameOutside(old(a[..]), a[..], sp, o) == true
  {
    var above := Push(a, o, 0, ws);
    ghost var m := a[..];
    sp := above - 8 * |strs|;
    next := StorePointers(a, sp, top, strs);
    WordsKept(m, a[..], sp, above, above, [0] + ws);
    WordsJoin(a[..], sp, Pointers(top, strs), [0] + ws);
    SameOutsideUnion(old(a[..]), m, a[..], sp, above, o);
  }

  /** n marks from offset o on. */
  ghost predicate Marked(m: seq<Octet>, o: int, n: nat) {
    0 <= o && o + 8 * n <= |m| && forall k: nat | k < n :: Word(m, o + 8 * k) == 0xDEADBEEFCAFEBABE
  }

  lemma MarkedMore(m: seq<Octet>, m': seq<Octet>, o: nat, n: nat)
    requires Marked(m, o + 8, n) && SameOutside(m, m', o, o + 8) == true && Word(m', o) == MARKER
    ensures Marked(m', o, n + 1) == true
  {
    forall k: nat | k < n + 1 ensures Word(m', o + 8 * k) == MARKER {
      if k > 0 {
        WordKept(m, m', o, o + 8, o + 8 * k);
        assert Word(m, (o + 8) + 8 * (k - 1)) == MARKER;
      }
    }
  }

  /** A hundred marks below the stack pointer, 300 words away from it. */
  method PushMarks(a: array<Octet>, sp: nat)
    requires 3200 <= sp <= a.Length
    modifies a
    ensures Marked(a[..], sp - 3200, 100) == true
    ensures SameOutside(old(a[..]), a[..], sp - 3200, sp - 2400) == true
  {
    var o, i := sp - 2400, 0;
    while i < 100
      invariant i <= 100 && o == sp - 2400 - 8 * i && Marked(a[..], o, i) == true
      invariant SameOutside(old(a[..]), a[..], o, sp - 2400) == true
    {
      ghost var m := a[..];
      o := o - 8;
      StoreWord(a, o, MARKER);
      SameOutsideUnion(old(a[..]), m, a[..], o, o + 8, sp - 2400);
      MarkedMore(m, a[..], o, i);
      i := i + 1;
    }
  }

  /** Where the words end: 16-byte aligned, one word lower if their number is odd. */
  function WordsTop(low: nat, o: nat, argc: nat, envc: nat): int {
    var aligned := low + o - (low + o) % 16;
    (if (argc + envc + 1) % 2 != 0 then aligned - 8 else aligned) - low
  }

  /** However many strings there are, the pointer below all words is a multiple of 16. */
  lemma WordsTopAligns(low: nat, o: nat, argc: nat, envc: nat)
    ensures o - 23 <= WordsTop(low, o, argc, envc) <= o
    ensures (low + WordsTop(low, o, argc, envc) - 8 * (argc + envc + 13)) % 16 == 0
  {
    var aligned := low + o - (low + o) % 16;
    assert aligned % 16 == 0;
    var n := argc + envc + 13;
    if (argc + envc + 1) % 2 != 0 {
      assert 8 * n + 8 == 16 * ((n + 1) / 2);
    } else {
      assert 8 * n == 16 * (n / 2);
    }
  }

  /** The words of the stack, lowest address first. */
  ghost function StackWords(end: nat, e: ElfData, argv: Texts, envp: Texts): seq<nat>
    requires Total(envp) + Total(argv) <= end
  {
    [|argv|] + (Pointers(end - Total(envp), argv) + ([0] + (Pointers(end, envp) + ([0] + Auxv(e)))))
  }

  /** The layout of section 3.4.1 of the psABI in m, whose first byte has address low. */
  ghost predicate Laid(m: seq<Octet>, low: nat, o: nat, e: ElfData, argv: Texts, envp: Texts) {
    && Total(envp) + Total(argv) <= |m| && WordsAt(m, o, StackWords(low + |m|, e, argv, envp))
    && TextsAt(m, |m|, envp) && TextsAt(m, |m| - Total(envp), argv)
  }

  predicate Room(size: nat, argv: Texts, envp: Texts) {
    Total(envp) + Total(argv) + 8 * (|argv| + |envp|) + 3328 <= size
  }

  method PushWords(a: array<Octet>, low: nat, o: nat, e: ElfData, argv: Texts, envp: Texts) returns (sp: nat)
    requires FitsWords(e) && 8 * (|argv| + |envp| + 13) <= o <= a.Length && low + a.Length < WORDS
    requires Total(envp) + Total(argv) <= a.Length
    modifies a
    ensures sp == o - 8 * (|argv| + |envp| + 13)
    ensures WordsAt(a[..], sp, StackWords(low + a.Length, e, argv, envp)) == true
    ensures SameOutside(old(a[..]), a[..], sp, o) == true
  {
    ghost var m := a[..];
    var o1 := PushAuxv(a, o, e);
    ghost var m1 := a[..];
    var o2, next := PushVector(a, o1, low + a.Length, envp, Auxv(e));
    ghost var m2, ws := a[..], Pointers(low + a.Length, envp) + ([0] + Auxv(e));
    SameOutsideUnion(m, m1, m2, o2, o1, o);
    var o3, first := PushVector(a, o2, next, argv, ws);
    ghost var m3 := a[..];
    SameOutsideUnion(m, m2, m3, o3, o2, o);
    sp := Push(a, o3, |argv|, Pointers(next, argv) + ([0] + ws));
    SameOutsideUnion(m, m3, a[..], sp, o3, o);
  }

  lemma {:induction false} LaidKept(m: seq<Octet>, m': seq<Octet>, lo: int, hi: int, low: nat, o: nat,
                                    e: ElfData, argv: Texts, envp: Texts)
    requires Laid(m, low, o, e, argv, envp) == true && SameOutside(m, m', lo, hi) == true
    requires hi <= o && o <= |m| - Total(envp) - Total(argv)
    ensures Laid(m', low, o, e, argv, envp) == true
  {
    WordsKept(m, m', lo, hi, o, StackWords(low + |m|, e, argv, envp));
    TextsKept(m, m', lo, hi, |m|, envp);
    TextsKept(m, m', lo, hi, |m| - Total(envp), argv);
  }

  lemma {:induction false} TextsThenWords(m: seq<Octet>, m1: seq<Octet>, m2: seq<Octet>, m3: seq<Octet>,
                                          low: nat, sp: nat, o: nat, e: ElfData, argv: Texts, envp: Texts)
    requires |m1| == |m| && Total(envp) + Total(argv) <= |m| && sp <= o <= |m| - Total(envp) - Total(argv)
    requires TextsAt(m1, |m|, envp) == true
    requires SameOutside(m1, m2, |m| - Total(envp) - Total(argv), |m| - Total(envp)) == true
    requires TextsAt(m2, |m| - Total(envp), argv) == true && SameOutside(m2, m3, sp, o) == true
    requires WordsAt(m3, sp, StackWords(low + |m|, e, argv, envp)) == true
    ensures Laid(m3, low, sp, e, argv, envp) == true
  {
    TextsKept(m1, m2, |m| - Total(envp) - Total(argv), |m| - Total(envp), |m|, envp);
    TextsKept(m2, m3, sp, o, |m|, envp);
    TextsKept(m2, m3, sp, o, |m| - Total(envp), argv);
  }

  /** Below the stack pointer at offset o only the 100 marked words have changed. */
  ghost predicate SameBelow(m: seq<Octet>, m': seq<Octet>, o: int) {
    |m'| == |m| && forall k | 0 <= k < o && k < |m| && !(o - 3200 <= k < o - 2400) :: m'[k] == m[k]
  }

  lemma BelowKept(m: seq<Octet>, m1: seq<Octet>, m2: seq<Octet>, o: int)
    requires SameOutside(m, m1, o, |m|) && SameOutside(m1, m2, o - 3200, o - 2400)
    ensures SameBelow(m, m2, o) == true
  {
  }

  /** Everything but the marks; o is the offset of the lowest word. */
  method PlaceStack(a: array<Octet>, low: nat, e: ElfData, argv: Texts, envp: Texts) returns (o: nat)
    requires FitsWords(e) && low + a.Length < WORDS && Room(a.Length, argv, envp)
    modifies a
    ensures 3200 <= o <= a.Length - Total(envp) - Total(argv) && (low + o) % 16 == 0
    ensures Laid(a[..], low, o, e, argv, envp) == true && SameOutside(old(a[..]), a[..], o, a.Length) == true
  {
    ghost var m := a[..];
    var o1 := StoreTexts(a, a.Length, envp);
    ghost var m1 := a[..];
    var o2 := StoreTexts(a, o1, argv);
    ghost var m2 := a[..];
    SameOutsideUnion(m, m1, m2, o2, o1, |m|);
    var o3 := WordsTop(low, o2, |argv|, |envp|);
    WordsTopAligns(low, o2, |argv|, |envp|);
    o := PushWords(a, low, o3, e, argv, envp);
    TextsThenWords(m, m1, m2, a[..], low, o, o3, e, argv, envp);
    SameOutsideWider(m, m2, a[..], o, o3, o2);
  }

  lemma SameOutsideWider(m: seq<Octet>, m1: seq<Octet>, m2: seq<Octet>, lo: int, mid: int, hi: int)
    requires lo <= mid <= hi && SameOutside(m, m1, hi, |m|) == true && SameOutside(m1, m2, lo, mid) == true
    ensures SameOutside(m, m2, lo, |m|) == true
  {
  }

  /** com_sys_elf64_prepare_stack, on the bytes a of the stack from address low on. */
  method PrepareStack(a: array<Octet>, low: nat, e: ElfData, argv: Texts, envp: Texts) returns (sp: nat)
    requires FitsWords(e) && low + a.Length < WORDS && Room(a.Length, argv, envp)
    modifies a
    ensures sp % 16 == 0 && low + 3200 <= sp && Laid(a[..], low, sp - low, e, argv, envp) == true
    ensures SameBelow(old(a[..]), a[..], sp - low) == true && Marked(a[..], sp - low - 3200, 100) == true
  {
    var o := PlaceStack(a, low, e, argv, envp);
    ghost var m := a[..];
    PushMarks(a, o);
    LaidKept(m, a[..], o - 3200, o - 2400, low, o, e, argv, envp);
    BelowKept(old(a[..]), m, a[..], o);
    return low + o;
  }

  /** The string at offset o, up to its NUL. */
  function ReadText(m: seq<Octet>, o: int): seq<Octet>
    decreases |m| - o
  {
    if o < 0 || o >= |m| || m[o] == 0 then [] else [m[o]] + ReadText(m, o + 1)
  }

  /** The strings that the pointers from offset o on name, up to the null pointer. */
  function ReadVector(m: seq<Octet>, low: nat, o: nat): Texts
    decreases |m| - o
  {
    if o + 8 > |m| || Word(m, o) == 0 then []
    else [ReadText(m, Word(m, o) - low)] + ReadVector(m, low, o + 8)
  }

  /** The entries of an auxiliary vector at offset o, up to the null entry. */
  function ReadAuxv(m: seq<Octet>, o: nat): seq<(nat, nat)>
    decreases |m| - o
  {
    if o + 16 > |m| || Word(m, o) == 0 then [] else [(Word(m, o), Word(m, o + 8))] + ReadAuxv(m, o + 16)
  }

  lemma {:induction false} ReadsText(m: seq<Octet>, o: int, s: seq<Octet>)
    requires TextAt(m, o, s) == true && 0 !in s
    ensures ReadText(m, o) == s
    decreases |s|
  {
    if s != [] { ReadsText(m, o + 1, s[1..]); }
  }

  /** The pointers, then a null pointer, then whatever follows. */
  lemma {:induction false} ReadsVector(m: seq<Octet>, low: nat, o: nat, top: nat, strs: Texts, ws: seq<nat>, i: nat)
    requires 0 < low && i <= |strs| && Total(strs) <= top && (forall s: seq<Octet> | s in strs :: 0 !in s)
    requires TextsAt(m, top, strs) == true && WordsAt(m, o, Pointers(low + top, strs)[i..] + ([0] + ws)) == true
    ensures ReadVector(m, low, o) == strs[i..]
    decreases |strs| - i
  {
    var ps := Pointers(low + top, strs);
    var all := ps[i..] + ([0] + ws);
    if i < |strs| {
      PointsAt(m, low, top, strs, i);
      assert all[0] == ps[i] && all[1..] == ps[i + 1..] + ([0] + ws);
      ReadsVector(m, low, o + 8, top, strs, ws, i + 1);
      ReadsText(m, ps[i] - low, strs[i]);
      assert strs[i..] == [strs[i]] + strs[i + 1..];
    } else {
      assert all[0] == 0;
    }
  }

  lemma {:induction false} PointsAt(m: seq<Octet>, low: nat, top: nat, strs: Texts, i: nat)
    requires i < |strs| && Total(strs) <= top && TextsAt(m, top, strs) == true
    ensures Pointers(low + top, strs)[i] >= low && TextAt(m, Pointers(low + top, strs)[i] - low, strs[i]) == true
  {
    if i < |strs| - 1 { PointsAt(m, low, top, strs[..|strs| - 1], i); }
  }

  lemma {:induction false} WordsAfter(m: seq<Octet>, o: nat, us: seq<nat>, ws: seq<nat>)
    requires WordsAt(m, o, us + ws) == true
    ensures WordsAt(m, o + 8 * |us|, ws) == true
    decreases |us|
  {
    if us == [] {
      assert us + ws == ws;
    } else {
      assert (us + ws)[1..] == us[1..] + ws;
      WordsAfter(m, o + 8, us[1..], ws);
    }
  }

  lemma {:induction false} ReadsEntry(m: seq<Octet>, o: nat, key: nat, value: nat, ws: seq<nat>)
    requires key != 0 && WordsAt(m, o, [key, value] + ws) == true && ws != []
    ensures ReadAuxv(m, o) == [(key, value)] + ReadAuxv(m, o + 16) && WordsAt(m, o + 16, ws) == true
  {
    var all := [key, value] + ws;
    assert all[1..] == [value] + ws && all[1..][1..] == ws;
    WordsAfter(m, o, [key, value], ws);
  }

  lemma {:induction false} ReadsAuxv(m: seq<Octet>, o: nat, e: ElfData)
    requires WordsAt(m, o, Auxv(e)) == true
    ensures ReadAuxv(m, o) == [(5, e.phentNum), (4, e.phentSize), (3, e.phdr), (9, e.entry)]
  {
    var ws3 := [AT_ENTRY, e.entry] + [0, 0];
    var ws2 := [AT_PHDR, e.phdr] + ws3;
    var ws1 := [AT_PHENT, e.phentSize] + ws2;
    ReadsEntry(m, o, AT_PHNUM, e.phentNum, ws1);
    ReadsEntry(m, o + 16, AT_PHENT, e.phentSize, ws2);
    ReadsEntry(m, o + 32, AT_PHDR, e.phdr, ws3);
    ReadsEntry(m, o + 48, AT_ENTRY, e.entry, [0, 0]);
    assert ReadAuxv(m, o + 64) == [];
  }

  /** A program started with its stack pointer at the layout reads its arguments, its environment
      and the auxiliary vector as they were given. */
  lemma {:induction false} ReadsBack(m: seq<Octet>, low: nat, o: nat, e: ElfData, argv: Texts, envp: Texts)
    requires 0 < low && Laid(m, low, o, e, argv, envp) == true
    requires (forall s: seq<Octet> | s in argv :: 0 !in s) && (forall s: seq<Octet> | s in envp :: 0 !in s)
    ensures o + 8 <= |m| && Word(m, o) == |argv|
    ensures ReadVector(m, low, o + 8) == argv && ReadVector(m, low, o + 8 * (|argv| + 2)) == envp
    ensures ReadAuxv(m, o + 8 * (|argv| + |envp| + 3)) ==
            [(5, e.phentNum), (4, e.phentSize), (3, e.phdr), (9, e.entry)]
  {
    var top := |m| - Total(envp);
    var aux := [0] + Auxv(e);
    var envs := Pointers(low + |m|, envp) + aux;
    var args := Pointers(low + top, argv) + ([0] + envs);
    WordsAfter(m, o, [|argv|], args);
    var o1, o2 := o + 8 * (|argv| + 2), o + 8 * (|argv| + |envp| + 3);
    ReadsAll(m, low, o + 8, top, argv, envs, o1);
    ReadsAll(m, low, o1, |m|, envp, Auxv(e), o2);
    ReadsAuxv(m, o2, e);
  }

  lemma {:induction false} ReadsAll(m: seq<Octet>, low: nat, o: nat, top: nat, strs: Texts, ws: seq<nat>, after: nat)
    requires after == o + 8 * (|strs| + 1) && 0 < low && Total(strs) <= top && (forall s: seq<Octet> | s in strs :: 0 !in s)
    requires TextsAt(m, top, strs) == true && WordsAt(m, o, Pointers(low + top, strs) + ([0] + ws)) == true
    ensures ReadVector(m, low, o) == strs && WordsAt(m, after, ws) == true
  {
    var ps := Pointers(low + top, strs);
    assert ps[0..] == ps && strs[0..] == strs;
    ReadsVector(m, low, o, top, strs, ws, 0);
    assert ps + ([0] + ws) == (ps + [0]) + ws;
    WordsAfter(m, o, ps + [0], ws);
  }
}
