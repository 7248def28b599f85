/** load_elf: what every byte of a program's space holds once its segments are loaded. */
module Elf {
  import opened Bytes
  import opened Options
  import opened Frames
  import opened PageTables
  import opened Paging
  import opened MapRanges
  import Mmu

  const PT_LOAD := 1
  const PERM: bv12 := 7
  const LOWER_HALF := 0x800000000000
  const ADDRESSES := 0x1000000000000

  /** The fields of a program header that load_elf reads. */
  datatype Phdr = Phdr(kind: nat, offset: nat, vaddr: nat, filesz: nat, memsz: nat)

  function PageStart(v: nat): nat {
    v - v % 4096
  }

  /** a lies on a page that the segment touches. */
  predicate Covers(p: Phdr, a: nat) {
    p.kind == PT_LOAD && p.vaddr / 4096 <= a / 4096 < p.vaddr / 4096 + PageCount(p.vaddr, p.memsz)
  }

  /** Where in the file the byte for address a of a segment comes from; None for a zero. */
  function Source(p: Phdr, a: nat): Option<nat> {
    if p.vaddr <= a < p.vaddr + p.filesz then Some(p.offset + (a - p.vaddr)) else None
  }

  function ByteOf(p: Phdr, file: seq<Byte>, a: nat): Byte {
    match Source(p, a)
    case None => 0
    case Some(o) => if o < |file| then file[o] else 0
  }

  /** The last segment that covers a decides its byte. */
  function LastCover(ps: seq<Phdr>, a: nat): Option<Phdr> {
    if ps == [] then None
    else if Covers(ps[|ps| - 1], a) then Some(ps[|ps| - 1])
    else LastCover(ps[..|ps| - 1], a)
  }

  /** The frames hold bytes and are pairwise distinct. */
  ghost predicate Whole(m: Memory, fs: seq<int>) {
    && (forall i | 0 <= i < |fs| :: fs[i] in m && !m[fs[i]].Table? && |BytesOf(m[fs[i]])| == 4096)
    && (forall i, j | 0 <= i < j < |fs| :: fs[i] != fs[j])
  }

  /** The bytes of consecutive pages that are backed by these frames, as one buffer. */
  ghost function View(m: Memory, fs: seq<int>): (v: seq<Byte>)
    requires Whole(m, fs)
    ensures |v| == |fs| * 4096
  {
    seq(|fs| * 4096, o requires 0 <= o < |fs| * 4096 => BytesOf(m[fs[o / 4096]])[o % 4096])
  }

  /** The space of r maps a to frame f, by a 4 KiB page whose leaf entry is present, writable and
      open to user code. */
  ghost predicate MapsTo(t: Memory, r: int, a: nat, f: int) {
    Lookup(t, r, 4, a) == Some(Leaf(Pte(f, 7), 1))
  }

  /** Address a lies on a page of the window and is mapped to the frame of that page. */
  ghost predicate WindowMaps(t: Memory, r: int, base: nat, fs: seq<int>, a: nat) {
    base <= a && (a - base) / 4096 < |fs| && MapsTo(t, r, a, fs[(a - base) / 4096])
  }

  /** From base on, the space of r maps 4 KiB page after page to these frames. */
  ghost predicate Window(t: Memory, r: int, base: nat, fs: seq<int>) {
    base % 4096 == 0 && forall a: nat | base <= a < base + |fs| * 4096 :: WindowMaps(t, r, base, fs, a)
  }

  /** Address a of the space of r reads as b, from a frame that is in use and is no table, through a
      leaf entry with permissions 7: present, writable, open to user code. */
  ghost predicate Holds(s: System, r: int, a: nat, b: Byte) {
    var m, t := s.phys.memory, Translate(s.phys.memory, r, a);
    && Small(m, r, a) && Lookup(m, r, 4, a).value.entry.flags == 7
    && t.Some? && t.value in m && !m[t.value].Table? && |BytesOf(m[t.value])| == 4096
    && BytesOf(m[t.value])[a % 4096] == b && !IsFree(s.phys.regions, t.value) && t.value !in s.places
  }

  ghost predicate SameElsewhere(m: Memory, m': Memory, fs: seq<int>) {
    m'.Keys == m.Keys && forall f | f in m && f !in fs :: m'[f] == m[f]
  }

  lemma PokeView(m: Memory, fs: seq<int>, o: nat, b: Byte)
    requires Whole(m, fs) && o < |fs| * 4096
    ensures var f := fs[o / 4096];
      var m' := m[f := Data(BytesOf(m[f])[o % 4096 := b])];
      Whole(m', fs) && View(m', fs) == View(m, fs)[o := b] && SameElsewhere(m, m', fs)
  {
    var f := fs[o / 4096];
    var m' := m[f := Data(BytesOf(m[f])[o % 4096 := b])];
    forall p | 0 <= p < |fs| * 4096 ensures View(m', fs)[p] == View(m, fs)[o := b][p] {
      if p != o {
        assert p / 4096 != o / 4096 || p % 4096 != o % 4096;
        assert p / 4096 < o / 4096 ==> fs[p / 4096] != fs[o / 4096];
        assert p / 4096 > o / 4096 ==> fs[p / 4096] != fs[o / 4096];
      }
    }
  }

  lemma WindowAt(t: Memory, r: int, base: nat, fs: seq<int>, a: nat)
    requires Window(t, r, base, fs) && base <= a < base + |fs| * 4096
    ensures (a - base) / 4096 < |fs| && (a - base) % 4096 == a % 4096
    ensures MapsTo(t, r, a, fs[(a - base) / 4096]) == true
  {
    SameOffset(base, a);
    assert WindowMaps(t, r, base, fs, a);
  }

  lemma SameOffset(base: nat, a: nat)
    requires base % 4096 == 0 && base <= a
    ensures (a - base) % 4096 == a % 4096
  {
  }

  /** The window of frames in a valid system: none of them is a table. */
  ghost predicate Backed(s: System, r: int, base: nat, fs: seq<int>) {
    && Valid(s) && IsRoot(s, r) && Window(s.phys.memory, r, base, fs) && Whole(s.phys.memory, fs)
    && forall i | 0 <= i < |fs| :: fs[i] !in s.places
  }

  /** From s to s' only what these frames hold has changed, and no walk. */
  ghost predicate Stored(s: System, s': System, fs: seq<int>) {
    && s'.phys.regions == s.phys.regions && s'.places == s.places
    && SameElsewhere(s.phys.memory, s'.phys.memory, fs) && SameLookups(s, s')
  }

  lemma StoredTransitive(s: System, s1: System, s2: System, fs: seq<int>)
    requires Stored(s, s1, fs) && Stored(s1, s2, fs)
    ensures Stored(s, s2, fs) == true
  {
  }

  lemma StoredNone(s: System, fs: seq<int>)
    ensures Stored(s, s, fs) == true
  {
  }

  /** A byte stored into a frame that is no table changes no walk. */
  lemma ByteStored(s: System, r: int, base: nat, fs: seq<int>, o: nat, b: Byte, s': System)
    requires Backed(s, r, base, fs) == true && o < |fs| * 4096
    requires var f, m := fs[o / 4096], s.phys.memory;
      f in m && |BytesOf(m[f])| == 4096 &&
      s' == s.(phys := s.phys.(memory := m[f := Data(BytesOf(m[f])[o % 4096 := b])]))
    ensures Backed(s', r, base, fs) == true && Stored(s, s', fs) == true
    ensures View(s'.phys.memory, fs) == View(s.phys.memory, fs)[o := b]
  {
    var f, m := fs[o / 4096], s.phys.memory;
    var content := Data(BytesOf(m[f])[o % 4096 := b]);
    PokeView(m, fs, o, b);
    OutsidePlaced(m, s.places, f, content);
    forall x, w: nat | IsRoot(s, x) ensures Lookup(s'.phys.memory, x, 4, w) == Lookup(m, x, 4, w) {
      LookupOutside(m, s.places, x, 4, w, f, content);
    }
    WindowKept(s, s', r, base, fs);
  }

  lemma WindowKept(s: System, s': System, r: int, base: nat, fs: seq<int>)
    requires Window(s.phys.memory, r, base, fs) && IsRoot(s, r)
    requires forall w: nat :: Lookup(s'.phys.memory, r, 4, w) == Lookup(s.phys.memory, r, 4, w)
    ensures Window(s'.phys.memory, r, base, fs) == true
  {
    forall a: nat | base <= a < base + |fs| * 4096
      ensures WindowMaps(s'.phys.memory, r, base, fs, a) == true
    {
      WindowAt(s.phys.memory, r, base, fs, a);
    }
  }

  /** A store through the page tables. */
  method StoreByte(mmu: Mmu.Mmu, cr3: int, a: nat, b: Byte, ghost base: nat, ghost fs: seq<int>)
    requires Backed(mmu.State(), cr3, base, fs) == true && base <= a < base + |fs| * 4096
    modifies mmu`memory
    ensures Backed(mmu.State(), cr3, base, fs) == true && Stored(old(mmu.State()), mmu.State(), fs) == true
    ensures View(mmu.memory, fs) == old(View(mmu.memory, fs))[a - base := b]
  {
    WindowAt(mmu.memory, cr3, base, fs, a);
    var phys := mmu.VirtToPhys(a, cr3);
    var f := phys - a % 4096;
    ghost var s := mmu.State();
    mmu.memory := mmu.memory[f := Data(BytesOf(mmu.memory[f])[a % 4096 := b])];
    ByteStored(s, cr3, base, fs, a - base, b, mmu.State());
  }

  ghost function Overwrite(s: seq<Byte>, o: nat, bytes: seq<Byte>): seq<Byte>
    requires o + |bytes| <= |s|
  {
    s[..o] + bytes + s[o + |bytes|..]
  }

  function Zeros(n: nat): seq<Byte> {
    seq(n, _ => 0)
  }

  /** memcpy into virtual memory. */
  method MemCpy(mmu: Mmu.Mmu, cr3: int, dest: nat, src: seq<Byte>, ghost base: nat, ghost fs: seq<int>)
    requires Backed(mmu.State(), cr3, base, fs) == true
    requires base <= dest && dest + |src| <= base + |fs| * 4096
    modifies mmu`memory
    ensures Backed(mmu.State(), cr3, base, fs) == true && Stored(old(mmu.State()), mmu.State(), fs) == true
    ensures View(mmu.memory, fs) == Overwrite(old(View(mmu.memory, fs)), dest - base, src)
  {
    ghost var s, view := mmu.State(), View(mmu.memory, fs);
    StoredNone(s, fs);
    var i := 0;
    while i < |src|
      invariant i <= |src| && Backed(mmu.State(), cr3, base, fs) == true && Stored(s, mmu.State(), fs) == true
      invariant View(mmu.memory, fs) == Overwrite(view, dest - base, src[..i])
    {
      ghost var s1 := mmu.State();
      StoreByte(mmu, cr3, dest + i, src[i], base, fs);
      StoredTransitive(s, s1, mmu.State(), fs);
      OverwriteNext(view, dest - base, src, i);
      i := i + 1;
    }
    assert src[..i] == src;
  }

  lemma OverwriteNext(s: seq<Byte>, o: nat, bytes: seq<Byte>, i: nat)
    requires i < |bytes| && o + |bytes| <= |s|
    ensures Overwrite(s, o, bytes[..i])[o + i := bytes[i]] == Overwrite(s, o, bytes[..i + 1])
  {
  }

  /** memset to zero of virtual memory. */
  method MemZero(mmu: Mmu.Mmu, cr3: int, dest: nat, count: nat, ghost base: nat, ghost fs: seq<int>)
    requires Backed(mmu.State(), cr3, base, fs) == true
    requires base <= dest && dest + count <= base + |fs| * 4096
    modifies mmu`memory
    ensures Backed(mmu.State(), cr3, base, fs) == true && Stored(old(mmu.State()), mmu.State(), fs) == true
    ensures View(mmu.memory, fs) == Overwrite(old(View(mmu.memory, fs)), dest - base, Zeros(count))
  {
    ghost var s, view, zeros := mmu.State(), View(mmu.memory, fs), Zeros(count);
    StoredNone(s, fs);
    var i := 0;
    while i < count
      invariant i <= count && Backed(mmu.State(), cr3, base, fs) == true && Stored(s, mmu.State(), fs) == true
      invariant View(mmu.memory, fs) == Overwrite(view, dest - base, zeros[..i])
    {
      ghost var s1 := mmu.State();
      StoreByte(mmu, cr3, dest + i, 0, base, fs);
      StoredTransitive(s, s1, mmu.State(), fs);
      OverwriteNext(view, dest - base, zeros, i);
      i := i + 1;
    }
    assert zeros[..i] == zeros;
  }

  lemma LowerIndex(v: nat, size: nat, i: nat)
    requires v + size <= LOWER_HALF && i < PageCount(v, size)
    ensures PageAddr(v, i) / 4096 == v / 4096 + i && PageAddr(v, i) < LOWER_HALF && Index(PageAddr(v, i), 4) < 256
  {
    assert v / 4096 + i < 0x800000000;
  }

  /** The bits of an address that a walk reads, and the page offset. */
  function Walked(w: nat): nat {
    w % ADDRESSES
  }

  lemma WalkedWhole(w: nat)
    requires w < ADDRESSES
    ensures Walked(w) == w
  {
  }

  lemma PageNumber(w: nat)
    ensures Page(w) == Walked(w) / 4096
  {
    var q, u := w / ADDRESSES, w % ADDRESSES;
    assert w / 4096 == q * 0x1000000000 + u / 4096;
    RemainderIs(w / 4096, q, u / 4096);
  }

  /** Page i of a range in the lower half is seen by its own space only. */
  lemma LowerPage(r: int, v: nat, size: nat, i: nat, x: int, w: nat)
    requires v + size <= LOWER_HALF && i < PageCount(v, size)
    ensures Affects(r, PageAddr(v, i), x, w) <==> x == r && Walked(w) / 4096 == v / 4096 + i
  {
    LowerIndex(v, size, i);
    PageNumber(w);
    PageNumber(PageAddr(v, i));
    WalkedWhole(PageAddr(v, i));
  }

  /** Nothing but the covered pages of one space is mapped differently; bits above 47 of an address
      do not matter to a walk. */
  ghost predicate MapsElsewhere(s: System, s': System, r: int, p: Phdr) {
    forall x, w: nat | IsRoot(s, x) && !(x == r && Covers(p, Walked(w))) ::
      Lookup(s'.phys.memory, x, 4, w) == Lookup(s.phys.memory, x, 4, w)
  }

  lemma OffsetPage(v: nat, base: nat, a: nat)
    requires base == PageStart(v) && base <= a
    ensures a / 4096 == v / 4096 + (a - base) / 4096
  {
  }

  lemma RangeAt(s: System, s': System, r: int, p: Phdr, fs: seq<int>, base: nat, a: nat, i: nat)
    requires IsRoot(s, r) && p.vaddr + p.memsz <= LOWER_HALF && base == PageStart(p.vaddr)
    requires RangeDone(s, s', r, p.vaddr, PERM, fs) == true && |fs| == PageCount(p.vaddr, p.memsz)
    requires base <= a && i == (a - base) / 4096 && i < |fs|
    ensures MapsTo(s'.phys.memory, r, a, fs[i]) == true
  {
    OffsetPage(p.vaddr, base, a);
    LowerPage(r, p.vaddr, p.memsz, i, r, a);
    OnLowerPage(p.vaddr, p.memsz, i, a);
    WalkedWhole(a);
  }

  lemma OnLowerPage(v: nat, size: nat, i: nat, a: nat)
    requires v + size <= LOWER_HALF && i < PageCount(v, size) && a / 4096 == v / 4096 + i
    ensures a < ADDRESSES
  {
  }

  lemma InWindow(base: nat, n: nat, a: nat)
    requires base <= a < base + n * 4096
    ensures (a - base) / 4096 < n
  {
  }

  lemma StartsPage(v: nat)
    ensures PageStart(v) % 4096 == 0
  {
  }

  lemma WindowFrom(t: Memory, r: int, base: nat, fs: seq<int>)
    requires base % 4096 == 0
    requires forall a: nat, i: nat | base <= a && i == (a - base) / 4096 && i < |fs| :: MapsTo(t, r, a, fs[i])
    ensures Window(t, r, base, fs) == true
  {
    forall a: nat | base <= a < base + |fs| * 4096 ensures WindowMaps(t, r, base, fs, a) {
      InWindow(base, |fs|, a);
    }
  }

  lemma RangeWindow(s: System, s': System, r: int, p: Phdr, fs: seq<int>, base: nat)
    requires IsRoot(s, r) && p.vaddr + p.memsz <= LOWER_HALF && base == PageStart(p.vaddr)
    requires RangeDone(s, s', r, p.vaddr, PERM, fs) == true && |fs| == PageCount(p.vaddr, p.memsz)
    ensures Window(s'.phys.memory, r, base, fs) == true
  {
    forall a: nat, i: nat | base <= a && i == (a - base) / 4096 && i < |fs|
      ensures MapsTo(s'.phys.memory, r, a, fs[i]) == true
    {
      RangeAt(s, s', r, p, fs, base, a, i);
    }
    StartsPage(p.vaddr);
    WindowFrom(s'.phys.memory, r, base, fs);
  }

  lemma RangeElsewhere(s: System, s': System, r: int, p: Phdr, fs: seq<int>)
    requires p.kind == PT_LOAD && p.vaddr + p.memsz <= LOWER_HALF
    requires RangeDone(s, s', r, p.vaddr, PERM, fs) == true && |fs| == PageCount(p.vaddr, p.memsz)
    ensures MapsElsewhere(s, s', r, p) == true
  {
    forall x, w: nat | IsRoot(s, x) && !(x == r && Covers(p, Walked(w)))
      ensures Lookup(s'.phys.memory, x, 4, w) == Lookup(s.phys.memory, x, 4, w)
    {
      forall i: nat | i < |fs| ensures !Affects(r, PageAddr(p.vaddr, i), x, w) {
        LowerPage(r, p.vaddr, p.memsz, i, x, w);
      }
    }
  }

  /** A segment load_elf can place: it lies in the file and in the lower half, it needs no more
      bytes than it reserves, and if it reserves none it starts a page. */
  predicate WellFormed(p: Phdr, file: seq<Byte>) {
    p.kind == PT_LOAD ==>
      && p.filesz <= p.memsz && p.offset + p.filesz <= |file| && p.vaddr + p.memsz <= LOWER_HALF
      && (p.memsz == 0 ==> p.vaddr % 4096 == 0)
  }

  /** Frames that are always enough for a segment: four for each of its pages. */
  function SegmentFrames(p: Phdr): nat {
    if p.kind == PT_LOAD then 4 * PageCount(p.vaddr, p.memsz) else 0
  }

  /** What handling one program header leaves behind. */
  ghost predicate SegmentLoaded(s: System, s': System, r: int, p: Phdr, file: seq<Byte>) {
    && Valid(s') && SameRoots(s, s') && DataKept(s, s')
    && |FreeFrames(s'.phys.regions)| >= |FreeFrames(s.phys.regions)| - SegmentFrames(p)
    && MapsElsewhere(s, s', r, p) && TablesMade(s, s', 7)
    && (forall a: nat | Covers(p, a) :: Holds(s', r, a, ByteOf(p, file, a)))
  }

  /** The pages of a segment: zeros, the bytes of the file, zeros. */
  ghost function SegmentView(p: Phdr, file: seq<Byte>): (v: seq<Byte>)
    requires WellFormed(p, file) && p.kind == PT_LOAD
    ensures |v| == PageCount(p.vaddr, p.memsz) * 4096
  {
    var n, o := PageCount(p.vaddr, p.memsz), p.vaddr % 4096;
    Zeros(o) + file[p.offset..p.offset + p.filesz] + Zeros(n * 4096 - o - p.filesz)
  }

  lemma SegmentByte(p: Phdr, file: seq<Byte>, base: nat, a: nat)
    requires WellFormed(p, file) && Covers(p, a) && base == PageStart(p.vaddr)
    ensures base <= a < base + PageCount(p.vaddr, p.memsz) * 4096
    ensures SegmentView(p, file)[a - base] == ByteOf(p, file, a)
  {
    assert base / 4096 == p.vaddr / 4096 && base % 4096 == 0;
    assert base <= a;
    OffsetPage(p.vaddr, base, a);
  }

  lemma HoldsThrough(s: System, r: int, base: nat, fs: seq<int>, a: nat)
    requires Backed(s, r, base, fs) && base <= a < base + |fs| * 4096
    requires forall i | 0 <= i < |fs| :: !IsFree(s.phys.regions, fs[i])
    ensures Holds(s, r, a, View(s.phys.memory, fs)[a - base]) == true
  {
    WindowAt(s.phys.memory, r, base, fs, a);
  }

  /** Bytes written into frames that are no tables leave the tables as they were made. */
  lemma TablesStay(s: System, s1: System, s2: System, r: int, base: nat, fs: seq<int>)
    requires TablesMade(s, s1, 7) && Stored(s1, s2, fs) && Backed(s2, r, base, fs)
    ensures TablesMade(s, s2, 7) == true
  {
    forall f, i | f in s2.places && 0 <= i < 512 && Level(s2.places[f]) > 1 ensures EntryMade(s, s2, f, i, 7) {
      assert EntryMade(s, s1, f, i, 7);
      assert f !in fs;
    }
  }

  lemma WritesKept(s: System, s1: System, s2: System, fs: seq<int>)
    requires DataKept(s, s1) && forall i | 0 <= i < |fs| :: IsFree(s.phys.regions, fs[i])
    requires Stored(s1, s2, fs)
    ensures DataKept(s, s2) == true
  {
  }

  lemma SegmentHolds(s: System, r: int, p: Phdr, file: seq<Byte>, fs: seq<int>, base: nat)
    requires WellFormed(p, file) && p.kind == PT_LOAD && |fs| == PageCount(p.vaddr, p.memsz) && base == PageStart(p.vaddr)
    requires Backed(s, r, base, fs) == true && View(s.phys.memory, fs) == SegmentView(p, file)
    requires forall i | 0 <= i < |fs| :: !IsFree(s.phys.regions, fs[i])
    ensures forall a: nat | Covers(p, a) :: Holds(s, r, a, ByteOf(p, file, a)) == true
  {
    forall a: nat | Covers(p, a) ensures Holds(s, r, a, ByteOf(p, file, a)) == true {
      SegmentByte(p, file, base, a);
      HoldsThrough(s, r, base, fs, a);
    }
  }

  lemma StoredElsewhere(s: System, s1: System, s2: System, r: int, p: Phdr, fs: seq<int>)
    requires MapsElsewhere(s, s1, r, p) && SameRoots(s, s1) && Stored(s1, s2, fs)
    ensures MapsElsewhere(s, s2, r, p) == true && SameRoots(s, s2) == true
  {
  }

  /** What the writes into fresh frames leave of what map_range has done. */
  lemma SegmentDone(s: System, s1: System, s2: System, r: int, p: Phdr, file: seq<Byte>, fs: seq<int>)
    requires WellFormed(p, file) && p.kind == PT_LOAD && IsRoot(s, r)
    requires RangeDone(s, s1, r, p.vaddr, PERM, fs) == true && |fs| == PageCount(p.vaddr, p.memsz)
    requires Stored(s1, s2, fs) == true && Backed(s2, r, PageStart(p.vaddr), fs) == true
    requires View(s2.phys.memory, fs) == SegmentView(p, file)
    ensures SegmentLoaded(s, s2, r, p, file) == true
  {
    RangeElsewhere(s, s1, r, p, fs);
    StoredElsewhere(s, s1, s2, r, p, fs);
    WritesKept(s, s1, s2, fs);
    TablesStay(s, s1, s2, r, PageStart(p.vaddr), fs);
    SegmentHolds(s2, r, p, file, fs, PageStart(p.vaddr));
  }

  lemma ZerosOverZeros(n: nat, o: nat, k: nat)
    requires o + k <= n
    ensures Overwrite(Zeros(n), o, Zeros(k)) == Zeros(n)
  {
  }

  lemma ZerosAfter(n: nat, o: nat, bytes: seq<Byte>, k: nat)
    requires o + |bytes| + k <= n
    ensures Overwrite(Overwrite(Zeros(n), o, bytes), o + |bytes|, Zeros(k)) == Overwrite(Zeros(n), o, bytes)
  {
  }

  lemma BytesAmongZeros(n: nat, o: nat, bytes: seq<Byte>)
    requires o + |bytes| <= n
    ensures Overwrite(Zeros(n), o, bytes) == Zeros(o) + bytes + Zeros(n - o - |bytes|)
  {
  }

  /** What clearing the tail adds to a copy among zeros is the view of the segment. */
  lemma TailMakesView(p: Phdr, file: seq<Byte>, n: nat, o: nat, bytes: seq<Byte>, v: seq<Byte>)
    requires WellFormed(p, file) && p.kind == PT_LOAD && n == PageCount(p.vaddr, p.memsz) * 4096 && o == p.vaddr % 4096
    requires bytes == file[p.offset..p.offset + p.filesz] && o + p.memsz <= n
    requires v == Overwrite(Overwrite(Zeros(n), o, bytes), o + |bytes|, Zeros(p.memsz - p.filesz))
    ensures v == SegmentView(p, file)
  {
    ZerosAfter(n, o, bytes, p.memsz - p.filesz);
    BytesAmongZeros(n, o, bytes);
  }

  /** The frames map_range has taken can be written through the tables. */
  lemma FreshBacked(s: System, s1: System, r: int, p: Phdr, fs: seq<int>)
    requires IsRoot(s, r) && p.vaddr + p.memsz <= LOWER_HALF
    requires RangeDone(s, s1, r, p.vaddr, PERM, fs) == true && |fs| == PageCount(p.vaddr, p.memsz)
    ensures Backed(s1, r, PageStart(p.vaddr), fs) == true
    ensures View(s1.phys.memory, fs) == Zeros(|fs| * 4096)
  {
    RangeWindow(s, s1, r, p, fs, PageStart(p.vaddr));
  }

  /** No page of the segment lies in a large page. */
  ghost predicate SmallPages(s: System, r: int, p: Phdr) {
    forall a: nat | Covers(p, a) :: NoLargePage(s.phys.memory, r, 4, a)
  }

  lemma SegmentEnabled(s: System, r: int, p: Phdr, file: seq<Byte>)
    requires Valid(s) && IsRoot(s, r) && p.kind == PT_LOAD && WellFormed(p, file) && SmallPages(s, r, p)
    requires |FreeFrames(s.phys.regions)| >= SegmentFrames(p)
    ensures RangeEnabled(s, r, p.vaddr, PERM, PageCount(p.vaddr, p.memsz)) == true
  {
    var n := PageCount(p.vaddr, p.memsz);
    forall i: nat | i < n
      ensures CanShare(s, r, PageAddr(p.vaddr, i)) && NoLargePage(s.phys.memory, r, 4, PageAddr(p.vaddr, i))
    {
      LowerIndex(p.vaddr, p.memsz, i);
      assert Covers(p, PageAddr(p.vaddr, i));
    }
    assert n <= 0x1000000000;
    EnoughFrames(s, r, p.vaddr, PERM, n);
  }

  /** The body of the loop of load_elf for a loadable segment. */
  method LoadSegment(mmu: Mmu.Mmu, cr3: int, p: Phdr, file: seq<Byte>)
    requires Valid(mmu.State()) && IsRoot(mmu.State(), cr3) && p.kind == PT_LOAD && WellFormed(p, file)
    requires |FreeFrames(mmu.frames.regions)| >= SegmentFrames(p) && SmallPages(mmu.State(), cr3, p)
    modifies mmu, mmu.frames
    ensures SegmentLoaded(old(mmu.State()), mmu.State(), cr3, p, file) == true
  {
    ghost var s, n := mmu.State(), PageCount(p.vaddr, p.memsz);
    SegmentEnabled(s, cr3, p, file);
    var err := mmu.MapRange(cr3, p.vaddr, PERM, p.memsz);
    ghost var fs, s1 := MapPages(s, cr3, p.vaddr, PERM, n).0, mmu.State();
    FreshBacked(s, s1, cr3, p, fs);
    WriteSegment(mmu, cr3, p, file, fs);
    SegmentDone(s, s1, mmu.State(), cr3, p, file, fs);
  }

  lemma SegmentFits(p: Phdr, base: nat)
    requires base == PageStart(p.vaddr) && (p.memsz == 0 ==> p.vaddr % 4096 == 0)
    ensures p.vaddr + p.memsz <= base + PageCount(p.vaddr, p.memsz) * 4096
    ensures p.vaddr - base == p.vaddr % 4096 && base + (p.memsz + p.vaddr % 4096) == p.vaddr + p.memsz
  {
  }

  method ZeroTail(mmu: Mmu.Mmu, cr3: int, p: Phdr, ghost base: nat, ghost fs: seq<int>)
    requires Backed(mmu.State(), cr3, base, fs) == true
    requires base == PageStart(p.vaddr) && p.filesz <= p.memsz && p.vaddr + p.memsz <= base + |fs| * 4096
    modifies mmu`memory
    ensures Backed(mmu.State(), cr3, base, fs) == true && Stored(old(mmu.State()), mmu.State(), fs) == true
    ensures View(mmu.memory, fs) ==
            Overwrite(old(View(mmu.memory, fs)), p.vaddr % 4096 + p.filesz, Zeros(p.memsz - p.filesz))
  {
    StoredNone(mmu.State(), fs);
    if p.memsz > p.filesz {
      MemZero(mmu, cr3, p.vaddr + p.filesz, p.memsz - p.filesz, base, fs);
    }
  }

  /** The pages cleared once more, then the bytes of the file. */
  method ZeroAndCopy(mmu: Mmu.Mmu, cr3: int, vaddr: nat, memsz: nat, bytes: seq<Byte>, ghost n: nat, ghost fs: seq<int>)
    requires Backed(mmu.State(), cr3, PageStart(vaddr), fs) == true && n == |fs| * 4096
    requires View(mmu.memory, fs) == Zeros(n) && |bytes| <= memsz && vaddr % 4096 + memsz <= n
    modifies mmu`memory
    ensures Backed(mmu.State(), cr3, PageStart(vaddr), fs) == true && Stored(old(mmu.State()), mmu.State(), fs) == true
    ensures View(mmu.memory, fs) == Overwrite(Zeros(n), vaddr % 4096, bytes)
  {
    var base := PageStart(vaddr);
    ghost var s0 := mmu.State();
    MemZero(mmu, cr3, base, memsz + vaddr % 4096, base, fs);
    ghost var s1 := mmu.State();
    ZerosOverZeros(n, 0, memsz + vaddr % 4096);
    assert View(mmu.memory, fs) == Zeros(n);
    MemCpy(mmu, cr3, vaddr, bytes, base, fs);
    StoredTransitive(s0, s1, mmu.State(), fs);
  }

  method WriteSegment(mmu: Mmu.Mmu, cr3: int, p: Phdr, file: seq<Byte>, ghost fs: seq<int>)
    requires p.kind == PT_LOAD && WellFormed(p, file) && |fs| == PageCount(p.vaddr, p.memsz)
    requires Backed(mmu.State(), cr3, PageStart(p.vaddr), fs) == true
    requires View(mmu.memory, fs) == Zeros(|fs| * 4096)
    modifies mmu`memory
    ensures Backed(mmu.State(), cr3, PageStart(p.vaddr), fs) == true
    ensures View(mmu.memory, fs) == SegmentView(p, file) && Stored(old(mmu.State()), mmu.State(), fs) == true
  {
    ghost var n, s0 := |fs| * 4096, mmu.State();
    SegmentFits(p, PageStart(p.vaddr));
    var bytes := file[p.offset..p.offset + p.filesz];
    ZeroAndCopy(mmu, cr3, p.vaddr, p.memsz, bytes, n, fs);
    ghost var s1 := mmu.State();
    ZeroTail(mmu, cr3, p, PageStart(p.vaddr), fs);
    StoredTransitive(s0, s1, mmu.State(), fs);
    TailMakesView(p, file, n, p.vaddr % 4096, bytes, View(mmu.memory, fs));
  }

  function FramesFor(ps: seq<Phdr>): nat {
    if ps == [] then 0 else FramesFor(ps[..|ps| - 1]) + SegmentFrames(ps[|ps| - 1])
  }

  lemma {:induction false} FramesForPrefix(ps: seq<Phdr>, i: nat)
    requires i < |ps|
    ensures FramesFor(ps[..i]) + SegmentFrames(ps[i]) <= FramesFor(ps)
  {
    if i < |ps| - 1 {
      FramesForPrefix(ps[..|ps| - 1], i);
      assert ps[..|ps| - 1][..i] == ps[..i];
    }
  }

  /** What the program headers ps have made of s: each covered byte comes from the last segment
      covering it and is read from a frame that is no table; no other address of any space is
      mapped differently, no frame that was in use and no table has lost a byte, and table entries
      that were made have permissions 7 at every level. */
  ghost predicate Loaded(s: System, s': System, r: int, ps: seq<Phdr>, file: seq<Byte>) {
    && Valid(s') && SameRoots(s, s') && DataKept(s, s') && TablesMade(s, s', 7)
    && |FreeFrames(s'.phys.regions)| >= |FreeFrames(s.phys.regions)| - FramesFor(ps)
    && (forall x, w: nat | IsRoot(s, x) && !(x == r && LastCover(ps, Walked(w)).Some?) ::
          Lookup(s'.phys.memory, x, 4, w) == Lookup(s.phys.memory, x, 4, w))
    && (forall a: nat | a < ADDRESSES && LastCover(ps, a).Some? ::
          Holds(s', r, a, ByteOf(LastCover(ps, a).value, file, a)))
  }

  lemma LoadedMore(s: System, s1: System, s2: System, r: int, ps: seq<Phdr>, p: Phdr, file: seq<Byte>)
    requires IsRoot(s, r) && Loaded(s, s1, r, ps, file) && SegmentLoaded(s1, s2, r, p, file)
    ensures Loaded(s, s2, r, ps + [p], file)
  {
    var ps' := ps + [p];
    assert ps'[..|ps'| - 1] == ps;
    DataKeptTransitive(s, s1, s2);
    TablesMadeTransitive(s, s1, s2, 7);
    forall a: nat | a < ADDRESSES && LastCover(ps', a).Some?
      ensures Holds(s2, r, a, ByteOf(LastCover(ps', a).value, file, a))
    {
      if !Covers(p, a) { HoldsKept(s1, s2, r, p, a, ByteOf(LastCover(ps, a).value, file, a)); }
    }
  }

  lemma HoldsKept(s1: System, s2: System, r: int, p: Phdr, a: nat, b: Byte)
    requires IsRoot(s1, r) && Holds(s1, r, a, b) == true && DataKept(s1, s2) && MapsElsewhere(s1, s2, r, p) == true
    requires a < ADDRESSES && !Covers(p, a)
    ensures Holds(s2, r, a, b) == true
  {
    ElsewhereAt(s1, s2, r, p, a);
    HoldsSame(s1, s2, r, a, b);
  }

  lemma ElsewhereAt(s1: System, s2: System, r: int, p: Phdr, a: nat)
    requires IsRoot(s1, r) && MapsElsewhere(s1, s2, r, p) && a < ADDRESSES && !Covers(p, a)
    ensures Lookup(s2.phys.memory, r, 4, a) == Lookup(s1.phys.memory, r, 4, a)
  {
    WalkedWhole(a);
  }

  lemma HoldsSame(s1: System, s2: System, r: int, a: nat, b: Byte)
    requires Holds(s1, r, a, b) && DataKept(s1, s2)
    requires Lookup(s2.phys.memory, r, 4, a) == Lookup(s1.phys.memory, r, 4, a)
    ensures Holds(s2, r, a, b) == true
  {
  }

  lemma HoldsSmall(s: System, r: int, a: nat, b: Byte)
    requires Holds(s, r, a, b)
    ensures NoLargePage(s.phys.memory, r, 4, a) == true
  {
  }

  lemma {:induction false} LoadedHolds(s: System, s': System, r: int, ps: seq<Phdr>, file: seq<Byte>, a: nat)
    requires Loaded(s, s', r, ps, file) && a < ADDRESSES && LastCover(ps, a).Some?
    ensures Holds(s', r, a, ByteOf(LastCover(ps, a).value, file, a)) == true
  {
  }

  lemma {:induction false} LoadedKeeps(s: System, s': System, r: int, ps: seq<Phdr>, file: seq<Byte>, a: nat)
    requires IsRoot(s, r) && Loaded(s, s', r, ps, file) && a < ADDRESSES && LastCover(ps, a).None?
    ensures Lookup(s'.phys.memory, r, 4, a) == Lookup(s.phys.memory, r, 4, a)
  {
    WalkedWhole(a);
  }

  /** Segments loaded before put no large page in the way. */
  lemma {:induction false} StillSmallPages(s: System, s1: System, r: int, ps: seq<Phdr>, p: Phdr, file: seq<Byte>)
    requires IsRoot(s, r) && Loaded(s, s1, r, ps, file) == true && SmallPages(s, r, p) && WellFormed(p, file)
    ensures SmallPages(s1, r, p) == true
  {
    forall a: nat | Covers(p, a) ensures NoLargePage(s1.phys.memory, r, 4, a) {
      assert NoLargePage(s.phys.memory, r, 4, a);
      StillSmallAt(s, s1, r, ps, p, file, a);
    }
  }

  lemma {:induction false} StillSmallAt(s: System, s1: System, r: int, ps: seq<Phdr>, p: Phdr, file: seq<Byte>, a: nat)
    requires IsRoot(s, r) && Loaded(s, s1, r, ps, file) == true && WellFormed(p, file) && Covers(p, a)
    requires NoLargePage(s.phys.memory, r, 4, a) == true
    ensures NoLargePage(s1.phys.memory, r, 4, a) == true
  {
    CoveredLower(p, a);
    if LastCover(ps, a).Some? {
      LoadedHolds(s, s1, r, ps, file, a);
      HoldsSmall(s1, r, a, ByteOf(LastCover(ps, a).value, file, a));
    } else {
      LoadedKeeps(s, s1, r, ps, file, a);
    }
  }

  lemma CoveredLower(p: Phdr, a: nat)
    requires Covers(p, a) && p.vaddr + p.memsz <= LOWER_HALF
    ensures a < ADDRESSES
  {
  }

  lemma SkippedLoaded(s: System, r: int, p: Phdr, file: seq<Byte>)
    requires Valid(s) && p.kind != PT_LOAD
    ensures SegmentLoaded(s, s, r, p, file)
  {
  }

  /** One turn of the loop of load_elf. */
  method LoadHeader(mmu: Mmu.Mmu, cr3: int, p: Phdr, file: seq<Byte>, ghost s: System, ghost done: seq<Phdr>)
    requires Loaded(s, mmu.State(), cr3, done, file) == true && IsRoot(s, cr3) && SmallPages(s, cr3, p) == true
    requires WellFormed(p, file) && |FreeFrames(s.phys.regions)| >= FramesFor(done) + SegmentFrames(p)
    modifies mmu, mmu.frames
    ensures Loaded(s, mmu.State(), cr3, done + [p], file) == true
  {
    ghost var s1 := mmu.State();
    if p.kind == PT_LOAD {
      StillSmallPages(s, s1, cr3, done, p, file);
      LoadSegment(mmu, cr3, p, file);
    } else {
      SkippedLoaded(s1, cr3, p, file);
    }
    LoadedMore(s, s1, mmu.State(), cr3, done, p, file);
  }

  /** load_elf. */
  method LoadElf(mmu: Mmu.Mmu, cr3: int, ps: seq<Phdr>, entry: nat, file: seq<Byte>) returns (start: nat)
    requires Valid(mmu.State()) && IsRoot(mmu.State(), cr3)
    requires forall p | p in ps :: WellFormed(p, file)
    requires |FreeFrames(mmu.frames.regions)| >= FramesFor(ps)
    requires forall p | p in ps :: SmallPages(mmu.State(), cr3, p)
    modifies mmu, mmu.frames
    ensures start == entry && Loaded(old(mmu.State()), mmu.State(), cr3, ps, file) == true
  {
    ghost var s := mmu.State();
    var i := 0;
    assert ps[..0] == [] && Loaded(s, s, cr3, [], file);
    while i < |ps|
      invariant i <= |ps| && Loaded(s, mmu.State(), cr3, ps[..i], file) == true
    {
      FramesForPrefix(ps, i);
      assert ps[i] in ps && ps[..i] + [ps[i]] == ps[..i + 1];
      LoadHeader(mmu, cr3, ps[i], file, s, ps[..i]);
      i := i + 1;
    }
    assert ps[..i] == ps;
    return entry;
  }

  /** LastCover is the covering segment that no later one covers. */
  lemma {:induction false} LastCoverIs(ps: seq<Phdr>, a: nat, j: nat)
    requires j < |ps| && Covers(ps[j], a) && forall k | j < k < |ps| :: !Covers(ps[k], a)
    ensures LastCover(ps, a) == Some(ps[j])
  {
    if j < |ps| - 1 {
      LastCoverIs(ps[..|ps| - 1], a, j);
    }
  }

  /** With segments on pages of their own, every byte of every segment is its file byte, or zero
      past its file part. */
  lemma OwnPagesReadBack(s: System, s': System, r: int, ps: seq<Phdr>, file: seq<Byte>, i: nat, k: nat)
    requires Loaded(s, s', r, ps, file) == true
    requires forall j, l, b: nat | 0 <= j < l < |ps| && Covers(ps[j], b) :: !Covers(ps[l], b)
    requires i < |ps| && ps[i].kind == PT_LOAD && WellFormed(ps[i], file) && k < ps[i].memsz
    ensures Holds(s', r, ps[i].vaddr + k, if k < ps[i].filesz then file[ps[i].offset + k] else 0) == true
  {
    var a := ps[i].vaddr + k;
    var page := RangeCovers(ps[i].vaddr, ps[i].memsz, a);
    assert Covers(ps[i], a);
    LastCoverIs(ps, a, i);
    LoadedHolds(s, s', r, ps, file, a);
  }

  /** Every covered address of a space that was empty there can be read, written and run by user
      code: all four entries of its walk have permissions 7. */
  lemma {:induction false} LoadedForUser(s: System, s': System, r: int, ps: seq<Phdr>, file: seq<Byte>, a: nat)
    requires Valid(s) && IsRoot(s, r) && Loaded(s, s', r, ps, file) == true && a < ADDRESSES && LastCover(ps, a).Some?
    ensures WalkMade(s, s', r, a, 7) == true && WalkEntry(s'.phys.memory, r, a, 1).flags == 7
    ensures !Present(Entry(s.phys.memory, r, Index(a, 4))) ==> WalkHas(s'.phys.memory, r, a, 1, 7)
  {
    LoadedHolds(s, s', r, ps, file, a);
    LeafForUser(s', r, a, ByteOf(LastCover(ps, a).value, file, a));
    WalkIsMade(s, s', r, a, 7);
    if !Present(Entry(s.phys.memory, r, Index(a, 4))) {
      NewWalkHas(s, s', r, a, 7);
    }
  }

  lemma LeafForUser(s: System, r: int, a: nat, b: Byte)
    requires Holds(s, r, a, b)
    ensures Small(s.phys.memory, r, a) && WalkEntry(s.phys.memory, r, a, 1).flags == 7
  {
    SmallWalk(s.phys.memory, r, a);
  }

  /** A segment keeps its byte at a, whatever the file holds, exactly if the last segment on that
      page takes the byte from the same place. */
  lemma KeepsByteIff(ps: seq<Phdr>, i: nat, a: nat, size: nat)
    requires i < |ps| && Covers(ps[i], a) && LastCover(ps, a).Some?
    requires forall p | p in ps && Source(p, a).Some? :: Source(p, a).value < size
    ensures (forall file: seq<Byte> | |file| == size :: ByteOf(LastCover(ps, a).value, file, a) == ByteOf(ps[i], file, a))
            <==> Source(LastCover(ps, a).value, a) == Source(ps[i], a)
  {
    var p, q := ps[i], LastCover(ps, a).value;
    LastCoverIn(ps, a);
    if Source(p, a) != Source(q, a) {
      var ones := (o: nat) => if Source(p, a) == Some(o) then 1 as Byte else 0;
      var file := seq(size, ones);
      assert ByteOf(p, file, a) != ByteOf(q, file, a) || Source(p, a).None?;
      var file' := seq(size, (o: nat) => if Source(q, a) == Some(o) then 1 as Byte else 0);
      assert ByteOf(p, file', a) != ByteOf(q, file', a) || Source(q, a).None?;
    }
  }

  lemma {:induction false} LastCoverIn(ps: seq<Phdr>, a: nat)
    requires LastCover(ps, a).Some?
    ensures LastCover(ps, a).value in ps
  {
    if !Covers(ps[|ps| - 1], a) { LastCoverIn(ps[..|ps| - 1], a); }
  }

  /** Two segments on one page: the first byte of the first reads as zero, not as 7. */
  lemma SharedPageLoses()
    ensures var ps, file := [Phdr(1, 0, 0x1000, 1, 1), Phdr(1, 1, 0x1800, 1, 1)], [7 as Byte, 9];
      && (forall p | p in ps :: WellFormed(p, file))
      && LastCover(ps, 0x1000) == Some(ps[1]) && ByteOf(ps[0], file, 0x1000) == 7 && ByteOf(ps[1], file, 0x1000) == 0
  {
  }
}
