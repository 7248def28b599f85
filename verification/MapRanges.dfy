/** map_range and change_page_map_range: the pages that meet a byte range, one after the other. */
module MapRanges {
  import opened Options
  import opened Frames
  import opened PageTables
  import opened Paging

  /** How many pages map_range visits, with the three cases the C code tells apart. */
  function PageCount(v: nat, size: nat): nat {
    if size == 0 then 0
    else
      var total := size + v % 4096;
      if total <= 4096 then 1
      else if total % 4096 == 0 then total / 4096
      else total / 4096 + 1
  }

  /** The k-th page from the one of v on holds a byte of [v, v + size). */
  ghost predicate Meets(v: nat, size: nat, k: nat) {
    exists a: nat :: v <= a < v + size && a / 4096 == v / 4096 + k
  }

  /** They are exactly the pages that meet [v, v + size). */
  lemma PageCountCovers(v: nat, size: nat, k: nat)
    ensures k < PageCount(v, size) <==> Meets(v, size, k)
  {
    var first := v / 4096 + k;
    if k < PageCount(v, size) {
      var a := if k == 0 then v else first * 4096;
      assert v <= a < v + size && a / 4096 == first;
    }
  }

  /** n is the number of pages that meet the range. */
  ghost predicate CountsPages(v: nat, size: nat, n: nat) {
    forall k: nat :: k < n <==> Meets(v, size, k)
  }

  lemma PageCountCounts(v: nat, size: nat, n: nat)
    ensures CountsPages(v, size, n) <==> n == PageCount(v, size)
  {
    var m := PageCount(v, size);
    forall k: nat ensures k < m <==> Meets(v, size, k) {
      PageCountCovers(v, size, k);
    }
    assert n < m ==> Meets(v, size, n);
    assert m < n ==> !Meets(v, size, m);
  }

  /** The i-th address map_range passes to map_page. */
  function PageAddr(v: nat, i: nat): nat {
    v + i * 4096
  }

  lemma DistinctPages(v: nat, i: nat, j: nat)
    requires i < j < 0x1000000000
    ensures Page(PageAddr(v, i)) != Page(PageAddr(v, j))
  {
    assert PageAddr(v, i) / 0x1000 == v / 0x1000 + i;
    assert PageAddr(v, j) / 0x1000 == v / 0x1000 + j;
    var x, d := v / 0x1000 + i, j - i;
    assert (x + d) % 0x1000000000 != x % 0x1000000000;
  }

  /** One turn of the loop: take a zeroed frame and map the page to it. */
  ghost predicate CanMapFresh(s: System, r: int, v: nat, perm: bv12) {
    Valid(s) && Alloc(s.phys.regions).0 != 0 && CanMap(s.(phys := AllocZeroed(s.phys).1), r, v, perm)
  }

  lemma AllocKept(s: System)
    requires Valid(s) && Alloc(s.phys.regions).0 != 0
    ensures var (a, m) := AllocZeroed(s.phys);
      && Valid(s.(phys := m)) == true && Kept(s, s.(phys := m), 1) == true
      && IsFree(s.phys.regions, a) && !IsFree(m.regions, a) && a !in s.places && a in m.memory && m.memory[a] == Cleared
      && (forall f, i | f in s.places :: Entry(m.memory, f, i) == Entry(s.phys.memory, f, i))
  {
    AllocTakesFree(s.phys.regions);
    var (a, m) := AllocZeroed(s.phys);
    assert AreFree(FreeFrames(s.phys.regions), s.phys.regions) && AreFree(FreeFrames(m.regions), m.regions);
    assert a !in s.places;
    OutsidePlaced(s.phys.memory, s.places, a, Cleared);
    OutsideKept(s, s.(phys := m), a);
  }

  lemma OutsideKept(s: System, s': System, a: int)
    requires Valid(s) && a !in s.places && IsFree(s.phys.regions, a)
    requires s'.places == s.places && s'.phys.memory == s.phys.memory[a := Cleared]
    requires FreeFrames(s'.phys.regions) == FreeFrames(s.phys.regions) - {a}
    requires AreFree(FreeFrames(s.phys.regions), s.phys.regions) && AreFree(FreeFrames(s'.phys.regions), s'.phys.regions)
    ensures Kept(s, s', 1) == true
    ensures forall f, i | f in s.places :: Entry(s'.phys.memory, f, i) == Entry(s.phys.memory, f, i)
  {
    var t, t' := s.phys.memory, s'.phys.memory;
    forall r, v: nat | IsRoot(s, r) ensures Lookup(t', r, 4, v) == Lookup(t, r, 4, v) {
      LookupOutside(t, s.places, r, 4, v, a, Cleared);
    }
  }

  /** a is a zeroed frame, no table, taken by a turn from s to s' that maps the page of v to it. */
  ghost predicate PageBacked(s: System, s': System, r: int, v: nat, perm: bv12, a: int) {
    && PageMapped(s, s', r, v, Pte(a, perm), 4)
    && IsFree(s.phys.regions, a) && !IsFree(s'.phys.regions, a) && a !in s'.places
    && a in s'.phys.memory && s'.phys.memory[a] == Cleared
  }

  /** The same, and in the tables only the walk of v has changed, as map_page says. */
  ghost predicate FreshMapped(s: System, s': System, r: int, v: nat, perm: bv12, a: int) {
    && PageBacked(s, s', r, v, perm, a)
    && TablesMade(s, s', perm) && SlotsKept(s, s', WalkSlots(s'.phys.memory, r, v))
  }

  lemma KeptThenMapped(s: System, s1: System, s2: System, r: int, v: nat, leaf: Pte)
    requires Kept(s, s1, 1) && PageMapped(s1, s2, r, v, leaf, 3)
    ensures PageMapped(s, s2, r, v, leaf, 4)
  {
    DataKeptTransitive(s, s1, s2);
    PageSetAfterSame(s, s1, s2, r, v, Some(leaf));
  }

  lemma {:induction false} AllocThenMade(s: System, s1: System, s2: System, r: int, v: nat, perm: bv12)
    requires s1.places == s.places && forall f, i | f in s.places :: Entry(s1.phys.memory, f, i) == Entry(s.phys.memory, f, i)
    requires TablesMade(s1, s2, perm) && SlotsKept(s1, s2, WalkSlots(s2.phys.memory, r, v))
    ensures TablesMade(s, s2, perm) == true && SlotsKept(s, s2, WalkSlots(s2.phys.memory, r, v)) == true
  {
    forall f, i | f in s2.places && 0 <= i < 512 && Level(s2.places[f]) > 1 ensures EntryMade(s, s2, f, i, perm) {
      assert EntryMade(s1, s2, f, i, perm);
    }
  }

  /** A fresh zeroed frame now backs the page, and nothing else has changed. */
  ghost function MapFresh(s: System, r: int, v: nat, perm: bv12): (res: (int, System))
    requires CanMapFresh(s, r, v, perm) == true
    ensures FreshMapped(s, res.1, r, v, perm, res.0) == true
  {
    var (a, m) := AllocZeroed(s.phys);
    var s1 := s.(phys := m);
    AllocKept(s);
    MapPageMaps(s1, r, a, v, perm);
    KeptThenMapped(s, s1, MapPage(s1, r, a, v, perm), r, v, Pte(a, perm));
    AllocThenMade(s, s1, MapPage(s1, r, a, v, perm), r, v, perm);
    (a, MapPage(s1, r, a, v, perm))
  }

  /** w lies on one of the first n pages of the range, and space x sees what r maps there. */
  ghost predicate InRange(r: int, v: nat, n: nat, x: int, w: nat) {
    exists i: nat :: i < n && Affects(r, PageAddr(v, i), x, w)
  }

  /** The slots that the walks of the first n pages read. */
  ghost function RangeSlots(t: Memory, r: int, v: nat, n: nat): set<(int, int)>
    decreases n
  {
    if n == 0 then {} else RangeSlots(t, r, v, n - 1) + WalkSlots(t, r, PageAddr(v, n - 1))
  }

  lemma {:induction false} SameRangeSlots(t: Memory, t': Memory, r: int, v: nat, n: nat)
    requires forall i: nat | i < n :: WalkSlots(t', r, PageAddr(v, i)) == WalkSlots(t, r, PageAddr(v, i))
    ensures RangeSlots(t', r, v, n) == RangeSlots(t, r, v, n)
    decreases n
  {
    if n > 0 { SameRangeSlots(t, t', r, v, n - 1); }
  }

  /** What n turns of map_range leave behind: page i is backed by the i-th frame taken, and at most
      four frames are taken for each page. */
  ghost predicate RangeMapped(s: System, s': System, r: int, v: nat, perm: bv12, fs: seq<int>) {
    && Valid(s') && SameRoots(s, s') && TopsStay(s, s') && DataKept(s, s')
    && FreshFrames(s, s', fs) && FreeFrames(s'.phys.regions) <= FreeFrames(s.phys.regions)
    && |FreeFrames(s'.phys.regions)| >= |FreeFrames(s.phys.regions)| - 4 * |fs|
    && (forall x, w: nat, i: nat | IsRoot(s, x) && i < |fs| && Affects(r, PageAddr(v, i), x, w) ::
          Lookup(s'.phys.memory, x, 4, w) == Some(Leaf(Pte(fs[i], perm), 1)))
    && (forall x, w: nat | IsRoot(s, x) && !InRange(r, v, |fs|, x, w) ::
          Lookup(s'.phys.memory, x, 4, w) == Lookup(s.phys.memory, x, 4, w))
  }

  /** The frames are pairwise distinct, were free before, are in use now, are no tables and hold
      zeros. */
  ghost predicate FreshFrames(s: System, s': System, fs: seq<int>) {
    && (forall i | 0 <= i < |fs| ::
          && IsFree(s.phys.regions, fs[i]) && !IsFree(s'.phys.regions, fs[i]) && fs[i] !in s'.places
          && fs[i] in s'.phys.memory && s'.phys.memory[fs[i]] == Cleared)
    && (forall i, j | 0 <= i < j < |fs| :: fs[i] != fs[j])
  }

  /** The same, and in the tables only the walks of these pages have changed: entries that were
      missing are made with these permissions. */
  ghost predicate RangeDone(s: System, s': System, r: int, v: nat, perm: bv12, fs: seq<int>) {
    && RangeMapped(s, s', r, v, perm, fs)
    && TablesMade(s, s', perm) && SlotsKept(s, s', RangeSlots(s'.phys.memory, r, v, |fs|))
  }

  lemma {:induction false} RangeEmpty(s: System, r: int, v: nat, perm: bv12)
    requires Valid(s)
    ensures RangeDone(s, s, r, v, perm, [])
  {
  }

  lemma FreshFramesGrow(s: System, s1: System, s2: System, fs: seq<int>, a: int)
    requires FreshFrames(s, s1, fs) && DataKept(s1, s2) && DataKept(s, s1)
    requires IsFree(s1.phys.regions, a) && !IsFree(s2.phys.regions, a) && a !in s2.places
    requires a in s2.phys.memory && s2.phys.memory[a] == Cleared
    ensures FreshFrames(s, s2, fs + [a])
  {
    assert IsFree(s.phys.regions, a);
  }

  /** The walks of pages mapped before read the same slots. */
  lemma {:induction false} SlotsGrow(s: System, s1: System, s2: System, r: int, v: nat, perm: bv12, fs: seq<int>, n: nat)
    requires |fs| == n && RangeMapped(s, s1, r, v, perm, fs) == true && IsRoot(s, r)
    requires TablesMade(s, s1, perm) == true && SlotsKept(s, s1, RangeSlots(s1.phys.memory, r, v, n)) == true
    requires TablesMade(s1, s2, perm) == true && SlotsKept(s1, s2, WalkSlots(s2.phys.memory, r, PageAddr(v, n))) == true
    ensures TablesMade(s, s2, perm) == true && SlotsKept(s, s2, RangeSlots(s2.phys.memory, r, v, n + 1)) == true
  {
    TablesMadeTransitive(s, s1, s2, perm);
    forall i: nat | i < n
      ensures WalkSlots(s2.phys.memory, r, PageAddr(v, i)) == WalkSlots(s1.phys.memory, r, PageAddr(v, i))
    {
      assert Affects(r, PageAddr(v, i), r, PageAddr(v, i));
      SlotsStay(s1, s2, r, PageAddr(v, i), perm);
    }
    SameRangeSlots(s1.phys.memory, s2.phys.memory, r, v, n);
    SlotsKeptTransitive(s, s1, s2, RangeSlots(s1.phys.memory, r, v, n), WalkSlots(s2.phys.memory, r, PageAddr(v, n)));
  }

  lemma {:induction false} SlotsStay(s: System, s': System, r: int, v: nat, perm: bv12)
    requires Placed(s) && TablesMade(s, s', perm) && IsRoot(s, r) && Small(s.phys.memory, r, v)
    ensures WalkSlots(s'.phys.memory, r, v) == WalkSlots(s.phys.memory, r, v)
  {
    var t, t' := s.phys.memory, s'.phys.memory;
    SmallWalk(t, r, v);
    assert EntryMade(s, s', r, Index(v, 4), perm);
    assert EntryMade(s, s', WalkFrame(t, r, v, 3), Index(v, 3), perm);
    assert EntryMade(s, s', WalkFrame(t, r, v, 2), Index(v, 2), perm);
  }

  lemma {:induction false} RangeGrows(s: System, s1: System, s2: System, r: int, v: nat, perm: bv12, fs: seq<int>, a: int, n: nat)
    requires |fs| == n < 0x1000000000 && RangeDone(s, s1, r, v, perm, fs) == true
    requires FreshMapped(s1, s2, r, PageAddr(v, n), perm, a) == true && IsRoot(s, r)
    ensures RangeDone(s, s2, r, v, perm, fs + [a]) == true
  {
    DoneParts(s, s1, r, v, perm, fs, n);
    FreshParts(s1, s2, r, PageAddr(v, n), perm, a);
    SlotsGrow(s, s1, s2, r, v, perm, fs, n);
    RangeMappedGrows(s, s1, s2, r, v, perm, fs, a, n);
    DoneParts(s, s2, r, v, perm, fs + [a], n + 1);
  }

  lemma {:induction false} DoneParts(s: System, s': System, r: int, v: nat, perm: bv12, fs: seq<int>, n: nat)
    requires |fs| == n
    ensures RangeDone(s, s', r, v, perm, fs) <==>
      && RangeMapped(s, s', r, v, perm, fs) && TablesMade(s, s', perm)
      && SlotsKept(s, s', RangeSlots(s'.phys.memory, r, v, n))
  {
  }

  lemma {:induction false} FreshParts(s: System, s': System, r: int, v: nat, perm: bv12, a: int)
    requires FreshMapped(s, s', r, v, perm, a)
    ensures PageBacked(s, s', r, v, perm, a) == true
    ensures TablesMade(s, s', perm) == true && SlotsKept(s, s', WalkSlots(s'.phys.memory, r, v)) == true
  {
  }

  lemma {:induction false} RangeMappedGrows(s: System, s1: System, s2: System, r: int, v: nat, perm: bv12, fs: seq<int>, a: int, n: nat)
    requires |fs| == n < 0x1000000000 && RangeMapped(s, s1, r, v, perm, fs) == true
    requires PageBacked(s1, s2, r, PageAddr(v, n), perm, a) == true
    ensures RangeMapped(s, s2, r, v, perm, fs + [a]) == true
  {
    var fs' := fs + [a];
    FreshFramesGrow(s, s1, s2, fs, a);
    DataKeptTransitive(s, s1, s2);
    forall x, w: nat, i: nat | IsRoot(s, x) && i < |fs'| && Affects(r, PageAddr(v, i), x, w)
      ensures Lookup(s2.phys.memory, x, 4, w) == Some(Leaf(Pte(fs'[i], perm), 1))
    {
      if i < n { DistinctPages(v, i, n); }
    }
    forall x, w: nat | IsRoot(s, x) && !InRange(r, v, |fs'|, x, w)
      ensures Lookup(s2.phys.memory, x, 4, w) == Lookup(s.phys.memory, x, 4, w)
    {
      assert !Affects(r, PageAddr(v, n), x, w);
      assert !InRange(r, v, n, x, w);
    }
  }

  /** The frames taken and the state after n turns of map_range; a turn that lacks what it needs is
      skipped here. */
  ghost function MapPages(s: System, r: int, v: nat, perm: bv12, n: nat): (seq<int>, System)
    decreases n
  {
    if n == 0 then ([], s)
    else
      var (fs, s1) := MapPages(s, r, v, perm, n - 1);
      if CanMapFresh(s1, r, PageAddr(v, n - 1), perm) then
        var (a, s2) := MapFresh(s1, r, PageAddr(v, n - 1), perm);
        (fs + [a], s2)
      else (fs, s1)
  }

  /** Turn i finds what it needs. */
  ghost predicate TurnEnabled(s: System, r: int, v: nat, perm: bv12, i: nat) {
    CanMapFresh(MapPages(s, r, v, perm, i).1, r, PageAddr(v, i), perm)
  }

  ghost function Turns(s: System, r: int, v: nat, perm: bv12): nat -> bool {
    (i: nat) => TurnEnabled(s, r, v, perm, i)
  }

  ghost predicate AllBelow(p: nat -> bool, n: nat) {
    forall i: nat | i < n :: p(i)
  }

  lemma AllBelowNext(p: nat -> bool, n: nat)
    ensures AllBelow(p, n + 1) == (AllBelow(p, n) && p(n))
  {
  }

  /** Each of the first n turns finds what it needs. */
  ghost predicate RangeEnabled(s: System, r: int, v: nat, perm: bv12, n: nat) {
    Valid(s) && n <= 0x1000000000 && AllBelow(Turns(s, r, v, perm), n)
  }

  lemma {:induction false} TurnAt(s: System, r: int, v: nat, perm: bv12, n: nat, i: nat)
    requires i < n && AllBelow(Turns(s, r, v, perm), n)
    ensures TurnEnabled(s, r, v, perm, i) == true
  {
    assert Turns(s, r, v, perm)(i);
  }

  lemma {:induction false} NextTurn(s: System, r: int, v: nat, perm: bv12, i: nat, s1: System)
    requires TurnEnabled(s, r, v, perm, i) == true && s1 == MapPages(s, r, v, perm, i).1
    ensures CanMapFresh(s1, r, PageAddr(v, i), perm) == true
    ensures var (a, s2) := MapFresh(s1, r, PageAddr(v, i), perm);
      MapPages(s, r, v, perm, i + 1) == (MapPages(s, r, v, perm, i).0 + [a], s2)
  {
  }

  /** n turns are done as they should be. */
  ghost predicate TurnsDone(s: System, r: int, v: nat, perm: bv12, n: nat) {
    var (fs, s') := MapPages(s, r, v, perm, n);
    |fs| == n && RangeDone(s, s', r, v, perm, fs)
  }

  lemma {:induction false} OneMoreDone(s: System, r: int, v: nat, perm: bv12, n: nat)
    requires n < 0x1000000000 && TurnEnabled(s, r, v, perm, n) == true && TurnsDone(s, r, v, perm, n) && IsRoot(s, r)
    ensures TurnsDone(s, r, v, perm, n + 1) == true
  {
    var (fs, s1) := MapPages(s, r, v, perm, n);
    NextTurn(s, r, v, perm, n, s1);
    var (a, s2) := MapFresh(s1, r, PageAddr(v, n), perm);
    RangeGrows(s, s1, s2, r, v, perm, fs, a, n);
  }

  lemma {:induction false} NoneDone(s: System, r: int, v: nat, perm: bv12)
    requires Valid(s)
    ensures TurnsDone(s, r, v, perm, 0) == true
  {
    RangeEmpty(s, r, v, perm);
  }

  /** Where each turn finds what it needs, the pages of the range, and no others, end up mapped to
      pairwise distinct, previously free, zeroed frames that are no tables; all other translations
      of all spaces are kept. */
  lemma {:induction false} MapPagesMaps(s: System, r: int, v: nat, perm: bv12, n: nat)
    requires RangeEnabled(s, r, v, perm, n)
    ensures TurnsDone(s, r, v, perm, n) == true
    decreases n
  {
    if n == 0 {
      NoneDone(s, r, v, perm);
    } else {
      AllBelowNext(Turns(s, r, v, perm), n - 1);
      MapPagesMaps(s, r, v, perm, n - 1);
      TurnAt(s, r, v, perm, n, n - 1);
      OneMoreDone(s, r, v, perm, n - 1);
    }
  }

  /** The upper-half pages among the first n have their top entry, or there is no other space. */
  ghost predicate CanShareAll(s: System, r: int, v: nat, n: nat) {
    forall i: nat | i < n :: CanShare(s, r, PageAddr(v, i))
  }

  ghost predicate NoLargePages(s: System, r: int, v: nat, n: nat) {
    forall i: nat | i < n :: NoLargePage(s.phys.memory, r, 4, PageAddr(v, i))
  }

  /** Four free frames per page, permissions that make an entry a link, no large page in the way,
      and in the upper half top entries that are shared. */
  ghost predicate EnoughFor(s: System, r: int, v: nat, perm: bv12, n: nat) {
    && Valid(s) && IsRoot(s, r) && perm & 1 == 1 && !SizeBit(perm) && n <= 0x1000000000
    && |FreeFrames(s.phys.regions)| >= 4 * n && CanShareAll(s, r, v, n) && NoLargePages(s, r, v, n)
  }

  /** This is always enough. */
  lemma {:induction false} EnoughFrames(s: System, r: int, v: nat, perm: bv12, n: nat)
    requires EnoughFor(s, r, v, perm, n)
    ensures RangeEnabled(s, r, v, perm, n) == true
  {
    var p := Turns(s, r, v, perm);
    forall k: nat | k < n && AllBelow(p, k) ensures p(k) {
      EnoughForTurn(s, r, v, perm, n, k);
    }
    AllBelowClimbs(p, n);
  }

  lemma {:induction false} AllBelowClimbs(p: nat -> bool, n: nat)
    requires forall k: nat | k < n && AllBelow(p, k) :: p(k)
    ensures AllBelow(p, n)
  {
    var k := 0;
    while k < n
      invariant k <= n && AllBelow(p, k)
    {
      AllBelowNext(p, k);
      k := k + 1;
    }
  }

  lemma {:induction false} EnoughForTurn(s: System, r: int, v: nat, perm: bv12, n: nat, k: nat)
    requires EnoughFor(s, r, v, perm, n) && k < n && AllBelow(Turns(s, r, v, perm), k)
    ensures Turns(s, r, v, perm)(k)
  {
    MapPagesMaps(s, r, v, perm, k);
    var (fs, s1) := MapPages(s, r, v, perm, k);
    NextTurnEnabled(s, s1, r, v, perm, fs, k);
  }

  lemma {:induction false} NextTurnEnabled(s: System, s1: System, r: int, v: nat, perm: bv12, fs: seq<int>, n: nat)
    requires RangeDone(s, s1, r, v, perm, fs) == true && |fs| == n && EnoughFor(s, r, v, perm, n + 1) == true
    ensures CanMapFresh(s1, r, PageAddr(v, n), perm) == true
  {
    AllocTakesFree(s1.phys.regions);
    AllocKept(s1);
    var s2, w := s1.(phys := AllocZeroed(s1.phys).1), PageAddr(v, n);
    forall i: nat | i < n ensures !Affects(r, PageAddr(v, i), r, w) {
      DistinctPages(v, i, n);
    }
    assert !InRange(r, v, n, r, w);
    assert Lookup(s2.phys.memory, r, 4, w) == Lookup(s.phys.memory, r, 4, w);
    assert CanShare(s, r, w) && NoLargePage(s.phys.memory, r, 4, w);
    AtMostMissing(s2.phys.memory, r, 4, w);
  }

  /** The entries on the walks of the first n pages carry the flags. */
  ghost predicate RangeHas(t: Memory, r: int, v: nat, perm: bv12, n: nat) {
    forall i: nat | i < n :: WalkHas(t, r, PageAddr(v, i), 1, perm)
  }

  /** The first n pages are mapped by 4 KiB pages. */
  ghost predicate PagesMapped(t: Memory, r: int, v: nat, n: nat) {
    forall i: nat | i < n :: Small(t, r, PageAddr(v, i))
  }

  /** What change_page_map over the first n pages keeps: every translation, and all flags and page
      sizes. */
  ghost predicate FlagsAdded(t: Memory, t': Memory) {
    SameTranslations(t, t') && Grown(t, t') && SameSizes(t, t')
  }

  /** change_page_map over n mapped pages, in order, keeps every translation of every space,
      while all four entries on the walk of every page of the range end up with the flags. */
  ghost function AddFlagsRange(t: Memory, r: int, v: nat, perm: bv12, n: nat): (t': Memory)
    requires PagesMapped(t, r, v, n) && !SizeBit(perm)
    ensures FlagsAdded(t, t') == true && RangeHas(t', r, v, perm, n) == true
    ensures AddedAt(t, t', RangeSlots(t, r, v, n), perm) == true
    decreases n
  {
    if n == 0 then
      AddFlagsNone(t, r, v, perm);
      t
    else
      var t1 := AddFlagsRange(t, r, v, perm, n - 1);
      AddFlagsRangeStep(t, t1, r, v, perm, n);
      AddedRange(t, t1, r, v, perm, n);
      AddFlags(t1, r, PageAddr(v, n - 1), perm)
  }

  lemma AddFlagsNone(t: Memory, r: int, v: nat, perm: bv12)
    ensures FlagsAdded(t, t) == true && RangeHas(t, r, v, perm, 0) == true && AddedAt(t, t, {}, perm) == true
  {
    assert SameTranslations(t, t) && Grown(t, t);
  }

  /** A page that was mapped by a 4 KiB page still is. */
  lemma StillSmall(t: Memory, t': Memory, r: int, v: nat)
    requires FlagsAdded(t, t') == true && Small(t, r, v)
    ensures Small(t', r, v)
  {
    AlikeTranslates(t, t', r, 4, v);
  }

  lemma {:induction false} AddFlagsRangeStep(t: Memory, t1: Memory, r: int, v: nat, perm: bv12, n: nat)
    requires n > 0 && PagesMapped(t, r, v, n) == true && !SizeBit(perm)
    requires FlagsAdded(t, t1) == true && RangeHas(t1, r, v, perm, n - 1) == true
    ensures FlagsAdded(t, AddFlags(t1, r, PageAddr(v, n - 1), perm)) == true
    ensures RangeHas(AddFlags(t1, r, PageAddr(v, n - 1), perm), r, v, perm, n) == true
  {
    var w := PageAddr(v, n - 1);
    assert Small(t, r, w);
    StillSmall(t, t1, r, w);
    AddFlagsKeeps(t1, r, w, perm);
    FlagsAddedStep(t, t1, AddFlags(t1, r, w, perm), r, v, perm, n);
  }

  lemma {:induction false} AddedRange(t: Memory, t1: Memory, r: int, v: nat, perm: bv12, n: nat)
    requires n > 0 && FlagsAdded(t, t1) == true && Small(t, r, PageAddr(v, n - 1))
    requires AddedAt(t, t1, RangeSlots(t, r, v, n - 1), perm) == true
    ensures AddedAt(t, AddFlags(t1, r, PageAddr(v, n - 1), perm), RangeSlots(t, r, v, n), perm) == true
  {
    var w := PageAddr(v, n - 1);
    StillSmall(t, t1, r, w);
    AddFlagsExactly(t1, r, w, perm);
    GrownSlots(t, t1, r, w);
    AddedMore(t, t1, AddFlags(t1, r, w, perm), RangeSlots(t, r, v, n - 1), WalkSlots(t, r, w), perm);
  }

  lemma {:induction false} GrownSlots(t: Memory, t': Memory, r: int, v: nat)
    requires FlagsAdded(t, t')
    ensures WalkSlots(t', r, v) == WalkSlots(t, r, v)
  {
    forall l | 1 <= l <= 4 ensures WalkFrame(t', r, v, l) == WalkFrame(t, r, v, l) {
      if l < 4 { GrownWalk(t, t', r, v, l + 1); }
    }
  }

  lemma FlagsAddedStep(t: Memory, t1: Memory, t2: Memory, r: int, v: nat, perm: bv12, n: nat)
    requires n > 0 && FlagsAdded(t, t1) && RangeHas(t1, r, v, perm, n - 1) == true
    requires SameTranslations(t1, t2) == true && Grown(t1, t2) == true && SameSizes(t1, t2) == true
    requires WalkHas(t2, r, PageAddr(v, n - 1), 1, perm) == true
    ensures FlagsAdded(t, t2) == true && RangeHas(t2, r, v, perm, n) == true
  {
    RangeHasGrows(t1, t2, r, v, perm, n);
    GrownTransitive(t, t1, t2);
    SameSizesTransitive(t, t1, t2);
    SameTranslationsTransitive(t, t1, t2);
  }

  lemma {:induction false} NextPage(t: Memory, t1: Memory, r: int, v: nat, perm: bv12, i: nat, n: nat)
    requires PagesMapped(t, r, v, n) == true && !SizeBit(perm) && i < n
    requires PagesMapped(t, r, v, i) == true && t1 == AddFlagsRange(t, r, v, perm, i)
    ensures Small(t1, r, PageAddr(v, i)) && PagesMapped(t, r, v, i + 1) == true
    ensures AddFlags(t1, r, PageAddr(v, i), perm) == AddFlagsRange(t, r, v, perm, i + 1)
  {
    assert Small(t, r, PageAddr(v, i));
    StillSmall(t, t1, r, PageAddr(v, i));
  }

  lemma SameTranslationsTransitive(t: Memory, t1: Memory, t2: Memory)
    requires SameTranslations(t, t1) && SameTranslations(t1, t2)
    ensures SameTranslations(t, t2)
  {
  }

  lemma RangeHasGrows(t1: Memory, t2: Memory, r: int, v: nat, perm: bv12, n: nat)
    requires n > 0 && RangeHas(t1, r, v, perm, n - 1) && Grown(t1, t2) && WalkHas(t2, r, PageAddr(v, n - 1), 1, perm)
    ensures RangeHas(t2, r, v, perm, n)
  {
    forall i: nat | i < n ensures WalkHas(t2, r, PageAddr(v, i), 1, perm) {
      if i < n - 1 { WalkHasKept(t1, t2, r, PageAddr(v, i), 1, perm); }
    }
  }

  /** Every address of the range lies on one of its pages. */
  lemma RangeCovers(v: nat, size: nat, a: nat) returns (i: nat)
    requires v <= a < v + size
    ensures i < PageCount(v, size) && a / 4096 == v / 4096 + i && Page(a) == Page(PageAddr(v, i))
  {
    i := a / 4096 - v / 4096;
    PageCountCovers(v, size, i);
    assert PageAddr(v, i) / 4096 == v / 4096 + i;
  }
}
