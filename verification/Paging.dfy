/** map_page, unmap_page, change_page_map and new address spaces, as steps on physical memory. */
module Paging {
  import opened Options
  import opened Frames
  import opened PageTables

  /** Physical memory: the allocator's regions, and what each frame holds. */
  datatype Phys = Phys(regions: seq<Region>, memory: Memory)

  /** Physical memory, and where each frame in use as a table sits. */
  datatype System = System(phys: Phys, places: Places)

  /** Every table has one place, and its frame is in use. */
  ghost predicate Placed(s: System) {
    && ValidRegions(s.phys.regions) && WellPlaced(s.phys.memory, s.places)
    && forall f | f in s.places :: !IsFree(s.phys.regions, f)
  }

  ghost predicate Sharing(s: System) {
    UpperShared(s.phys.memory, s.places)
  }

  ghost predicate Valid(s: System) {
    Placed(s) && Sharing(s)
  }

  ghost predicate IsRoot(s: System, r: int) {
    r in s.places && s.places[r].Top?
  }

  ghost predicate SameRoots(s: System, s': System) {
    forall r :: IsRoot(s', r) <==> IsRoot(s, r)
  }

  ghost predicate OnlySpace(s: System, r: int) {
    forall x | IsRoot(s, x) :: x == r
  }

  /** alloc_frame clears the frame it takes. */
  function AllocZeroed(m: Phys): (int, Phys)
    requires ValidRegions(m.regions)
  {
    var (a, rs) := Alloc(m.regions);
    if a == 0 then (0, m) else (a, Phys(rs, m.memory[a := Cleared]))
  }

  /** The table below slot i of table f, newly allocated if the slot is empty. */
  function EnsureTable(s: System, f: int, i: int, perm: bv12): (int, System)
    requires ValidRegions(s.phys.regions) && f in s.phys.memory && 0 <= i < |EntriesOf(s.phys.memory[f])| && f in s.places
  {
    var e := Entry(s.phys.memory, f, i);
    if Present(e) then (e.base, s)
    else
      var (a, m) := AllocZeroed(s.phys);
      if f in m.memory && i < |EntriesOf(m.memory[f])| then
        (a, System(m.(memory := Write(m.memory, f, i, Pte(a, perm))), s.places[a := Child(s.places[f], f, i)]))
      else (a, s)
  }

  /** A frame in use that is no table keeps what it holds and becomes no table, and nothing in
      use becomes free. */
  ghost predicate DataKept(s: System, s': System) {
    && (forall f | !IsFree(s.phys.regions, f) && f !in s.places :: f !in s'.places)
    && (forall f | !IsFree(s.phys.regions, f) && f !in s.places && f in s.phys.memory ::
          f in s'.phys.memory && s'.phys.memory[f] == s.phys.memory[f])
    && (forall f | !IsFree(s.phys.regions, f) :: !IsFree(s'.phys.regions, f))
  }

  lemma DataKeptTransitive(s: System, s1: System, s2: System)
    requires DataKept(s, s1) && DataKept(s1, s2)
    ensures DataKept(s, s2)
  {
  }

  /** What EnsureTable promises. */
  ghost predicate Ensured(s: System, f: int, i: int, perm: bv12, c: int, s': System) {
    && Placed(s') && s.places.Keys <= s'.places.Keys
    && (forall g | g in s.places :: s'.places[g] == s.places[g])
    && f in s.places && c in s'.places && s'.places[c] == Child(s.places[f], f, i)
    && Links(Entry(s'.phys.memory, f, i), Level(s.places[f])) && Entry(s'.phys.memory, f, i).base == c
    && (forall g, j | g in s.places && 0 <= j < 512 && !(g == f && j == i) ::
          Entry(s'.phys.memory, g, j) == Entry(s.phys.memory, g, j))
    && (forall r, v: nat | IsRoot(s, r) :: Lookup(s'.phys.memory, r, 4, v) == Lookup(s.phys.memory, r, 4, v))
    && DataKept(s, s') && SameRoots(s, s')
    && FreeFrames(s'.phys.regions) <= FreeFrames(s.phys.regions)
    && |FreeFrames(s'.phys.regions)| >= |FreeFrames(s.phys.regions)| - 1
  }

  /** Slot i of table f leads to c: by the entry that was there, if it was present, else by a new
      one with exactly these permissions, to an empty table in a frame that was free. No other entry
      of a table changes. */
  ghost predicate Made(s: System, f: int, i: int, perm: bv12, c: int, s': System) {
    var e, e' := Entry(s.phys.memory, f, i), Entry(s'.phys.memory, f, i);
    && f in s.places && e'.base == c
    && (if Present(e) then e' == e && s'.places == s.places
        else e'.flags == perm && c !in s.places && IsFree(s.phys.regions, c)
             && s'.places == s.places[c := Child(s.places[f], f, i)]
             && forall j :: Entry(s'.phys.memory, c, j) == Pte(0, 0))
    && (forall g, j | g in s.places && !(g == f && j == i) ::
          Entry(s'.phys.memory, g, j) == Entry(s.phys.memory, g, j))
  }

  /** Slot i of table f leads to a table, or a table can be made for it. */
  ghost predicate CanEnsure(s: System, f: int, i: int, perm: bv12) {
    && Placed(s) && f in s.places && Level(s.places[f]) > 1 && 0 <= i < 512
    && if Present(Entry(s.phys.memory, f, i)) then Links(Entry(s.phys.memory, f, i), Level(s.places[f]))
       else FreeFrames(s.phys.regions) != {} && perm & 1 == 1 && !SizeBit(perm)
  }

  lemma EnsureTableKeeps(s: System, f: int, i: int, perm: bv12)
    requires CanEnsure(s, f, i, perm)
    ensures var (c, s') := EnsureTable(s, f, i, perm);
      Ensured(s, f, i, perm, c, s') == true && Made(s, f, i, perm, c, s') == true
  {
    if !Present(Entry(s.phys.memory, f, i)) {
      AllocTakesFree(s.phys.regions);
      var (a, rs) := Alloc(s.phys.regions);
      var s' := System(Phys(rs, LinkFresh(s.phys.memory, f, i, a, perm)), s.places[a := Child(s.places[f], f, i)]);
      assert EnsureTable(s, f, i, perm) == (a, s');
      FreshTableEnsured(s, f, i, perm, a, s');
    }
  }

  lemma FreshTableEnsured(s: System, f: int, i: int, perm: bv12, a: int, s': System)
    requires CanEnsure(s, f, i, perm) && !Present(Entry(s.phys.memory, f, i))
    requires IsFree(s.phys.regions, a) && ValidRegions(s'.phys.regions)
    requires FreeFrames(s'.phys.regions) == FreeFrames(s.phys.regions) - {a}
    requires a !in s.places && s'.phys.memory == LinkFresh(s.phys.memory, f, i, a, perm)
    requires s'.places == s.places[a := Child(s.places[f], f, i)]
    ensures Ensured(s, f, i, perm, a, s') == true && Made(s, f, i, perm, a, s') == true
  {
    var t, pl, t' := s.phys.memory, s.places, s'.phys.memory;
    LinkFreshPlaced(t, pl, f, i, a, perm);
    forall r, v: nat | IsRoot(s, r) ensures Lookup(t', r, 4, v) == Lookup(t, r, 4, v) {
      LookupLinkFresh(t, pl, r, 4, v, f, i, a, perm);
    }
    assert AreFree(FreeFrames(s.phys.regions), s.phys.regions);
    assert AreFree(FreeFrames(s'.phys.regions), s'.phys.regions);
  }

  /** A table made below the top, in the lower half, or in the only space leaves the upper half
      shared. */
  lemma EnsureTableShares(s: System, f: int, i: int, perm: bv12)
    requires CanEnsure(s, f, i, perm) && Sharing(s)
    requires s.places[f].Top? && i >= 256 ==> Present(Entry(s.phys.memory, f, i)) || OnlySpace(s, f)
    ensures Sharing(EnsureTable(s, f, i, perm).1)
  {
    if !Present(Entry(s.phys.memory, f, i)) {
      AllocTakesFree(s.phys.regions);
      var a := Alloc(s.phys.regions).0;
      assert forall x | x in s.places && s.places[x].Top? :: IsRoot(s, x);
      LinkFreshShared(s.phys.memory, s.places, f, i, a, perm);
    }
  }

  /** How many tables the walk of v from table f at a level lacks. */
  function MissingTables(t: Memory, f: int, level: int, v: nat): nat
    requires 1 <= level <= 4
    decreases level
  {
    var e := Entry(t, f, Index(v, level));
    if level == 1 then 0 else if !Present(e) then level - 1 else MissingTables(t, e.base, level - 1, v)
  }

  lemma {:induction false} AtMostMissing(t: Memory, f: int, level: int, v: nat)
    requires 1 <= level <= 4
    ensures MissingTables(t, f, level, v) < level
    decreases level
  {
    if level > 1 { AtMostMissing(t, Entry(t, f, Index(v, level)).base, level - 1, v); }
  }

  /** The walk of v from table f at a level ends neither at a large page nor at a reserved bit. */
  predicate NoLargePage(t: Memory, f: int, level: int, v: nat)
    requires 1 <= level <= 4
  {
    Lookup(t, f, level, v).Some? ==> IsSmall(Lookup(t, f, level, v))
  }

  /** From table f at a level map_page can reach a leaf table: no large page or reserved bit is on
      the way, and for each table to be made a free frame and permissions that make an entry a link. */
  ghost predicate CanReach(s: System, f: int, level: int, v: nat, perm: bv12)
    requires 1 <= level <= 4
  {
    && Placed(s) && f in s.places && Level(s.places[f]) == level && NoLargePage(s.phys.memory, f, level, v)
    && |FreeFrames(s.phys.regions)| >= MissingTables(s.phys.memory, f, level, v)
    && (MissingTables(s.phys.memory, f, level, v) > 0 ==> perm & 1 == 1 && !SizeBit(perm))
  }

  /** What map_page needs: an address space, the present bit, and a leaf table in reach. */
  ghost predicate CanWalk(s: System, r: int, v: nat, perm: bv12) {
    IsRoot(s, r) && perm & 1 == 1 && CanReach(s, r, 4, v, perm)
  }

  /** What a map of v in the space of r needs to be seen by all spaces in the upper half: a top
      entry that is there, and so shared, or no other space. */
  ghost predicate CanShare(s: System, r: int, v: nat) {
    Index(v, 4) >= 256 ==> Present(Entry(s.phys.memory, r, Index(v, 4))) || OnlySpace(s, r)
  }

  ghost predicate CanMap(s: System, r: int, v: nat, perm: bv12) {
    CanWalk(s, r, v, perm) && Sharing(s) && CanShare(s, r, v)
  }

  /** One level down, the leaf table is still in reach. */
  lemma {:induction false} ReachNext(s: System, f: int, level: int, v: nat, perm: bv12)
    requires 2 <= level <= 4 && CanReach(s, f, level, v, perm) == true
    ensures CanEnsure(s, f, Index(v, level), perm)
    ensures var (c, s') := EnsureTable(s, f, Index(v, level), perm);
      && Ensured(s, f, Index(v, level), perm, c, s') == true && Made(s, f, Index(v, level), perm, c, s') == true
      && CanReach(s', c, level - 1, v, perm) == true
  {
    EnsureTableKeeps(s, f, Index(v, level), perm);
  }

  /** The tables on the walk of v, made where missing: the level-1 table and the new state. */
  ghost function EnsureWalk(s: System, r: int, v: nat, perm: bv12): (int, System)
    requires CanWalk(s, r, v, perm)
  {
    ReachNext(s, r, 4, v, perm);
    var (f3, s3) := EnsureTable(s, r, Index(v, 4), perm);
    ReachNext(s3, f3, 3, v, perm);
    var (f2, s2) := EnsureTable(s3, f3, Index(v, 3), perm);
    ReachNext(s2, f2, 2, v, perm);
    EnsureTable(s2, f2, Index(v, 2), perm)
  }

  /** The spaces of s are still there in s' and every walk in them ends as before. */
  ghost predicate SameLookups(s: System, s': System) {
    && (forall r | IsRoot(s, r) :: IsRoot(s', r))
    && (forall r, v: nat | IsRoot(s, r) :: Lookup(s'.phys.memory, r, 4, v) == Lookup(s.phys.memory, r, 4, v))
  }

  /** Top entries that are present stay present. */
  ghost predicate TopsStay(s: System, s': System) {
    forall r, i | IsRoot(s, r) && 0 <= i < 512 && Present(Entry(s.phys.memory, r, i)) :: Present(Entry(s'.phys.memory, r, i))
  }

  /** The top tables of other spaces than r stay as they are. */
  ghost predicate OtherTops(s: System, s': System, r: int) {
    forall x, i | IsRoot(s, x) && x != r && 0 <= i < 512 :: Entry(s'.phys.memory, x, i) == Entry(s.phys.memory, x, i)
  }

  /** From s to s' no mapping and nothing in use that is no table changes, and at most n frames are
      taken. */
  ghost predicate Kept(s: System, s': System, n: nat) {
    && SameLookups(s, s') && SameRoots(s, s') && DataKept(s, s') && TopsStay(s, s')
    && FreeFrames(s'.phys.regions) <= FreeFrames(s.phys.regions)
    && |FreeFrames(s'.phys.regions)| >= |FreeFrames(s.phys.regions)| - n
  }

  lemma EnsuredKept(s: System, f: int, i: int, perm: bv12, c: int, s': System, r: int)
    requires Ensured(s, f, i, perm, c, s') && (IsRoot(s, f) ==> f == r)
    ensures Kept(s, s', 1) == true && OtherTops(s, s', r) == true
  {
  }

  lemma KeptTransitive(s: System, s1: System, s2: System, m: nat, n: nat)
    requires Kept(s, s1, m) && Kept(s1, s2, n)
    ensures Kept(s, s2, m + n) == true
  {
    DataKeptTransitive(s, s1, s2);
  }

  lemma OtherTopsTransitive(s: System, s1: System, s2: System, r: int)
    requires SameRoots(s, s1) && OtherTops(s, s1, r) && OtherTops(s1, s2, r)
    ensures OtherTops(s, s2, r) == true
  {
  }

  /** Three linked tables make a walk that reaches the last of them. */
  lemma EnsuredWalk(s: System, r: int, v: nat, perm: bv12, f3: int, s3: System, f2: int, s2: System, f1: int, s1: System)
    requires IsRoot(s, r) && Ensured(s, r, Index(v, 4), perm, f3, s3)
    requires Ensured(s3, f3, Index(v, 3), perm, f2, s2) && Ensured(s2, f2, Index(v, 2), perm, f1, s1)
    ensures LeafTable(s1.phys.memory, r, 4, v) == Some(f1)
    ensures var t := s1.phys.memory;
      WalkFrame(t, r, v, 3) == f3 && WalkFrame(t, r, v, 2) == f2 && WalkFrame(t, r, v, 1) == f1
  {
    var t := s1.phys.memory;
    assert r != f2 && r != f3 && f3 != f2;
    assert Entry(t, r, Index(v, 4)) == Entry(s2.phys.memory, r, Index(v, 4)) == Entry(s3.phys.memory, r, Index(v, 4));
    assert Entry(t, f3, Index(v, 3)) == Entry(s2.phys.memory, f3, Index(v, 3));
    assert LeafTable(t, r, 4, v) == LeafTable(t, f3, 3, v);
    assert LeafTable(t, f3, 3, v) == LeafTable(t, f2, 2, v);
    assert LeafTable(t, f2, 2, v) == LeafTable(t, f1, 1, v);
  }

  /** Making the tables of a walk maps and unmaps nothing, takes at most three frames, and leaves
      the top tables of other spaces alone. */
  lemma {:induction false} EnsureWalkKeeps(s: System, r: int, v: nat, perm: bv12)
    requires CanWalk(s, r, v, perm)
    ensures var (f, s') := EnsureWalk(s, r, v, perm);
      && Placed(s') == true && Kept(s, s', 3) == true && OtherTops(s, s', r) == true
      && LeafTable(s'.phys.memory, r, 4, v) == Some(f)
  {
    ReachNext(s, r, 4, v, perm);
    var (f3, s3) := EnsureTable(s, r, Index(v, 4), perm);
    ReachNext(s3, f3, 3, v, perm);
    var (f2, s2) := EnsureTable(s3, f3, Index(v, 3), perm);
    ReachNext(s2, f2, 2, v, perm);
    var (f1, s1) := EnsureTable(s2, f2, Index(v, 2), perm);
    EnsuredWalk(s, r, v, perm, f3, s3, f2, s2, f1, s1);
    EnsuredKept(s, r, Index(v, 4), perm, f3, s3, r);
    EnsuredKept(s3, f3, Index(v, 3), perm, f2, s2, r);
    EnsuredKept(s2, f2, Index(v, 2), perm, f1, s1, r);
    KeptTransitive(s, s3, s2, 1, 1);
    KeptTransitive(s, s2, s1, 2, 1);
    OtherTopsTransitive(s, s3, s2, r);
    OtherTopsTransitive(s, s2, s1, r);
  }

  /** Where the map can be shared, the upper half stays shared. */
  lemma {:induction false} EnsureWalkShares(s: System, r: int, v: nat, perm: bv12)
    requires CanMap(s, r, v, perm)
    ensures Sharing(EnsureWalk(s, r, v, perm).1) == true
  {
    ReachNext(s, r, 4, v, perm);
    EnsureTableShares(s, r, Index(v, 4), perm);
    var (f3, s3) := EnsureTable(s, r, Index(v, 4), perm);
    ReachNext(s3, f3, 3, v, perm);
    EnsureTableShares(s3, f3, Index(v, 3), perm);
    var (f2, s2) := EnsureTable(s3, f3, Index(v, 3), perm);
    ReachNext(s2, f2, 2, v, perm);
    EnsureTableShares(s2, f2, Index(v, 2), perm);
  }

  ghost predicate WriteLeafReady(s: System, r: int, v: nat) {
    Placed(s) && IsRoot(s, r) && LeafTable(s.phys.memory, r, 4, v).Some?
  }

  /** s with the leaf entry of v in the space of r replaced. */
  ghost function SetLeaf(s: System, r: int, v: nat, e: Pte): System
    requires WriteLeafReady(s, r, v)
  {
    LeafTablePlaced(s.phys.memory, s.places, r, v, r, 4);
    s.(phys := s.phys.(memory := Write(s.phys.memory, LeafTable(s.phys.memory, r, 4, v).value, Index(v, 1), e)))
  }

  /** s' differs from s in the walks of one page, seen by the spaces that it affects. */
  ghost predicate PageSet(s: System, s': System, r: int, v: nat, leaf: Option<Pte>) {
    && SameRoots(s, s')
    && (forall x, w: nat | IsRoot(s, x) ::
          Lookup(s'.phys.memory, x, 4, w) == if Affects(r, v, x, w) then SmallLeaf(leaf) else Lookup(s.phys.memory, x, 4, w))
  }

  function SmallLeaf(e: Option<Pte>): Option<Leaf> {
    match e
    case None => None
    case Some(pte) => Some(Leaf(pte, 1))
  }

  lemma SetLeafSets(s: System, r: int, v: nat, e: Pte)
    requires WriteLeafReady(s, r, v) && Sharing(s)
    ensures Valid(SetLeaf(s, r, v, e)) == true
    ensures PageSet(s, SetLeaf(s, r, v, e), r, v, if Present(e) then Some(e) else None) == true
    ensures LeafSet(s, SetLeaf(s, r, v, e), r, v, e) == true
  {
    SetLeafExactly(s, r, v, e);
    LeafWrite(s.phys.memory, s.places, r, v, e, r, v);
    var s', leaf := SetLeaf(s, r, v, e), if Present(e) then Some(e) else None;
    forall x, w: nat | IsRoot(s, x)
      ensures Lookup(s'.phys.memory, x, 4, w) == if Affects(r, v, x, w) then SmallLeaf(leaf) else Lookup(s.phys.memory, x, 4, w)
    {
      LeafWrite(s.phys.memory, s.places, r, v, e, x, w);
    }
  }

  /** A leaf entry is written into a table below the top, so no data and no top table changes. */
  lemma LeafKept(s: System, r: int, v: nat, e: Pte)
    requires WriteLeafReady(s, r, v)
    ensures var s' := SetLeaf(s, r, v, e);
      && s'.phys.regions == s.phys.regions && TopsStay(s, s') == true && DataKept(s, s') == true
      && OtherTops(s, s', r) == true
  {
    LeafTablePlaced(s.phys.memory, s.places, r, v, r, 4);
    var t' := SetLeaf(s, r, v, e).phys.memory;
    forall x, i | IsRoot(s, x) ensures Entry(t', x, i) == Entry(s.phys.memory, x, i) {
    }
  }

  /** map_page: make the tables of the walk, then write the leaf entry. */
  ghost function MapPage(s: System, r: int, p: int, v: nat, perm: bv12): System
    requires CanWalk(s, r, v, perm)
  {
    EnsureWalkKeeps(s, r, v, perm);
    SetLeaf(EnsureWalk(s, r, v, perm).1, r, v, Pte(p, perm))
  }

  /** Outside these slots no entry of a table changes, and a table that is new is empty. */
  ghost predicate SlotsKept(s: System, s': System, slots: set<(int, int)>) {
    && (forall f | f in s.places :: f in s'.places && s'.places[f] == s.places[f])
    && (forall f, i | f in s'.places && (f, i) !in slots ::
          Entry(s'.phys.memory, f, i) == if f in s.places then Entry(s.phys.memory, f, i) else Pte(0, 0))
  }

  /** Above the leaf tables an entry that was present is as before; any other is still absent, or
      leads with exactly these permissions to a frame that was no table. */
  ghost predicate TablesMade(s: System, s': System, perm: bv12) {
    && (forall f | f in s.places :: f in s'.places && s'.places[f] == s.places[f])
    && (forall f, i | f in s'.places && 0 <= i < 512 && Level(s'.places[f]) > 1 ::
          EntryMade(s, s', f, i, perm))
  }

  ghost predicate EntryMade(s: System, s': System, f: int, i: int, perm: bv12) {
    var e, e' := Entry(s.phys.memory, f, i), Entry(s'.phys.memory, f, i);
    if f in s.places && Present(e) then e' == e
    else Present(e') ==> e'.flags == perm && e'.base !in s.places
  }

  lemma MadeKeeps(s: System, f: int, i: int, perm: bv12, c: int, s': System)
    requires Made(s, f, i, perm, c, s')
    ensures SlotsKept(s, s', {(f, i)}) == true && TablesMade(s, s', perm) == true
  {
    forall g, j | g in s'.places ensures EntryMade(s, s', g, j, perm) {
      if g in s.places && !(g == f && j == i) {
        assert Entry(s'.phys.memory, g, j) == Entry(s.phys.memory, g, j);
      }
    }
  }

  lemma SlotsKeptTransitive(s: System, s1: System, s2: System, a: set<(int, int)>, b: set<(int, int)>)
    requires SlotsKept(s, s1, a) && SlotsKept(s1, s2, b)
    ensures SlotsKept(s, s2, a + b) == true
  {
  }

  lemma TablesMadeTransitive(s: System, s1: System, s2: System, perm: bv12)
    requires TablesMade(s, s1, perm) && TablesMade(s1, s2, perm)
    ensures TablesMade(s, s2, perm) == true
  {
    forall f, i | f in s2.places && 0 <= i < 512 && Level(s2.places[f]) > 1 ensures EntryMade(s, s2, f, i, perm) {
      assert EntryMade(s1, s2, f, i, perm);
      if f in s1.places { assert EntryMade(s, s1, f, i, perm); }
    }
  }

  /** The leaf entry of v is e, and no other entry and no other frame has changed. */
  ghost predicate LeafSet(s: System, s': System, r: int, v: nat, e: Pte) {
    var t, t', f := s.phys.memory, s'.phys.memory, WalkFrame(s.phys.memory, r, v, 1);
    && s'.phys.regions == s.phys.regions && s'.places == s.places && WalkEntry(t', r, v, 1) == e
    && (forall g, j | !(g == f && j == Index(v, 1)) :: Entry(t', g, j) == Entry(t, g, j))
    && (forall g | g in t && g != f :: g in t' && t'[g] == t[g])
  }

  lemma WalkToLeaf(t: Memory, r: int, v: nat)
    requires LeafTable(t, r, 4, v).Some?
    ensures LeafTable(t, r, 4, v) == Some(WalkFrame(t, r, v, 1))
  {
    var f3, f2, f1 := WalkFrame(t, r, v, 3), WalkFrame(t, r, v, 2), WalkFrame(t, r, v, 1);
    assert LeafTable(t, r, 4, v) == LeafTable(t, f3, 3, v);
    assert LeafTable(t, f3, 3, v) == LeafTable(t, f2, 2, v);
    assert LeafTable(t, f2, 2, v) == LeafTable(t, f1, 1, v);
  }

  /** Frames of different levels differ, so a walk goes the same way after its leaf is written. */
  lemma WalkFramesKept(t: Memory, t': Memory, pl: Places, r: int, v: nat)
    requires WellPlaced(t, pl) && r in pl && pl[r].Top? && LeafTable(t, r, 4, v).Some?
    requires forall g, j | g in pl && Level(pl[g]) > 1 :: Entry(t', g, j) == Entry(t, g, j)
    ensures forall l | 1 <= l <= 4 :: WalkFrame(t', r, v, l) == WalkFrame(t, r, v, l)
    ensures forall l | 2 <= l <= 4 :: WalkEntry(t', r, v, l) == WalkEntry(t, r, v, l)
  {
    var f3, f2, f1 := WalkFrame(t, r, v, 3), WalkFrame(t, r, v, 2), WalkFrame(t, r, v, 1);
    assert LeafTable(t, r, 4, v) == LeafTable(t, f3, 3, v);
    assert LeafTable(t, f3, 3, v) == LeafTable(t, f2, 2, v);
    assert f3 in pl && Level(pl[f3]) == 3 && f2 in pl && Level(pl[f2]) == 2;
    assert WalkEntry(t', r, v, 4) == WalkEntry(t, r, v, 4);
    assert WalkEntry(t', r, v, 3) == WalkEntry(t, r, v, 3);
    assert WalkEntry(t', r, v, 2) == WalkEntry(t, r, v, 2);
  }

  lemma SetLeafExactly(s: System, r: int, v: nat, e: Pte)
    requires WriteLeafReady(s, r, v)
    ensures LeafSet(s, SetLeaf(s, r, v, e), r, v, e) == true
    ensures WalkSlots(SetLeaf(s, r, v, e).phys.memory, r, v) == WalkSlots(s.phys.memory, r, v)
  {
    var t, t' := s.phys.memory, SetLeaf(s, r, v, e).phys.memory;
    WalkToLeaf(t, r, v);
    LeafTablePlaced(t, s.places, r, v, r, 4);
    forall g, j | g in s.places && Level(s.places[g]) > 1 ensures Entry(t', g, j) == Entry(t, g, j) {
    }
    WalkFramesKept(t, t', s.places, r, v);
  }

  lemma LeafSetKeeps(s: System, s': System, r: int, v: nat, e: Pte, perm: bv12)
    requires WriteLeafReady(s, r, v) && LeafSet(s, s', r, v, e)
    ensures SlotsKept(s, s', {(WalkFrame(s.phys.memory, r, v, 1), Index(v, 1))}) == true && TablesMade(s, s', perm) == true
  {
    WalkToLeaf(s.phys.memory, r, v);
    LeafTablePlaced(s.phys.memory, s.places, r, v, r, 4);
    forall g, j | g in s'.places && Level(s'.places[g]) > 1 ensures EntryMade(s, s', g, j, perm) {
      assert Entry(s'.phys.memory, g, j) == Entry(s.phys.memory, g, j);
    }
  }

  /** On the walk of v, above its leaf: an entry that the walk found before is as before; any other
      has exactly these permissions and leads to a frame that was no table. */
  ghost predicate WalkMade(s: System, s': System, r: int, v: nat, perm: bv12) {
    var t, t' := s.phys.memory, s'.phys.memory;
    forall l | 2 <= l <= 4 ::
      if Reached(t, r, v, l) then WalkEntry(t', r, v, l) == WalkEntry(t, r, v, l)
      else WalkEntry(t', r, v, l).flags == perm && WalkEntry(t', r, v, l).base !in s.places
  }

  /** The frame the walk reads at a level was read there before, or was no table. */
  ghost predicate FrameMade(s: System, s': System, r: int, v: nat, l: int)
    requires 1 <= l <= 4
  {
    var f := WalkFrame(s'.phys.memory, r, v, l);
    && f in s'.places && Level(s'.places[f]) == l
    && if Reached(s.phys.memory, r, v, l + 1) then f == WalkFrame(s.phys.memory, r, v, l) && f in s.places
       else f !in s.places
  }

  lemma FrameMadeNext(s: System, s': System, r: int, v: nat, perm: bv12, l: int)
    requires Placed(s) && Placed(s') && TablesMade(s, s', perm) && 2 <= l <= 4 && FrameMade(s, s', r, v, l)
    requires Links(WalkEntry(s'.phys.memory, r, v, l), l)
    ensures FrameMade(s, s', r, v, l - 1) == true
    ensures if Reached(s.phys.memory, r, v, l) then WalkEntry(s'.phys.memory, r, v, l) == WalkEntry(s.phys.memory, r, v, l)
            else WalkEntry(s'.phys.memory, r, v, l).flags == perm && WalkEntry(s'.phys.memory, r, v, l).base !in s.places
  {
    var f, i := WalkFrame(s'.phys.memory, r, v, l), Index(v, l);
    assert EntryMade(s, s', f, i, perm);
    ReachedNext(s.phys.memory, r, v, l);
  }

  lemma ReachedNext(t: Memory, r: int, v: nat, l: int)
    requires 1 <= l <= 4
    ensures Reached(t, r, v, l) <==> Reached(t, r, v, l + 1) && Present(WalkEntry(t, r, v, l))
  {
  }

  lemma WalkIsMade(s: System, s': System, r: int, v: nat, perm: bv12)
    requires Placed(s) && Placed(s') && TablesMade(s, s', perm) && IsRoot(s, r) && Small(s'.phys.memory, r, v)
    ensures WalkMade(s, s', r, v, perm) == true
  {
    SmallWalk(s'.phys.memory, r, v);
    FrameMadeNext(s, s', r, v, perm, 4);
    FrameMadeNext(s, s', r, v, perm, 3);
    FrameMadeNext(s, s', r, v, perm, 2);
  }

  /** What map_page writes: the leaf entry, and the entries of the walk that were missing, with the
      permissions asked for at every level; no table slot off the walk changes. */
  ghost predicate WalkMapped(s: System, s': System, r: int, p: int, v: nat, perm: bv12) {
    && WalkEntry(s'.phys.memory, r, v, 1) == Pte(p, perm) && WalkMade(s, s', r, v, perm)
    && SlotsKept(s, s', WalkSlots(s'.phys.memory, r, v)) && TablesMade(s, s', perm)
  }

  lemma {:induction false} EnsureWalkMade(s: System, r: int, v: nat, perm: bv12)
    requires CanWalk(s, r, v, perm)
    ensures var s1 := EnsureWalk(s, r, v, perm).1;
      TablesMade(s, s1, perm) == true && SlotsKept(s, s1, WalkSlots(s1.phys.memory, r, v)) == true
  {
    ReachNext(s, r, 4, v, perm);
    var (f3, s3) := EnsureTable(s, r, Index(v, 4), perm);
    ReachNext(s3, f3, 3, v, perm);
    var (f2, s2) := EnsureTable(s3, f3, Index(v, 3), perm);
    ReachNext(s2, f2, 2, v, perm);
    var (f1, s1) := EnsureTable(s2, f2, Index(v, 2), perm);
    EnsuredWalk(s, r, v, perm, f3, s3, f2, s2, f1, s1);
    ThreeMade(s, r, Index(v, 4), perm, f3, s3, Index(v, 3), f2, s2, Index(v, 2), f1, s1);
    MoreSlots(s, s1, {(r, Index(v, 4)), (f3, Index(v, 3)), (f2, Index(v, 2))}, WalkSlots(s1.phys.memory, r, v));
  }

  lemma ThreeMade(s: System, r: int, i4: int, perm: bv12, f3: int, s3: System, i3: int, f2: int, s2: System, i2: int,
                  f1: int, s1: System)
    requires Made(s, r, i4, perm, f3, s3) == true && Made(s3, f3, i3, perm, f2, s2) == true
    requires Made(s2, f2, i2, perm, f1, s1) == true
    ensures TablesMade(s, s1, perm) == true && SlotsKept(s, s1, {(r, i4), (f3, i3), (f2, i2)}) == true
  {
    MadeKeeps(s, r, i4, perm, f3, s3);
    MadeKeeps(s3, f3, i3, perm, f2, s2);
    MadeKeeps(s2, f2, i2, perm, f1, s1);
    TablesMadeTransitive(s, s3, s2, perm);
    TablesMadeTransitive(s, s2, s1, perm);
    SlotsKeptTransitive(s, s3, s2, {(r, i4)}, {(f3, i3)});
    SlotsKeptTransitive(s, s2, s1, {(r, i4)} + {(f3, i3)}, {(f2, i2)});
    assert {(r, i4)} + {(f3, i3)} + {(f2, i2)} == {(r, i4), (f3, i3), (f2, i2)};
  }

  lemma MoreSlots(s: System, s': System, a: set<(int, int)>, b: set<(int, int)>)
    requires SlotsKept(s, s', a) && a <= b
    ensures SlotsKept(s, s', b) == true
  {
  }

  lemma LeafPlaced(s: System, r: int, v: nat, e: Pte)
    requires WriteLeafReady(s, r, v)
    ensures Placed(SetLeaf(s, r, v, e)) == true
  {
    LeafTablePlaced(s.phys.memory, s.places, r, v, r, 4);
    LeafWritePlaced(s.phys.memory, s.places, LeafTable(s.phys.memory, r, 4, v).value, Index(v, 1), e);
  }

  lemma {:induction false} MapPageWalk(s: System, r: int, p: int, v: nat, perm: bv12)
    requires CanWalk(s, r, v, perm)
    ensures WalkMapped(s, MapPage(s, r, p, v, perm), r, p, v, perm) == true
  {
    EnsureWalkKeeps(s, r, v, perm);
    EnsureWalkMade(s, r, v, perm);
    var s1, e := EnsureWalk(s, r, v, perm).1, Pte(p, perm);
    var s2 := SetLeaf(s1, r, v, e);
    SetLeafExactly(s1, r, v, e);
    LeafSetKeeps(s1, s2, r, v, e, perm);
    TablesMadeTransitive(s, s1, s2, perm);
    SlotsKeptTransitive(s, s1, s2, WalkSlots(s1.phys.memory, r, v), {(WalkFrame(s1.phys.memory, r, v, 1), Index(v, 1))});
    MoreSlots(s, s2, WalkSlots(s1.phys.memory, r, v) + {(WalkFrame(s1.phys.memory, r, v, 1), Index(v, 1))},
              WalkSlots(s2.phys.memory, r, v));
    LeafWriteOwn(s1.phys.memory, s1.places, r, v, e, v);
    LeafPlaced(s1, r, v, e);
    WalkIsMade(s, s2, r, v, perm);
  }

  /** Where even the table below the top is new, all four entries have exactly the permissions. */
  lemma NewWalkHas(s: System, s': System, r: int, v: nat, perm: bv12)
    requires WalkMade(s, s', r, v, perm) && WalkEntry(s'.phys.memory, r, v, 1).flags == perm && perm & 1 == 1
    requires !Present(Entry(s.phys.memory, r, Index(v, 4)))
    ensures forall l | 1 <= l <= 4 :: WalkEntry(s'.phys.memory, r, v, l).flags == perm
    ensures WalkHas(s'.phys.memory, r, v, 1, perm)
  {
    assert !Present(WalkEntry(s.phys.memory, r, v, 4));
    forall l | 1 <= l <= 4 ensures WalkEntry(s'.phys.memory, r, v, l).flags == perm {
      if l > 1 { assert !Reached(s.phys.memory, r, v, l); }
    }
  }

  /** Everything map_page promises about its new state s'. */
  ghost predicate PageMapped(s: System, s': System, r: int, v: nat, leaf: Pte, n: nat) {
    && Valid(s') && PageSet(s, s', r, v, Some(leaf)) && DataKept(s, s') && TopsStay(s, s')
    && FreeFrames(s'.phys.regions) <= FreeFrames(s.phys.regions)
    && |FreeFrames(s'.phys.regions)| >= |FreeFrames(s.phys.regions)| - n
  }

  /** map_page maps the page of v to p, in this space or, above, in all, and changes no other
      translation, however many tables it has to make. */
  lemma MapPageMaps(s: System, r: int, p: int, v: nat, perm: bv12)
    requires CanMap(s, r, v, perm)
    ensures PageMapped(s, MapPage(s, r, p, v, perm), r, v, Pte(p, perm), 3) == true
    ensures WalkMapped(s, MapPage(s, r, p, v, perm), r, p, v, perm) == true
  {
    PageIsMapped(s, r, p, v, perm);
    MapPageWalk(s, r, p, v, perm);
  }

  lemma PageIsMapped(s: System, r: int, p: int, v: nat, perm: bv12)
    requires CanMap(s, r, v, perm)
    ensures PageMapped(s, MapPage(s, r, p, v, perm), r, v, Pte(p, perm), 3) == true
  {
    EnsureWalkKeeps(s, r, v, perm);
    EnsureWalkShares(s, r, v, perm);
    var s1 := EnsureWalk(s, r, v, perm).1;
    var s2 := SetLeaf(s1, r, v, Pte(p, perm));
    SetLeafSets(s1, r, v, Pte(p, perm));
    LeafKept(s1, r, v, Pte(p, perm));
    KeptThenSet(s, s1, s2, r, v, Pte(p, perm));
  }

  lemma KeptThenSet(s: System, s1: System, s2: System, r: int, v: nat, leaf: Pte)
    requires Kept(s, s1, 3) && Valid(s2) == true && PageSet(s1, s2, r, v, Some(leaf)) == true
    requires s2.phys.regions == s1.phys.regions && TopsStay(s1, s2) && DataKept(s1, s2)
    ensures PageMapped(s, s2, r, v, leaf, 3) == true
  {
    DataKeptTransitive(s, s1, s2);
    PageSetAfterSame(s, s1, s2, r, v, Some(leaf));
  }

  lemma PageSetAfterSame(s: System, s1: System, s2: System, r: int, v: nat, leaf: Option<Pte>)
    requires SameLookups(s, s1) && SameRoots(s, s1) && PageSet(s1, s2, r, v, leaf)
    ensures PageSet(s, s2, r, v, leaf) == true
  {
  }

  /** The space that maps a page sees it, whatever other spaces share. */
  lemma {:induction false} MapPageOwn(s: System, r: int, p: int, v: nat, perm: bv12)
    requires CanWalk(s, r, v, perm)
    ensures Translate(MapPage(s, r, p, v, perm).phys.memory, r, v) == Some(p)
  {
    EnsureWalkKeeps(s, r, v, perm);
    var s1 := EnsureWalk(s, r, v, perm).1;
    LeafWriteOwn(s1.phys.memory, s1.places, r, v, Pte(p, perm), v);
  }

  /** An upper-half page is mapped in every space exactly if its top entry was there, and so
      shared, or there is no other space: a top entry made later is in one space only. */
  lemma {:induction false} UpperMapSharedIff(s: System, r: int, p: int, v: nat, perm: bv12)
    requires CanWalk(s, r, v, perm) && Sharing(s) && Index(v, 4) >= 256
    ensures (forall x | IsRoot(s, x) :: Translate(MapPage(s, r, p, v, perm).phys.memory, x, v) == Some(p))
            <==> Present(Entry(s.phys.memory, r, Index(v, 4))) || OnlySpace(s, r)
  {
    var i := Index(v, 4);
    if Present(Entry(s.phys.memory, r, i)) || OnlySpace(s, r) {
      PageIsMapped(s, r, p, v, perm);
    } else {
      var x :| IsRoot(s, x) && x != r;
      NotSeenElsewhere(s, r, p, v, perm, x);
    }
  }

  lemma {:induction false} NotSeenElsewhere(s: System, r: int, p: int, v: nat, perm: bv12, x: int)
    requires CanWalk(s, r, v, perm) && Sharing(s) && Index(v, 4) >= 256
    requires !Present(Entry(s.phys.memory, r, Index(v, 4))) && IsRoot(s, x) && x != r
    ensures Translate(MapPage(s, r, p, v, perm).phys.memory, x, v) == None
  {
    EnsureWalkKeeps(s, r, v, perm);
    var s1 := EnsureWalk(s, r, v, perm).1;
    LeafKept(s1, r, v, Pte(p, perm));
    var s2 := MapPage(s, r, p, v, perm);
    OtherTopsTransitive(s, s1, s2, r);
    assert Entry(s2.phys.memory, x, Index(v, 4)) == Entry(s.phys.memory, x, Index(v, 4));
    assert Present(Entry(s.phys.memory, r, Index(v, 4))) == Present(Entry(s.phys.memory, x, Index(v, 4)));
  }

  /** Two spaces with cleared top tables, and three free frames. */
  function TwoSpaces(): System {
    System(Phys([Region(0x1000, 0x5000, 0, [1, 1, 0, 0, 0])], map[0x1000 := Cleared, 0x2000 := Cleared]),
           map[0x1000 := Top, 0x2000 := Top])
  }

  /** Mapping the heap's first page in one of them does not show in the other. */
  lemma UpperMapNotShared(s: System, v: nat, perm: bv12)
    requires s == TwoSpaces() && v == 0xffffc00000000000 && perm == 3
    ensures Valid(s) && CanWalk(s, 0x1000, v, perm) && IsRoot(s, 0x2000)
    ensures Translate(MapPage(s, 0x1000, 0x5000, v, perm).phys.memory, 0x1000, v) == Some(0x5000)
    ensures Translate(MapPage(s, 0x1000, 0x5000, v, perm).phys.memory, 0x2000, v) == None
  {
    TwoSpacesValid();
    ClearedDisagree(s, 0x1000, 0x2000, 0x5000, v, perm);
  }

  lemma {:induction false} ClearedDisagree(s: System, r: int, x: int, p: int, v: nat, perm: bv12)
    requires Valid(s) && IsRoot(s, r) && IsRoot(s, x) && r != x && Index(v, 4) >= 256
    requires (forall i :: Entry(s.phys.memory, r, i) == Pte(0, 0)) && |FreeFrames(s.phys.regions)| >= 3
    requires perm & 1 == 1 && !SizeBit(perm)
    ensures CanWalk(s, r, v, perm)
    ensures Translate(MapPage(s, r, p, v, perm).phys.memory, r, v) == Some(p)
    ensures Translate(MapPage(s, r, p, v, perm).phys.memory, x, v) == None
  {
    assert !Present(Entry(s.phys.memory, r, Index(v, 4)));
    MapPageOwn(s, r, p, v, perm);
    NotSeenElsewhere(s, r, p, v, perm, x);
  }

  lemma TwoSpacesValid()
    ensures Valid(TwoSpaces()) && |FreeFrames(TwoSpaces().phys.regions)| >= 3
    ensures forall i :: Entry(TwoSpaces().phys.memory, 0x1000, i) == Pte(0, 0)
  {
    var s := TwoSpaces();
    ThreeFree(s.phys.regions);
    assert forall f, i :: Entry(s.phys.memory, f, i) == Pte(0, 0);
  }

  lemma ThreeFree(rs: seq<Region>)
    requires rs == [Region(0x1000, 0x5000, 0, [1, 1, 0, 0, 0])]
    ensures ValidRegions(rs) && |FreeFrames(rs)| >= 3 && !IsFree(rs, 0x1000) && !IsFree(rs, 0x2000)
  {
    var fs, free := {0x3000, 0x4000, 0x5000}, FreeFrames(rs);
    assert FrameAt(rs, 0, 2, 0x3000) && FrameAt(rs, 0, 3, 0x4000) && FrameAt(rs, 0, 4, 0x5000);
    assert IsFree(rs, 0x3000) && IsFree(rs, 0x4000) && IsFree(rs, 0x5000);
    assert fs <= free;
    assert free == fs + (free - fs);
  }

  /** create_new_userspace_page_table: a cleared top table with the upper half of the kernel's. */
  ghost function NewSpace(s: System, kernel: int): (int, System)
    requires Valid(s) && IsRoot(s, kernel)
  {
    var (a, m) := AllocZeroed(s.phys);
    (a, System(m.(memory := m.memory[a := Table(UpperCopy(EntriesOf(s.phys.memory[kernel])))]), s.places[a := Top]))
  }

  /** A new space is empty below, sees the shared upper half through entries equal to the kernel's,
      flags included, and disturbs no other space. */
  lemma NewSpaceAdds(s: System, kernel: int)
    requires Valid(s) && IsRoot(s, kernel) && FreeFrames(s.phys.regions) != {}
    ensures var (a, s') := NewSpace(s, kernel);
      && Valid(s') == true && SameLookups(s, s') == true && DataKept(s, s') == true
      && !IsRoot(s, a) && (forall x :: IsRoot(s', x) <==> IsRoot(s, x) || x == a)
      && IsFree(s.phys.regions, a) && UpperCopied(s.phys.memory, s'.phys.memory, kernel, a) == true
      && (forall w: nat :: Lookup(s'.phys.memory, a, 4, w) ==
            if Index(w, 4) < 256 then None else Lookup(s.phys.memory, kernel, 4, w))
  {
    AllocTakesFree(s.phys.regions);
    var (a, rs) := Alloc(s.phys.regions);
    var t, pl := s.phys.memory, s.places;
    var (b, s') := NewSpace(s, kernel);
    assert a == b && a !in pl;
    assert AreFree(FreeFrames(s.phys.regions), s.phys.regions) && AreFree(FreeFrames(rs), rs);
    UpperCopyPlaced(t, pl, kernel, a);
    assert s'.phys.memory == t[a := Table(UpperCopy(EntriesOf(t[kernel])))];
    NewSpaceLookups(s, kernel, a, s');
  }

  lemma NewSpaceLookups(s: System, kernel: int, a: int, s': System)
    requires Valid(s) && IsRoot(s, kernel) && a !in s.places && s'.places == s.places[a := Top]
    requires s'.phys.memory == s.phys.memory[a := Table(UpperCopy(EntriesOf(s.phys.memory[kernel])))]
    ensures SameLookups(s, s')
    ensures forall w: nat ::
      Lookup(s'.phys.memory, a, 4, w) == if Index(w, 4) < 256 then None else Lookup(s.phys.memory, kernel, 4, w)
  {
    var t, t' := s.phys.memory, s'.phys.memory;
    var content := Table(UpperCopy(EntriesOf(t[kernel])));
    forall x, w: nat | IsRoot(s, x) ensures Lookup(t', x, 4, w) == Lookup(t, x, 4, w) {
      LookupOutside(t, s.places, x, 4, w, a, content);
    }
    forall w: nat ensures Lookup(t', a, 4, w) == if Index(w, 4) < 256 then None else Lookup(t, kernel, 4, w) {
      var i := Index(w, 4);
      if i >= 256 {
        assert Entry(t', a, i) == Entry(t, kernel, i);
        if Links(Entry(t, kernel, i), 4) {
          LookupOutside(t, s.places, Entry(t, kernel, i).base, 3, w, a, content);
        }
      }
    }
  }

  /** The table frame f belongs to the space of r alone. */
  ghost predicate OwnedBy(pl: Places, f: int, r: int) {
    f in pl && (f == r || (pl[f].Below? && pl[f].owner == Private(r)))
  }

  /** The places left when the space of r is gone: its top table and its private tables have none. */
  ghost function Without(pl: Places, r: int): Places {
    map f | f in pl && !OwnedBy(pl, f, r) :: pl[f]
  }

  /** What thread exit does to a space: free_frame of its top table. Its other tables stay allocated
      and are no one's any more. */
  ghost function DropSpace(s: System, r: int): System {
    System(s.phys.(regions := Release(s.phys.regions, r)), Without(s.places, r))
  }

  /** A space can be dropped if its top table came from the allocator and free_frame gets to it. */
  ghost predicate CanDrop(s: System, r: int) {
    Valid(s) && IsRoot(s, r) && IsMarked(s.phys.regions, r) && CanFree(s.phys.regions, r)
  }

  /** Dropping a space takes away that space and nothing else; its top frame is free again. */
  lemma DropSpaceDrops(s: System, r: int)
    requires CanDrop(s, r)
    ensures var s' := DropSpace(s, r);
      && Valid(s') == true && s'.phys.memory == s.phys.memory
      && (forall x :: IsRoot(s', x) <==> IsRoot(s, x) && x != r)
      && FreeFrames(s'.phys.regions) == FreeFrames(s.phys.regions) + {r}
  {
    ReleaseFrees(s.phys.regions, r);
    WithoutPlaced(s.phys.memory, s.places, r);
    var s' := DropSpace(s, r);
    assert AreFree(FreeFrames(s.phys.regions), s.phys.regions) && AreFree(FreeFrames(s'.phys.regions), s'.phys.regions);
  }

  lemma WithoutPlaced(t: Memory, pl: Places, r: int)
    requires WellPlaced(t, pl) && UpperShared(t, pl) && r in pl && pl[r].Top?
    ensures WellPlaced(t, Without(pl, r)) && UpperShared(t, Without(pl, r))
  {
    var pl' := Without(pl, r);
    forall f, i | f in pl' && 0 <= i < 512 && Links(Entry(t, f, i), Level(pl'[f]))
      ensures Entry(t, f, i).base in pl' && pl'[Entry(t, f, i).base] == Child(pl'[f], f, i)
    {
      var c := Entry(t, f, i).base;
      assert c in pl && pl[c] == Child(pl[f], f, i);
    }
  }
}
