/** The page tables and the ledger of one thread together, over every run. */
module Tracking {
  import opened PageTables
  import opened Paging
  import opened AddressSpaces
  import Frames
  import Ledger

  lemma MadeLinksStay(s: System, s': System, perm: bv12)
    requires TablesMade(s, s', perm)
    ensures LinksStay(s.phys.memory, s'.phys.memory, s.places) == true
  {
    forall f, i | f in s.places && 0 <= i < 512 && Links(Entry(s.phys.memory, f, i), Level(s.places[f]))
      ensures Entry(s'.phys.memory, f, i) == Entry(s.phys.memory, f, i)
    {
      assert EntryMade(s, s', f, i, perm);
    }
  }

  lemma LeafLinksStay(s: System, r: int, v: nat, e: Pte)
    requires WriteLeafReady(s, r, v)
    ensures LinksStay(s.phys.memory, SetLeaf(s, r, v, e).phys.memory, s.places) == true
  {
    SetLeafExactly(s, r, v, e);
    LeafSetKeeps(s, SetLeaf(s, r, v, e), r, v, e, 0);
    MadeLinksStay(s, SetLeaf(s, r, v, e), 0);
  }

  /** map_page makes tables and takes none away. */
  lemma {:induction false} MapLinksStay(s: System, r: int, p: int, v: nat, perm: bv12)
    requires CanWalk(s, r, v, perm)
    ensures LinksStay(s.phys.memory, MapPage(s, r, p, v, perm).phys.memory, s.places) == true
  {
    MapPageWalk(s, r, p, v, perm);
    MadeLinksStay(s, MapPage(s, r, p, v, perm), perm);
  }

  /** No operation takes a leaf table from a space that it does not drop. */
  lemma {:induction false} StepLinksStay(s: System, op: Op)
    requires Valid(s) && Enabled(s, op)
    ensures LinksStay(s.phys.memory, Step(s, op).phys.memory, s.places) == true
  {
    match op
    case MapOp(r, p, v, perm) =>
      MapLinksStay(s, r, p, v, perm);
    case UnmapOp(r, v) =>
      LeafLinksStay(s, r, v, Pte(0, 0));
    case ChangeOp(r, v, perm) =>
      AddFlagsKeeps(s.phys.memory, r, v, perm);
      AlikeLinksStay(s.phys.memory, AddFlags(s.phys.memory, r, v, perm), s.places);
    case NewSpaceOp(r) =>
      Frames.AllocTakesFree(s.phys.regions);
      var a := Frames.Alloc(s.phys.regions).0;
      OutsideLinksStay(s, a, Step(s, op).phys.memory);
    case DropOp(r) =>
  }

  lemma AlikeLinksStay(t: Memory, t': Memory, pl: Places)
    requires Alike(t, t') && SameSizes(t, t')
    ensures LinksStay(t, t', pl) == true
  {
    forall f, i | f in pl && 0 <= i < 512 && Links(Entry(t, f, i), Level(pl[f]))
      ensures Links(Entry(t', f, i), Level(pl[f])) && Entry(t', f, i).base == Entry(t, f, i).base
    {
      assert SizeBit(Entry(t', f, i).flags) == SizeBit(Entry(t, f, i).flags);
    }
  }

  lemma OutsideLinksStay(s: System, a: int, t': Memory)
    requires a !in s.places && a in t' && t' == s.phys.memory[a := t'[a]]
    ensures LinksStay(s.phys.memory, t', s.places) == true
  {
    forall f, i | f in s.places ensures Entry(t', f, i) == Entry(s.phys.memory, f, i) {
    }
  }

  /** An operation, and whether the thread of the ledger does it in its own space. */
  datatype Act = Act(op: Op, own: bool)

  function BookAfter(b: Ledger.Book, act: Act): Ledger.Book {
    if act.own && act.op.MapOp? then Ledger.Recorded(b, act.op.virt)
    else if act.own && act.op.UnmapOp? then Ledger.Forgotten(b, act.op.virt)
    else b
  }

  /** The ledger is right, and every address in it has its leaf table in the space of r. */
  ghost predicate Tracked(s: System, b: Ledger.Book, r: int) {
    && Valid(s) && IsRoot(s, r) && Ledger.Valid(b)
    && forall a | a in Ledger.Addresses(b.slots) :: LeafTable(s.phys.memory, r, 4, a).Some?
  }

  ghost predicate ActEnabled(s: System, b: Ledger.Book, r: int, act: Act)
    requires Valid(s)
  {
    && Enabled(s, act.op) && act.op != DropOp(r)
    && (act.own ==> act.op.root == r && (act.op.MapOp? || (act.op.UnmapOp? && Ledger.CanForget(b, act.op.virt))))
  }

  /** What the ledger should hold: the thread's own maps less its own unmaps, in order. */
  ghost function OwnBalance(start: multiset<nat>, acts: seq<Act>): multiset<nat>
    decreases |acts|
  {
    if acts == [] then start
    else
      var next := if !acts[0].own then start
                  else if acts[0].op.MapOp? then start + multiset{acts[0].op.virt}
                  else if acts[0].op.UnmapOp? then start - multiset{acts[0].op.virt}
                  else start;
      OwnBalance(next, acts[1..])
  }

  lemma BookFollows(b: Ledger.Book, act: Act)
    requires Ledger.Valid(b) && (act.own && act.op.UnmapOp? ==> Ledger.CanForget(b, act.op.virt))
    ensures Ledger.Valid(BookAfter(b, act)) == true
    ensures Ledger.Addresses(BookAfter(b, act).slots) == OwnBalance(Ledger.Addresses(b.slots), [act])
  {
    if act.own && act.op.MapOp? {
      Ledger.RecordKeeps(b, act.op.virt);
    } else if act.own && act.op.UnmapOp? {
      Ledger.ForgetKeeps(b, act.op.virt);
    }
  }

  lemma StepKeepsRoot(s: System, op: Op, r: int)
    requires Valid(s) && Enabled(s, op) && IsRoot(s, r) && op != DropOp(r)
    ensures IsRoot(Step(s, op), r) == true
  {
    StepRefines(s, FlatOf(s), op);
  }

  lemma MappedHasTable(s: System, r: int, p: int, v: nat, perm: bv12)
    requires CanMap(s, r, v, perm)
    ensures LeafTable(MapPage(s, r, p, v, perm).phys.memory, r, 4, v).Some?
  {
    PageIsMapped(s, r, p, v, perm);
    assert Affects(r, v, r, v);
    SmallHasLeafTable(MapPage(s, r, p, v, perm).phys.memory, r, v);
  }

  /** An address recorded after an operation has its leaf table. */
  lemma {:induction false} TableThere(s: System, b: Ledger.Book, r: int, act: Act, a: nat)
    requires Tracked(s, b, r) && ActEnabled(s, b, r, act) && a in OwnBalance(Ledger.Addresses(b.slots), [act])
    ensures LeafTable(Step(s, act.op).phys.memory, r, 4, a).Some?
  {
    if a in Ledger.Addresses(b.slots) {
      StepLinksStay(s, act.op);
      LeafTableStays(s.phys.memory, Step(s, act.op).phys.memory, s.places, r, 4, a);
    } else {
      MappedHasTable(s, r, act.op.phys, a, act.op.perm);
    }
  }

  /** Each operation, of this thread or another, keeps track of what the thread has mapped. */
  lemma {:induction false} ActTracks(s: System, b: Ledger.Book, r: int, act: Act)
    requires Tracked(s, b, r) && ActEnabled(s, b, r, act)
    ensures Tracked(Step(s, act.op), BookAfter(b, act), r) == true
  {
    var s', b' := Step(s, act.op), BookAfter(b, act);
    StepValid(s, act.op);
    StepKeepsRoot(s, act.op, r);
    BookFollows(b, act);
    forall a | a in Ledger.Addresses(b'.slots) ensures LeafTable(s'.phys.memory, r, 4, a).Some? {
      TableThere(s, b, r, act, a);
    }
  }

  /** Each operation of a run finds what it needs; that the thread stays tracked is proved, not asked. */
  ghost predicate ActsEnabled(s: System, b: Ledger.Book, r: int, acts: seq<Act>)
    requires Tracked(s, b, r)
    decreases |acts|
  {
    acts == [] ||
    (ActEnabled(s, b, r, acts[0]) &&
     (ActTracks(s, b, r, acts[0]); ActsEnabled(Step(s, acts[0].op), BookAfter(b, acts[0]), r, acts[1..])))
  }

  ghost function RunActs(s: System, b: Ledger.Book, r: int, acts: seq<Act>): (System, Ledger.Book)
    requires Tracked(s, b, r) && ActsEnabled(s, b, r, acts)
    decreases |acts|
  {
    if acts == [] then (s, b)
    else
      ActTracks(s, b, r, acts[0]);
      RunActs(Step(s, acts[0].op), BookAfter(b, acts[0]), r, acts[1..])
  }

  /** Over every run, also of other threads in any space, the ledger holds exactly what the thread
      has mapped and not unmapped, and each of these addresses keeps its leaf table, so that the
      exit loop can unmap it. */
  lemma {:induction false} RunTracks(s: System, b: Ledger.Book, r: int, acts: seq<Act>)
    requires Tracked(s, b, r) && ActsEnabled(s, b, r, acts)
    ensures var (s', b') := RunActs(s, b, r, acts);
      Tracked(s', b', r) && Ledger.Addresses(b'.slots) == OwnBalance(Ledger.Addresses(b.slots), acts)
    decreases |acts|
  {
    if acts != [] {
      ActTracks(s, b, r, acts[0]);
      BookFollows(b, acts[0]);
      RunTracks(Step(s, acts[0].op), BookAfter(b, acts[0]), r, acts[1..]);
    }
  }

  /** A new thread's ledger is empty, so it is tracked in any space. */
  lemma NewThreadTracked(s: System, r: int)
    requires Valid(s) && IsRoot(s, r)
    ensures Tracked(s, Ledger.Book(seq(8, _ => Ledger.EMPTY), 0), r) == true
  {
    Ledger.NothingListed(seq(8, _ => Ledger.EMPTY));
  }
}
