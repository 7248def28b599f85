/** Over every run, the page tables of all address spaces refine a flat map from pages to frames,
    one for the shared upper half and one for the lower half of each space. */
module AddressSpaces {
  import opened Options
  import opened Frames
  import opened PageTables
  import opened Paging

  /** What the page tables stand for. */
  datatype Flat = Flat(upper: map<nat, int>, lower: map<int, map<nat, int>>)

  function Get(m: map<nat, int>, page: nat): Option<int> {
    if page in m then Some(m[page]) else None
  }

  predicate IsUpper(v: nat) {
    Index(v, 4) >= 256
  }

  function FlatTranslate(fl: Flat, r: int, v: nat): Option<int> {
    if IsUpper(v) then Get(fl.upper, Page(v))
    else if r in fl.lower then Get(fl.lower[r], Page(v))
    else None
  }

  /** Every space translates every address as the flat map says. */
  ghost predicate Represents(s: System, fl: Flat) {
    && (forall r :: r in fl.lower <==> IsRoot(s, r))
    && (forall r, v: nat | IsRoot(s, r) :: Translate(s.phys.memory, r, v) == FlatTranslate(fl, r, v))
  }

  /** The pages of one half that a space maps, with their frames. */
  ghost function PagesOf(t: Memory, r: int, upper: bool): map<nat, int> {
    map p: nat | p < 0x1000000000 && IsUpper(p * 4096) == upper && Translate(t, r, p * 4096).Some? ::
      Translate(t, r, p * 4096).value
  }

  /** The upper half is read in any space, if there is one. */
  ghost function UpperOf(s: System): map<nat, int> {
    if exists r :: IsRoot(s, r) then
      var r :| IsRoot(s, r);
      PagesOf(s.phys.memory, r, true)
    else map[]
  }

  /** What the page tables of a valid system stand for. */
  ghost function FlatOf(s: System): (fl: Flat)
    requires Valid(s)
    ensures Represents(s, fl) == true
  {
    var fl := Flat(UpperOf(s), map r | r in s.places && s.places[r].Top? :: PagesOf(s.phys.memory, r, false));
    FlatOfRepresents(s, fl);
    fl
  }

  lemma FlatOfRepresents(s: System, fl: Flat)
    requires Valid(s)
    requires fl == Flat(UpperOf(s), map r | r in s.places && s.places[r].Top? :: PagesOf(s.phys.memory, r, false))
    ensures Represents(s, fl) == true
  {
    forall r, v: nat | IsRoot(s, r) ensures Translate(s.phys.memory, r, v) == FlatTranslate(fl, r, v) {
      PageStandsFor(s.phys.memory, r, v);
      if IsUpper(v) {
        var x :| IsRoot(s, x) && UpperOf(s) == PagesOf(s.phys.memory, x, true);
        PageStandsFor(s.phys.memory, x, v);
        UpperTranslatesAlike(s.phys.memory, s.places, r, x, v);
      }
    }
  }

  /** An address translates as the start of its page does. */
  lemma PageStandsFor(t: Memory, r: int, v: nat)
    ensures IsUpper(Page(v) * 4096) == IsUpper(v) && Translate(t, r, Page(v) * 4096) == Translate(t, r, v)
    ensures Get(PagesOf(t, r, IsUpper(v)), Page(v)) == Translate(t, r, v)
  {
    var w := Page(v) * 4096;
    assert Page(w) == Page(v);
    SamePage(v, w);
    SameIndicesSameLookup(t, r, 4, v, w);
    SameOffsets(v, w);
  }

  /** Addresses of one page have the same place in a large page. */
  lemma SameOffsets(v: nat, w: nat)
    requires w == Page(v) * 4096
    ensures v % 0x40000000 - v % 0x1000 == w % 0x40000000 - w % 0x1000
    ensures v % 0x200000 - v % 0x1000 == w % 0x200000 - w % 0x1000
  {
    var a, q, d := v / 0x1000, v / 0x1000 / 0x1000000000, v % 0x1000;
    assert a == q * 0x1000000000 + Page(v) && v == a * 0x1000 + d;
    assert w % 0x1000 == 0;
    OffsetInGigabyte(v, q, w, d);
    OffsetInTwoMegabytes(v, q, w, d);
  }

  lemma OffsetInGigabyte(v: nat, q: nat, w: nat, d: nat)
    requires v == q * 0x1000000000000 + w + d && w % 0x1000 == 0 && d < 0x1000
    ensures v % 0x40000000 == w % 0x40000000 + d
  {
    var page, k := w / 0x1000, w / 0x40000000;
    var u := w - k * 0x40000000;
    assert w == page * 0x1000 && u == (page - k * 0x40000) * 0x1000;
    assert u + d < 0x40000000;
    OffsetInGigabyteIs(v, q * 0x40000 + k, u + d);
  }

  lemma OffsetInGigabyteIs(v: nat, k: nat, r: nat)
    requires v == k * 0x40000000 + r && r < 0x40000000
    ensures v % 0x40000000 == r
  {
  }

  lemma OffsetInTwoMegabytes(v: nat, q: nat, w: nat, d: nat)
    requires v == q * 0x1000000000000 + w + d && w % 0x1000 == 0 && d < 0x1000
    ensures v % 0x200000 == w % 0x200000 + d
  {
    var page, k := w / 0x1000, w / 0x200000;
    var u := w - k * 0x200000;
    assert w == page * 0x1000 && u == (page - k * 0x200) * 0x1000;
    assert u + d < 0x200000;
    OffsetInTwoMegabytesIs(v, q * 0x8000000 + k, u + d);
  }

  lemma OffsetInTwoMegabytesIs(v: nat, k: nat, r: nat)
    requires v == k * 0x200000 + r && r < 0x200000
    ensures v % 0x200000 == r
  {
  }

  /** A single cleared top table, in a frame that is in use, stands for the empty map, whatever
      else is in memory. */
  lemma ClearedRepresents(rs: seq<Region>, memory: Memory, r: int)
    requires ValidRegions(rs) && !IsFree(rs, r) && r in memory && memory[r] == Cleared
    ensures var s := System(Phys(rs, memory), map[r := Top]);
      Valid(s) && Represents(s, Flat(map[], map[r := map[]]))
  {
    forall i ensures !Present(Entry(memory, r, i)) {
    }
  }

  datatype Op =
    | MapOp(root: int, phys: int, virt: nat, perm: bv12)
    | UnmapOp(root: int, virt: nat)
    | ChangeOp(root: int, virt: nat, perm: bv12)
    | NewSpaceOp(root: int)
    | DropOp(root: int)

  /** What each operation needs of a valid system: for a map in the upper half a top entry that is
      there or no other space, for a change a 4 KiB page and no page-size bit. */
  ghost predicate Enabled(s: System, op: Op)
    requires Valid(s)
  {
    IsRoot(s, op.root) &&
    match op
    case MapOp(r, p, v, perm) => CanMap(s, r, v, perm) && p % 4096 == 0
    case UnmapOp(r, v) => WriteLeafReady(s, r, v)
    case ChangeOp(r, v, perm) => Small(s.phys.memory, r, v) && !SizeBit(perm)
    case NewSpaceOp(_) => FreeFrames(s.phys.regions) != {}
    case DropOp(r) => CanDrop(s, r)
  }

  ghost function Step(s: System, op: Op): System
    requires Valid(s) && Enabled(s, op)
  {
    match op
    case MapOp(r, p, v, perm) => MapPage(s, r, p, v, perm)
    case UnmapOp(r, v) => SetLeaf(s, r, v, Pte(0, 0))
    case ChangeOp(r, v, perm) => s.(phys := s.phys.(memory := AddFlags(s.phys.memory, r, v, perm)))
    case NewSpaceOp(r) => NewSpace(s, r).1
    case DropOp(r) => DropSpace(s, r)
  }

  ghost function SetPage(fl: Flat, r: int, v: nat, frame: Option<int>): Flat {
    var page := Page(v);
    var update := (m: map<nat, int>) => if frame.Some? then m[page := frame.value] else m - {page};
    if IsUpper(v) then fl.(upper := update(fl.upper))
    else if r in fl.lower then fl.(lower := fl.lower[r := update(fl.lower[r])])
    else fl
  }

  /** The same operation on the flat map; a new space is named by the frame its top table gets. */
  ghost function FlatStep(fl: Flat, op: Op, newRoot: int): Flat {
    match op
    case MapOp(r, p, v, _) => SetPage(fl, r, v, Some(p))
    case UnmapOp(r, v) => SetPage(fl, r, v, None)
    case ChangeOp(_, _, _) => fl
    case NewSpaceOp(_) => fl.(lower := fl.lower[newRoot := map[]])
    case DropOp(r) => fl.(lower := fl.lower - {r})
  }

  lemma PageSetRefines(s: System, fl: Flat, s': System, r: int, v: nat, leaf: Option<Pte>, frame: Option<int>)
    requires Represents(s, fl) && IsRoot(s, r) && PageSet(s, s', r, v, leaf)
    requires frame == if leaf.Some? then Some(leaf.value.base) else None
    ensures Represents(s', SetPage(fl, r, v, frame))
  {
    var fl' := SetPage(fl, r, v, frame);
    forall x, w: nat | IsRoot(s', x) ensures Translate(s'.phys.memory, x, w) == FlatTranslate(fl', x, w) {
      assert Translate(s.phys.memory, x, w) == FlatTranslate(fl, x, w);
      SamePage(v, w);
    }
  }

  lemma ChangeRefines(s: System, fl: Flat, r: int, v: nat, perm: bv12, s': System)
    requires Valid(s) && Represents(s, fl) && Small(s.phys.memory, r, v) && !SizeBit(perm)
    requires s' == s.(phys := s.phys.(memory := AddFlags(s.phys.memory, r, v, perm)))
    ensures Valid(s') && Represents(s', fl)
  {
    AddFlagsKeeps(s.phys.memory, r, v, perm);
    AlikePlaced(s.phys.memory, s'.phys.memory, s.places);
  }

  lemma NewSpaceRefines(s: System, fl: Flat, r: int)
    requires Valid(s) && Represents(s, fl) && IsRoot(s, r) && FreeFrames(s.phys.regions) != {}
    ensures Represents(NewSpace(s, r).1, fl.(lower := fl.lower[Alloc(s.phys.regions).0 := map[]]))
  {
    NewSpaceAdds(s, r);
    AllocTakesFree(s.phys.regions);
    var (a, s') := NewSpace(s, r);
    var fl' := fl.(lower := fl.lower[a := map[]]);
    forall x, w: nat | IsRoot(s', x) ensures Translate(s'.phys.memory, x, w) == FlatTranslate(fl', x, w) {
      var y := if x == a then r else x;
      assert Translate(s.phys.memory, y, w) == FlatTranslate(fl, y, w);
    }
  }

  lemma DropRefines(s: System, fl: Flat, r: int)
    requires Represents(s, fl) && CanDrop(s, r)
    ensures Represents(DropSpace(s, r), fl.(lower := fl.lower - {r})) == true
  {
    DropSpaceDrops(s, r);
    var s', fl' := DropSpace(s, r), fl.(lower := fl.lower - {r});
    forall x, w: nat | IsRoot(s', x) ensures Translate(s'.phys.memory, x, w) == FlatTranslate(fl', x, w) {
      assert Translate(s.phys.memory, x, w) == FlatTranslate(fl, x, w);
    }
  }

  /** Every step keeps the system valid: tables stay placed and the upper half shared. */
  lemma StepValid(s: System, op: Op)
    requires Valid(s) && Enabled(s, op)
    ensures Valid(Step(s, op)) == true
  {
    match op
    case MapOp(r, p, v, perm) =>
      PageIsMapped(s, r, p, v, perm);
    case UnmapOp(r, v) =>
      SetLeafSets(s, r, v, Pte(0, 0));
    case ChangeOp(r, v, perm) =>
      AddFlagsKeeps(s.phys.memory, r, v, perm);
      AlikePlaced(s.phys.memory, Step(s, op).phys.memory, s.places);
    case NewSpaceOp(r) =>
      NewSpaceAdds(s, r);
    case DropOp(r) =>
      DropSpaceDrops(s, r);
  }

  /** Every step does to the flat map what it says. */
  lemma StepRefines(s: System, fl: Flat, op: Op)
    requires Valid(s) && Enabled(s, op) && Represents(s, fl)
    ensures Represents(Step(s, op), FlatStep(fl, op, Alloc(s.phys.regions).0)) == true
  {
    match op
    case MapOp(r, p, v, perm) =>
      PageIsMapped(s, r, p, v, perm);
      PageSetRefines(s, fl, MapPage(s, r, p, v, perm), r, v, Some(Pte(p, perm)), Some(p));
    case UnmapOp(r, v) =>
      SetLeafSets(s, r, v, Pte(0, 0));
      PageSetRefines(s, fl, SetLeaf(s, r, v, Pte(0, 0)), r, v, None, None);
    case ChangeOp(r, v, perm) =>
      ChangeRefines(s, fl, r, v, perm, Step(s, op));
    case NewSpaceOp(r) =>
      NewSpaceRefines(s, fl, r);
    case DropOp(r) =>
      DropRefines(s, fl, r);
  }

  /** Each operation of a run finds what it needs; that the system stays valid is proved, not asked. */
  ghost predicate RunEnabled(s: System, ops: seq<Op>)
    requires Valid(s)
    decreases |ops|
  {
    ops == [] || (Enabled(s, ops[0]) && (StepValid(s, ops[0]); RunEnabled(Step(s, ops[0]), ops[1..])))
  }

  ghost function Run(s: System, ops: seq<Op>): System
    requires Valid(s) && RunEnabled(s, ops)
    decreases |ops|
  {
    if ops == [] then s
    else
      StepValid(s, ops[0]);
      Run(Step(s, ops[0]), ops[1..])
  }

  ghost function FlatRun(s: System, fl: Flat, ops: seq<Op>): Flat
    requires Valid(s) && RunEnabled(s, ops)
    decreases |ops|
  {
    if ops == [] then fl
    else
      StepValid(s, ops[0]);
      FlatRun(Step(s, ops[0]), FlatStep(fl, ops[0], Alloc(s.phys.regions).0), ops[1..])
  }

  /** After every run the system is valid and the page tables translate exactly as the flat map. */
  lemma {:induction false} RunRefines(s: System, fl: Flat, ops: seq<Op>)
    requires Valid(s) && Represents(s, fl) && RunEnabled(s, ops)
    ensures Valid(Run(s, ops)) == true && Represents(Run(s, ops), FlatRun(s, fl, ops)) == true
    decreases |ops|
  {
    if ops != [] {
      StepValid(s, ops[0]);
      StepRefines(s, fl, ops[0]);
      RunRefines(Step(s, ops[0]), FlatStep(fl, ops[0], Alloc(s.phys.regions).0), ops[1..]);
    }
  }

  /** The operation leaves the lower half of space x alone, and the space. */
  ghost predicate Outside(op: Op, x: int) {
    && ((op.MapOp? || op.UnmapOp?) && op.root == x ==> IsUpper(op.virt))
    && (op.DropOp? ==> op.root != x)
  }

  /** The operation leaves the upper half alone. */
  ghost predicate LowerOnly(op: Op) {
    op.MapOp? || op.UnmapOp? ==> !IsUpper(op.virt)
  }

  lemma {:induction false} FlatRunIsolates(s: System, fl: Flat, ops: seq<Op>, x: int)
    requires Valid(s) && Represents(s, fl) && RunEnabled(s, ops) && IsRoot(s, x)
    requires forall i | 0 <= i < |ops| :: Outside(ops[i], x)
    ensures x in FlatRun(s, fl, ops).lower && FlatRun(s, fl, ops).lower[x] == fl.lower[x]
    ensures (forall i | 0 <= i < |ops| :: LowerOnly(ops[i])) ==> FlatRun(s, fl, ops).upper == fl.upper
    decreases |ops|
  {
    if ops != [] {
      var s1, fl1 := Step(s, ops[0]), FlatStep(fl, ops[0], Alloc(s.phys.regions).0);
      StepValid(s, ops[0]);
      StepRefines(s, fl, ops[0]);
      assert Outside(ops[0], x);
      FlatStepIsolates(s, fl, ops[0], x);
      FlatRunIsolates(s1, fl1, ops[1..], x);
    }
  }

  lemma FlatStepIsolates(s: System, fl: Flat, op: Op, x: int)
    requires Valid(s) && Represents(s, fl) && Enabled(s, op) && IsRoot(s, x) && Outside(op, x)
    ensures var fl1 := FlatStep(fl, op, Alloc(s.phys.regions).0);
      && x in fl1.lower && fl1.lower[x] == fl.lower[x] && IsRoot(Step(s, op), x)
      && (LowerOnly(op) ==> fl1.upper == fl.upper)
  {
    NewRootIsNew(s, op, x);
    StepRefines(s, fl, op);
  }

  lemma NewRootIsNew(s: System, op: Op, x: int)
    requires Valid(s) && Enabled(s, op) && IsRoot(s, x)
    ensures op.NewSpaceOp? ==> Alloc(s.phys.regions).0 != x
  {
    if op.NewSpaceOp? {
      AllocTakesFree(s.phys.regions);
    }
  }

  /** Isolation: a run that leaves the lower half of a space alone changes none of its
      translations there, whatever it does to other spaces and to the upper half, also if it drops
      spaces and builds others in their frames; at its end all spaces translate the upper half
      alike. If it leaves the upper half alone too, the space translates every address as before. */
  lemma RunIsolates(s: System, ops: seq<Op>, x: int)
    requires Valid(s) && RunEnabled(s, ops) && IsRoot(s, x)
    requires forall i | 0 <= i < |ops| :: Outside(ops[i], x)
    ensures IsRoot(Run(s, ops), x)
    ensures forall v: nat | !IsUpper(v) :: Translate(Run(s, ops).phys.memory, x, v) == Translate(s.phys.memory, x, v)
    ensures forall y, v: nat | IsRoot(Run(s, ops), y) && IsUpper(v) ::
              Translate(Run(s, ops).phys.memory, y, v) == Translate(Run(s, ops).phys.memory, x, v)
    ensures (forall i | 0 <= i < |ops| :: LowerOnly(ops[i])) ==>
              forall v: nat :: Translate(Run(s, ops).phys.memory, x, v) == Translate(s.phys.memory, x, v)
  {
    var fl := FlatOf(s);
    RunRefines(s, fl, ops);
    FlatRunIsolates(s, fl, ops, x);
    FlatIsolates(s, fl, Run(s, ops), FlatRun(s, fl, ops), x);
  }

  lemma FlatIsolates(s: System, fl: Flat, s': System, fl': Flat, x: int)
    requires Represents(s, fl) && Represents(s', fl') && IsRoot(s, x)
    requires x in fl'.lower && x in fl.lower && fl'.lower[x] == fl.lower[x]
    ensures IsRoot(s', x)
    ensures forall v: nat | !IsUpper(v) :: Translate(s'.phys.memory, x, v) == Translate(s.phys.memory, x, v)
    ensures forall y, v: nat | IsRoot(s', y) && IsUpper(v) ::
              Translate(s'.phys.memory, y, v) == Translate(s'.phys.memory, x, v)
    ensures fl'.upper == fl.upper ==>
              forall v: nat :: Translate(s'.phys.memory, x, v) == Translate(s.phys.memory, x, v)
  {
    forall v: nat
      ensures Translate(s'.phys.memory, x, v) == FlatTranslate(fl', x, v)
      ensures Translate(s.phys.memory, x, v) == FlatTranslate(fl, x, v)
    {
    }
    forall y, v: nat | IsRoot(s', y) && IsUpper(v)
      ensures Translate(s'.phys.memory, y, v) == Translate(s'.phys.memory, x, v)
    {
      assert Translate(s'.phys.memory, y, v) == FlatTranslate(fl', y, v);
    }
  }

  lemma {:induction false} RunCons(s: System, op: Op, s1: System, rest: seq<Op>, ops: seq<Op>)
    requires Valid(s) == true && Enabled(s, op) == true && s1 == Step(s, op) && Valid(s1) == true
    requires RunEnabled(s1, rest) == true && |ops| == 1 + |rest| && ops[0] == op && ops[1..] == rest
    ensures RunEnabled(s, ops) == true && Run(s, ops) == Run(s1, rest)
  {
  }

  lemma {:induction false} TwoSteps(s: System, op: Op, s1: System, op': Op)
    requires Valid(s) == true && Enabled(s, op) == true && s1 == Step(s, op) && Valid(s1) == true && Enabled(s1, op') == true
    ensures RunEnabled(s, [op, op']) == true && Run(s, [op, op']) == Step(s1, op')
  {
    StepValid(s1, op');
    RunCons(s1, op', Step(s1, op'), [], [op']);
    RunCons(s, op, s1, [op'], [op, op']);
  }

  lemma {:induction false} FirstUpperMap(s: System, r: int, v: nat, perm: bv12)
    requires Valid(s) && IsRoot(s, r) && OnlySpace(s, r) && perm & 1 == 1 && !SizeBit(perm)
    requires (forall i :: Entry(s.phys.memory, r, i) == Pte(0, 0)) && |FreeFrames(s.phys.regions)| >= 4
    ensures CanMap(s, r, v, perm) == true
  {
    assert !Present(Entry(s.phys.memory, r, Index(v, 4)));
  }

  /** From a single cleared top table an upper-half page can be mapped, and a space built then
      sees it: the kernel maps its heap before it makes processes. */
  lemma {:induction false} KernelMapsThenShares(s: System, r: int, p: int, v: nat, perm: bv12)
    requires Valid(s) && IsRoot(s, r) && OnlySpace(s, r) && IsUpper(v) && p % 4096 == 0
    requires (forall i :: Entry(s.phys.memory, r, i) == Pte(0, 0)) && |FreeFrames(s.phys.regions)| >= 4
    requires perm & 1 == 1 && !SizeBit(perm)
    ensures RunEnabled(s, [MapOp(r, p, v, perm), NewSpaceOp(r)])
    ensures var s' := Run(s, [MapOp(r, p, v, perm), NewSpaceOp(r)]);
      exists x :: x != r && IsRoot(s', x) && Translate(s'.phys.memory, x, v) == Some(p)
  {
    FirstUpperMap(s, r, v, perm);
    PageIsMapped(s, r, p, v, perm);
    var s1 := MapPage(s, r, p, v, perm);
    SpaceSeesUpper(s, s1, r, v, Pte(p, perm));
    TwoSteps(s, MapOp(r, p, v, perm), s1, NewSpaceOp(r));
  }

  lemma SpaceSeesUpper(s: System, s1: System, r: int, v: nat, leaf: Pte)
    requires PageMapped(s, s1, r, v, leaf, 3) == true && IsRoot(s, r) && IsUpper(v)
    requires |FreeFrames(s.phys.regions)| >= 4
    ensures Valid(s1) && IsRoot(s1, r) && FreeFrames(s1.phys.regions) != {}
    ensures var (x, s2) := NewSpace(s1, r);
      x != r && IsRoot(s2, x) && Translate(s2.phys.memory, x, v) == Some(leaf.base)
  {
    assert |FreeFrames(s1.phys.regions)| > 0;
    NewSpaceAdds(s1, r);
    assert Affects(r, v, r, v);
    assert Lookup(s1.phys.memory, r, 4, v) == Some(Leaf(leaf, 1));
  }
}
