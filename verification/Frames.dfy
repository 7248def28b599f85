/** The physical frame allocator: regions of memory with one mark per 4 KiB frame. */
module Frames {
  import opened Options

  /** One memory map region; kind 0 is usable memory, and a zero mark means a free frame. */
  datatype Region = Region(base: nat, length: nat, kind: nat, marks: seq<int>)

  function Count(r: Region): nat {
    r.length / 4096
  }

  /** Frame-aligned regions, each with marks for all its frames and none at address 0, which
      alloc_frame returns on failure; later regions start where earlier ones have ended. */
  ghost predicate ValidRegions(rs: seq<Region>) {
    && (forall k | 0 <= k < |rs| :: rs[k].base % 4096 == 0 && rs[k].base > 0 && Count(rs[k]) <= |rs[k].marks|)
    && (forall j, k | 0 <= j < k < |rs| :: rs[j].base + rs[j].length <= rs[k].base)
  }

  /** Frame i of region k is usable and lies at address a. */
  ghost predicate FrameAt(rs: seq<Region>, k: int, i: int, a: int) {
    && 0 <= k < |rs| && 0 <= i < Count(rs[k]) && Count(rs[k]) <= |rs[k].marks|
    && rs[k].kind == 0 && a == rs[k].base + i * 4096
  }

  ghost predicate IsMarked(rs: seq<Region>, a: int) {
    exists k, i :: FrameAt(rs, k, i, a) && rs[k].marks[i] != 0
  }

  ghost predicate IsFree(rs: seq<Region>, a: int) {
    exists k, i :: FrameAt(rs, k, i, a) && rs[k].marks[i] == 0
  }

  /** No address belongs to two frames. */
  lemma FrameUnique(rs: seq<Region>, k: int, i: int, k': int, i': int, a: int)
    requires ValidRegions(rs) && FrameAt(rs, k, i, a) && FrameAt(rs, k', i', a)
    ensures k == k' && i == i'
  {
  }

  function SetMark(rs: seq<Region>, k: nat, i: nat, mark: int): seq<Region>
    requires k < |rs| && i < |rs[k].marks|
  {
    rs[k := rs[k].(marks := rs[k].marks[i := mark])]
  }

  /** Setting one mark changes the state of that frame only. */
  lemma SetMarkMoves(rs: seq<Region>, k: nat, i: nat, mark: int, a: int)
    requires ValidRegions(rs) && FrameAt(rs, k, i, a)
    ensures ValidRegions(SetMark(rs, k, i, mark))
    ensures IsMarked(SetMark(rs, k, i, mark), a) <==> mark != 0
    ensures IsFree(SetMark(rs, k, i, mark), a) <==> mark == 0
    ensures forall b | b != a :: IsMarked(SetMark(rs, k, i, mark), b) <==> IsMarked(rs, b)
    ensures forall b | b != a :: IsFree(SetMark(rs, k, i, mark), b) <==> IsFree(rs, b)
  {
    var rs' := SetMark(rs, k, i, mark);
    assert FrameAt(rs', k, i, a);
    forall k', i' | FrameAt(rs', k', i', a) ensures k' == k && i' == i {
      FrameUnique(rs', k, i, k', i', a);
    }
    forall b, k', i' | b != a ensures FrameAt(rs, k', i', b) <==> FrameAt(rs', k', i', b)
      ensures FrameAt(rs, k', i', b) ==> rs'[k'].marks[i'] == rs[k'].marks[i']
    {
    }
  }

  ghost predicate AreFree(fs: set<int>, rs: seq<Region>) {
    forall a :: a in fs <==> IsFree(rs, a)
  }

  lemma FinitelyManyFree(rs: seq<Region>)
    ensures exists fs :: AreFree(fs, rs)
  {
    var fs := set k, i | 0 <= k < |rs| && 0 <= i < |rs[k].marks| && FrameAt(rs, k, i, rs[k].base + i * 4096)
                         && rs[k].marks[i] == 0 :: rs[k].base + i * 4096;
    assert AreFree(fs, rs);
  }

  /** The free frames; there are finitely many, so they can be counted. */
  ghost function FreeFrames(rs: seq<Region>): (fs: set<int>)
    ensures AreFree(fs, rs)
  {
    FinitelyManyFree(rs);
    var fs :| AreFree(fs, rs);
    fs
  }

  lemma FreeFramesAre(rs: seq<Region>, fs: set<int>)
    requires AreFree(fs, rs)
    ensures FreeFrames(rs) == fs
  {
    assert AreFree(FreeFrames(rs), rs);
    forall a ensures a in FreeFrames(rs) <==> a in fs {
      assert a in fs <==> IsFree(rs, a);
    }
  }

  /** The first free usable frame from frame i of region k on, in the order alloc_frame looks. */
  function FirstFree(rs: seq<Region>, k: nat, i: nat): (r: Option<(nat, nat)>)
    requires forall j | 0 <= j < |rs| :: Count(rs[j]) <= |rs[j].marks|
    ensures r.Some? ==> r.value.0 < |rs| && r.value.1 < Count(rs[r.value.0])
    decreases |rs| - k, if k < |rs| then Count(rs[k]) - i else 0
  {
    if k >= |rs| then None
    else if i >= Count(rs[k]) then FirstFree(rs, k + 1, 0)
    else if rs[k].marks[i] == 0 && rs[k].kind == 0 then Some((k, i))
    else FirstFree(rs, k, i + 1)
  }

  /** alloc_frame: the address of the frame taken, or 0, and the regions afterwards. */
  function Alloc(rs: seq<Region>): (int, seq<Region>)
    requires forall j | 0 <= j < |rs| :: Count(rs[j]) <= |rs[j].marks|
  {
    match FirstFree(rs, 0, 0)
    case None => (0, rs)
    case Some((k, i)) => (rs[k].base + i * 4096, SetMark(rs, k, i, 1))
  }

  lemma {:induction false} FirstFreeIsFree(rs: seq<Region>, k: nat, i: nat)
    requires forall j | 0 <= j < |rs| :: Count(rs[j]) <= |rs[j].marks|
    ensures match FirstFree(rs, k, i)
      case None => forall k', i', a | ((k == k' && i <= i') || k < k') && FrameAt(rs, k', i', a) ::
          rs[k'].marks[i'] != 0
      case Some((k', i')) =>
        && FrameAt(rs, k', i', rs[k'].base + i' * 4096) && rs[k'].marks[i'] == 0
        && forall k'', i'', a | ((k == k'' && i <= i'') || k < k'') && (k'' < k' || (k'' == k' && i'' < i'))
                             && FrameAt(rs, k'', i'', a) :: rs[k''].marks[i''] != 0
    decreases |rs| - k, if k < |rs| then Count(rs[k]) - i else 0
  {
    if k >= |rs| {
    } else if i >= Count(rs[k]) {
      FirstFreeIsFree(rs, k + 1, 0);
    } else if rs[k].marks[i] == 0 && rs[k].kind == 0 {
    } else {
      FirstFreeIsFree(rs, k, i + 1);
    }
  }

  /** Marking a free frame leaves all other frames as they were. */
  lemma MarkTakesFree(rs: seq<Region>, k: nat, i: nat, a: int)
    requires ValidRegions(rs) && FrameAt(rs, k, i, a) && rs[k].marks[i] == 0
    ensures ValidRegions(SetMark(rs, k, i, 1)) && IsFree(rs, a) && !IsMarked(rs, a)
    ensures forall b :: IsMarked(SetMark(rs, k, i, 1), b) <==> IsMarked(rs, b) || b == a
    ensures FreeFrames(SetMark(rs, k, i, 1)) == FreeFrames(rs) - {a}
  {
    SetMarkMoves(rs, k, i, 1, a);
    forall k', i' | FrameAt(rs, k', i', a) ensures k' == k && i' == i {
      FrameUnique(rs, k, i, k', i', a);
    }
    assert AreFree(FreeFrames(rs), rs);
    FreeFramesAre(SetMark(rs, k, i, 1), FreeFrames(rs) - {a});
  }

  /** alloc_frame takes an unmarked usable frame and marks nothing else; it fails, changing
      nothing, exactly if every usable frame is marked. */
  lemma AllocTakesFree(rs: seq<Region>)
    requires ValidRegions(rs)
    ensures ValidRegions(Alloc(rs).1)
    ensures Alloc(rs).0 == 0 <==> FreeFrames(rs) == {}
    ensures Alloc(rs).0 == 0 ==> Alloc(rs).1 == rs
    ensures Alloc(rs).0 != 0 ==>
      var (a, rs') := Alloc(rs);
      && a > 0 && a % 4096 == 0 && IsFree(rs, a) && !IsMarked(rs, a)
      && (forall b :: IsMarked(rs', b) <==> IsMarked(rs, b) || b == a)
      && FreeFrames(rs') == FreeFrames(rs) - {a}
  {
    FirstFreeIsFree(rs, 0, 0);
    match FirstFree(rs, 0, 0)
    case None =>
      FreeFramesAre(rs, {});
    case Some((k, i)) =>
      var a := rs[k].base + i * 4096;
      MarkTakesFree(rs, k, i, a);
      assert AreFree(FreeFrames(rs), rs);
  }

  /** What one turn of free_frame's loop does at region k. A turn that neither clears a mark
      nor moves on repeats forever. */
  datatype Turn = Clear | Advance | Spin

  function FreeTurn(rs: seq<Region>, a: int, k: nat): Turn
    requires k < |rs|
  {
    if k + 1 < |rs| then
      if rs[k].base <= a < rs[k + 1].base then Clear
      else if a > rs[k].base + rs[k].length then Advance
      else Spin
    else Clear
  }

  /** The region whose mark free_frame clears, or None if its loop never ends. */
  function FreeWalk(rs: seq<Region>, a: int, k: nat): (r: Option<nat>)
    requires k < |rs|
    ensures r.Some? ==> k <= r.value < |rs|
    decreases |rs| - k
  {
    match FreeTurn(rs, a, k)
    case Clear => Some(k)
    case Advance => FreeWalk(rs, a, k + 1)
    case Spin => None
  }

  /** No region before region t ends exactly at a: the advance test compares strictly. */
  ghost predicate NotAtAnEnd(rs: seq<Region>, a: int, k: int, t: int) {
    forall j | 0 <= k <= j < t && j < |rs| :: rs[j].base + rs[j].length != a
  }

  /** On a frame of region t the walk ends, and at t, exactly if no earlier region ends at it. */
  lemma {:induction false} FreeWalkEnds(rs: seq<Region>, a: int, k: nat, t: nat, i: nat)
    requires ValidRegions(rs) && k <= t < |rs| && i < Count(rs[t]) && a == rs[t].base + i * 4096
    ensures FreeWalk(rs, a, k) == if NotAtAnEnd(rs, a, k, t) then Some(t) else None
    decreases t - k
  {
    if k < t {
      FreeWalkEnds(rs, a, k + 1, t, i);
    }
  }

  /** Two adjacent one-frame regions: freeing the first frame of the second never returns. */
  lemma FreeSpins()
    ensures exists rs, a :: ValidRegions(rs) && IsMarked(rs, a) && |rs| > 0 && FreeWalk(rs, a, 0).None?
  {
    var rs := [Region(4096, 4096, 0, [1]), Region(8192, 4096, 0, [1])];
    assert FrameAt(rs, 1, 0, 8192);
    assert FreeTurn(rs, 8192, 0) == Spin;
    assert FreeWalk(rs, 8192, 0).None?;
  }

  /** No region before the one of frame a ends where a starts, so free_frame's walk gets to it. */
  ghost predicate CanFree(rs: seq<Region>, a: int) {
    forall k, i | FrameAt(rs, k, i, a) :: NotAtAnEnd(rs, a, 0, k)
  }

  /** On a marked frame free_frame returns exactly if it can get there. */
  lemma FreeReturnsIff(rs: seq<Region>, a: int)
    requires ValidRegions(rs) && IsMarked(rs, a)
    ensures |rs| > 0 && (FreeWalk(rs, a, 0).Some? <==> CanFree(rs, a))
  {
    var k, i :| FrameAt(rs, k, i, a) && rs[k].marks[i] != 0;
    FreeWalkEnds(rs, a, 0, k, i);
    forall k', i' | FrameAt(rs, k', i', a) ensures k' == k {
      FrameUnique(rs, k, i, k', i', a);
    }
  }

  datatype FrameOp = AllocOp | FreeOp(frame: int)

  /** The allocator together with the frames handed out and not yet given back. */
  datatype FrameState = FrameState(regions: seq<Region>, live: set<int>)

  /** Only frames that are out may be given back, and only those free_frame can get to. */
  ghost predicate Enabled(s: FrameState, op: FrameOp) {
    op.FreeOp? ==> op.frame in s.live && CanFree(s.regions, op.frame)
  }

  function FrameStep(s: FrameState, op: FrameOp): FrameState
    requires ValidRegions(s.regions)
  {
    match op
    case AllocOp =>
      var (a, rs) := Alloc(s.regions);
      FrameState(rs, if a == 0 then s.live else s.live + {a})
    case FreeOp(a) => FrameState(Release(s.regions, a), s.live - {a})
  }

  /** free_frame, where its walk ends. */
  function Release(rs: seq<Region>, a: int): seq<Region> {
    if |rs| == 0 || FreeWalk(rs, a, 0).None? then rs
    else
      var k := FreeWalk(rs, a, 0).value;
      var i := (a - rs[k].base) / 4096;
      if 0 <= i < |rs[k].marks| then SetMark(rs, k, i, 0) else rs
  }

  /** The marked frames are exactly those handed out and not given back. */
  ghost predicate Accounted(s: FrameState) {
    ValidRegions(s.regions) && forall a :: IsMarked(s.regions, a) <==> a in s.live
  }

  lemma ReleaseFrees(rs: seq<Region>, a: int)
    requires ValidRegions(rs) && IsMarked(rs, a) && CanFree(rs, a)
    ensures ValidRegions(Release(rs, a)) && IsFree(Release(rs, a), a)
    ensures forall b :: IsMarked(Release(rs, a), b) <==> IsMarked(rs, b) && b != a
    ensures FreeFrames(Release(rs, a)) == FreeFrames(rs) + {a}
  {
    var k, i :| FrameAt(rs, k, i, a) && rs[k].marks[i] != 0;
    FreeWalkEnds(rs, a, 0, k, i);
    assert Release(rs, a) == SetMark(rs, k, i, 0);
    ClearFrees(rs, k, i, a);
  }

  /** From rs to rs' frame a has become free, and no other. */
  ghost predicate OnlyFreed(rs: seq<Region>, rs': seq<Region>, a: int) {
    && ValidRegions(rs') && FreeFrames(rs') == FreeFrames(rs) + {a}
    && forall b :: IsMarked(rs', b) <==> IsMarked(rs, b) && b != a
  }

  lemma ReleaseOnlyFrees(rs: seq<Region>, a: int)
    requires ValidRegions(rs) && IsMarked(rs, a) && CanFree(rs, a)
    ensures OnlyFreed(rs, Release(rs, a), a) == true
  {
    ReleaseFrees(rs, a);
  }

  lemma ClearFrees(rs: seq<Region>, k: nat, i: nat, a: int)
    requires ValidRegions(rs) && FrameAt(rs, k, i, a)
    ensures ValidRegions(SetMark(rs, k, i, 0)) && IsFree(SetMark(rs, k, i, 0), a)
    ensures forall b :: IsMarked(SetMark(rs, k, i, 0), b) <==> IsMarked(rs, b) && b != a
    ensures FreeFrames(SetMark(rs, k, i, 0)) == FreeFrames(rs) + {a}
  {
    SetMarkMoves(rs, k, i, 0, a);
    assert AreFree(FreeFrames(rs), rs);
    FreeFramesAre(SetMark(rs, k, i, 0), FreeFrames(rs) + {a});
  }

  /** No step moves a region or takes marks away. */
  lemma StepValid(s: FrameState, op: FrameOp)
    requires ValidRegions(s.regions)
    ensures ValidRegions(FrameStep(s, op).regions)
  {
    if op.AllocOp? {
      AllocTakesFree(s.regions);
    } else {
      ReleaseValid(s.regions, op.frame);
    }
  }

  lemma ReleaseValid(rs: seq<Region>, a: int)
    requires ValidRegions(rs)
    ensures ValidRegions(Release(rs, a))
  {
    var rs' := Release(rs, a);
    assert |rs'| == |rs| && forall k | 0 <= k < |rs| ::
        rs'[k].base == rs[k].base && rs'[k].length == rs[k].length && |rs'[k].marks| == |rs[k].marks|;
  }

  /** Every step keeps the account: nothing in use is handed out again, and nothing stays
      marked once it is given back. */
  lemma StepAccounted(s: FrameState, op: FrameOp)
    requires Accounted(s) && Enabled(s, op)
    ensures Accounted(FrameStep(s, op))
    ensures op.AllocOp? ==> Alloc(s.regions).0 !in s.live || Alloc(s.regions).0 == 0
  {
    match op
    case AllocOp => AllocTakesFree(s.regions);
    case FreeOp(a) => ReleaseFrees(s.regions, a);
  }

  ghost predicate RunEnabled(s: FrameState, ops: seq<FrameOp>)
    requires ValidRegions(s.regions)
    decreases |ops|
  {
    ops == [] || (Enabled(s, ops[0]) && (StepValid(s, ops[0]); RunEnabled(FrameStep(s, ops[0]), ops[1..])))
  }

  function FrameRun(s: FrameState, ops: seq<FrameOp>): FrameState
    requires ValidRegions(s.regions)
    decreases |ops|
  {
    if ops == [] then s
    else
      StepValid(s, ops[0]);
      FrameRun(FrameStep(s, ops[0]), ops[1..])
  }

  /** Over every run of alloc_frame and free_frame the marked frames are exactly the frames
      allocated and not freed, and every free_frame returns. */
  lemma {:induction false} RunAccounted(s: FrameState, ops: seq<FrameOp>)
    requires Accounted(s) && RunEnabled(s, ops)
    ensures Accounted(FrameRun(s, ops))
    decreases |ops|
  {
    if ops != [] {
      StepAccounted(s, ops[0]);
      RunAccounted(FrameStep(s, ops[0]), ops[1..]);
    }
  }

  /** In such a run the walk of each free_frame ends. */
  lemma {:induction false} RunReturns(s: FrameState, ops: seq<FrameOp>, i: nat)
    requires Accounted(s) && RunEnabled(s, ops) && i < |ops| && ops[i].FreeOp?
    ensures var rs := FrameRun(s, ops[..i]).regions; |rs| > 0 && FreeWalk(rs, ops[i].frame, 0).Some?
    decreases |ops|
  {
    if i == 0 {
      assert ops[..0] == [];
      FreeReturnsIff(s.regions, ops[0].frame);
    } else {
      StepAccounted(s, ops[0]);
      RunReturns(FrameStep(s, ops[0]), ops[1..], i - 1);
      assert ops[..i][1..] == ops[1..][..i - 1];
    }
  }

  class FrameAllocator {
    var regions: seq<Region>

    constructor (rs: seq<Region>)
      ensures regions == rs
    {
      regions := rs;
    }

    /** alloc_frame: the nested search for the first free frame of usable memory. */
    method AllocFrame() returns (addr: int)
      requires ValidRegions(regions)
      modifies this
      ensures (addr, regions) == Alloc(old(regions))
    {
      var k := 0;
      while k < |regions|
        invariant k <= |regions| && regions == old(regions)
        invariant FirstFree(regions, 0, 0) == FirstFree(regions, k, 0)
      {
        var i := 0;
        while i < Count(regions[k])
          invariant i <= Count(regions[k]) && regions == old(regions)
          invariant FirstFree(regions, 0, 0) == FirstFree(regions, k, i)
        {
          if regions[k].marks[i] == 0 && regions[k].kind == 0 {
            addr := regions[k].base + i * 4096;
            regions := SetMark(regions, k, i, 1);
            return;
          }
          i := i + 1;
        }
        k := k + 1;
      }
      return 0;
    }

    /** free_frame on a marked frame at which no earlier region ends; on any other frame of a
        later region its loop never ends (FreeWalkEnds). */
    method FreeFrame(addr: int)
      requires ValidRegions(regions) && IsMarked(regions, addr) && CanFree(regions, addr)
      modifies this
      ensures regions == Release(old(regions), addr) && OnlyFreed(old(regions), regions, addr) == true
    {
      ReleaseOnlyFrees(regions, addr);
      ghost var t := MarkedWalk(regions, addr);
      ClearMark(addr, t);
    }

    /** The walk to the region of addr. */
    method ClearMark(addr: int, ghost t: nat)
      requires t < |regions| && FreeWalk(regions, addr, 0) == Some(t)
      requires 0 <= (addr - regions[t].base) / 4096 < |regions[t].marks|
      modifies this
      ensures regions == Release(old(regions), addr)
    {
      var k := 0;
      while true
        invariant 0 <= k <= t && regions == old(regions)
        invariant FreeWalk(regions, addr, k) == Some(t)
        decreases t - k
      {
        if k + 1 < |regions| {
          if regions[k].base <= addr < regions[k + 1].base {
            regions := SetMark(regions, k, (addr - regions[k].base) / 4096, 0);
            return;
          } else if addr > regions[k].base + regions[k].length {
            k := k + 1;
          } else {
            assert false;  // where the C loop would spin
          }
        } else {
          regions := SetMark(regions, k, (addr - regions[k].base) / 4096, 0);
          return;
        }
      }
    }
  }

  lemma MarkedWalk(rs: seq<Region>, a: int) returns (t: nat)
    requires ValidRegions(rs) && IsMarked(rs, a) && CanFree(rs, a)
    ensures t < |rs| && FreeWalk(rs, a, 0) == Some(t) && 0 <= (a - rs[t].base) / 4096 < |rs[t].marks|
  {
    var k, i :| FrameAt(rs, k, i, a) && rs[k].marks[i] != 0;
    FreeWalkEnds(rs, a, 0, k, i);
    t := k;
  }
}
