/** The paging code itself: methods that walk and write tables in place, proved to do what the
    steps on physical memory say. */
module Mmu {
  import opened Options
  import opened Frames
  import opened PageTables
  import opened Paging
  import opened MapRanges

  const EINVAL := 22

  /** A 64-bit entry splits into an aligned base and twelve flag bits, and or-ing the two puts
      it together again. */
  lemma EntrySplits(phys: bv64, perm: bv64)
    requires phys & 0xfff == 0 && perm < 0x1000
    ensures (phys | perm) & !0xfff == phys && (phys | perm) & 0xfff == perm
  {
  }

  class Mmu {
    const frames: FrameAllocator
    var memory: Memory
    ghost var places: Places

    constructor (frames: FrameAllocator, memory: Memory, ghost places: Places)
      ensures this.frames == frames && State() == System(Phys(frames.regions, memory), places)
    {
      this.frames, this.memory, this.places := frames, memory, places;
    }

    ghost function State(): System
      reads this, frames
    {
      System(Phys(frames.regions, memory), places)
    }

    /** alloc_frame with its memset. */
    method AllocCleared() returns (a: int)
      requires ValidRegions(frames.regions)
      modifies this, frames
      ensures (a, State().phys) == AllocZeroed(old(State().phys)) && places == old(places)
    {
      a := frames.AllocFrame();
      if a != 0 {
        memory := memory[a := Cleared];
      }
    }

    /** The step map_page takes at each of the upper three levels. */
    method NextTable(f: int, i: nat, perm: bv12) returns (c: int)
      requires CanEnsure(State(), f, i, perm)
      modifies this, frames
      ensures (c, State()) == EnsureTable(old(State()), f, i, perm)
      ensures Made(old(State()), f, i, perm, c, State()) == true
    {
      EnsureTableKeeps(State(), f, i, perm);
      var entry := Entry(memory, f, i);
      if !Present(entry) {
        AllocTakesFree(frames.regions);
        var a := AllocCleared();
        memory := Write(memory, f, i, Pte(a, perm));
        places := places[a := Child(places[f], f, i)];
        entry := Pte(a, perm);
      }
      return entry.base;
    }

    /** The upper three levels of map_page: makes the tables that are missing. */
    method WalkTables(pml4: int, virt: nat, perm: bv12) returns (pt: int)
      requires CanWalk(State(), pml4, virt, perm) == true
      modifies this, frames
      ensures (pt, State()) == EnsureWalk(old(State()), pml4, virt, perm)
    {
      ReachNext(State(), pml4, 4, virt, perm);
      var pdpt := NextTable(pml4, Index(virt, 4), perm);
      ReachNext(State(), pdpt, 3, virt, perm);
      var pd := NextTable(pdpt, Index(virt, 3), perm);
      ReachNext(State(), pd, 2, virt, perm);
      pt := NextTable(pd, Index(virt, 2), perm);
    }

    /** map_page, without its ledger. */
    method MapPage(pml4: int, phys: int, virt: nat, perm: bv12)
      requires CanWalk(State(), pml4, virt, perm) == true
      modifies this, frames
      ensures State() == Paging.MapPage(old(State()), pml4, phys, virt, perm)
      ensures CanMap(old(State()), pml4, virt, perm) ==>
                PageMapped(old(State()), State(), pml4, virt, Pte(phys, perm), 3) == true
      ensures WalkMapped(old(State()), State(), pml4, phys, virt, perm) == true
    {
      MapPageDoes(State(), pml4, phys, virt, perm);
      EnsureWalkKeeps(State(), pml4, virt, perm);
      var pt := WalkTables(pml4, virt, perm);
      LeafTablePlaced(memory, places, pml4, virt, pml4, 4);
      memory := Write(memory, pt, Index(virt, 1), Pte(phys, perm));
    }

    /** unmap_page, without its ledger: clears the leaf entry. */
    method UnmapPage(pml4: int, virt: nat)
      requires WriteLeafReady(State(), pml4, virt) && Sharing(State())
      modifies this`memory
      ensures State() == SetLeaf(old(State()), pml4, virt, Pte(0, 0))
      ensures Valid(State()) == true && PageSet(old(State()), State(), pml4, virt, None) == true
      ensures DataKept(old(State()), State()) == true && LeafSet(old(State()), State(), pml4, virt, Pte(0, 0)) == true
    {
      LeafKept(State(), pml4, virt, Pte(0, 0));
      SetLeafSets(State(), pml4, virt, Pte(0, 0));
      LeafTablePlaced(memory, places, pml4, virt, pml4, 4);
      var pdpt := Entry(memory, pml4, Index(virt, 4)).base;
      var pd := Entry(memory, pdpt, Index(virt, 3)).base;
      var pt := Entry(memory, pd, Index(virt, 2)).base;
      LeafIsThird(memory, pml4, virt);
      memory := Write(memory, pt, Index(virt, 1), Pte(0, 0));
    }

    /** change_page_map: or-s the flags into the four entries of the walk, writing each back. */
    method ChangePageMap(cr3: int, virt: nat, perm: bv12)
      requires Small(memory, cr3, virt) && !SizeBit(perm)
      modifies this`memory
      ensures memory == AddFlags(old(memory), cr3, virt, perm)
      ensures SameTranslations(old(memory), memory) == true && WalkHas(memory, cr3, virt, 1, perm) == true
      ensures AddedAt(old(memory), memory, WalkSlots(old(memory), cr3, virt), perm) == true
    {
      AddFlagsKeeps(memory, cr3, virt, perm);
      var entry := Entry(memory, cr3, Index(virt, 4));
      memory := AddAt(memory, cr3, Index(virt, 4), perm);
      var pdpt := entry.base;
      entry := Entry(memory, pdpt, Index(virt, 3));
      memory := AddAt(memory, pdpt, Index(virt, 3), perm);
      var pd := entry.base;
      entry := Entry(memory, pd, Index(virt, 2));
      memory := AddAt(memory, pd, Index(virt, 2), perm);
      memory := AddAt(memory, entry.base, Index(virt, 1), perm);
    }

    method ChangePages(cr3: int, virt: nat, perm: bv12, count: nat)
      requires PagesMapped(memory, cr3, virt, count) == true && !SizeBit(perm)
      modifies this`memory
      ensures memory == AddFlagsRange(old(memory), cr3, virt, perm, count)
    {
      ghost var t := memory;
      var i := 0;
      while i < count
        invariant i <= count && PagesMapped(t, cr3, virt, i) == true && memory == AddFlagsRange(t, cr3, virt, perm, i)
      {
        NextPage(t, memory, cr3, virt, perm, i, count);
        ChangePageMap(cr3, PageAddr(virt, i), perm);
        i := i + 1;
      }
    }

    /** change_page_map_range: the entries at all four levels of every page meeting
        [virt, virt + size) get the flags, and no others; every translation of every space stays. */
    method ChangePageMapRange(cr3: int, virt: nat, size: nat, perm: bv12) returns (err: int)
      requires PagesMapped(memory, cr3, virt, PageCount(virt, size)) && !SizeBit(perm)
      modifies this`memory
      ensures err == (if size == 0 then 22 else 0)
      ensures size == 0 ==> memory == old(memory)
      ensures SameTranslations(old(memory), memory) == true
      ensures AddedAt(old(memory), memory, RangeSlots(old(memory), cr3, virt, PageCount(virt, size)), perm) == true
      ensures RangeHas(memory, cr3, virt, perm, PageCount(virt, size)) == true
    {
      if size == 0 {
        AddFlagsNone(memory, cr3, virt, perm);
        return EINVAL;
      }
      var count := CountPages(virt, size);
      PageCountCounts(virt, size, count);
      ChangePages(cr3, virt, perm, count);
      return 0;
    }

    /** The three cases of map_range and change_page_map_range for a range that is not empty. */
    static method CountPages(virt: nat, size: nat) returns (count: nat)
      requires size > 0
      ensures CountsPages(virt, size, count)
    {
      var total := size + virt % 4096;
      if total <= 4096 {
        count := 1;
      } else if total % 4096 == 0 {
        count := total / 4096;
      } else {
        count := total / 4096 + 1;
      }
      PageCountCounts(virt, size, count);
    }

    method MapFreshPage(pml4: int, virt: nat, perm: bv12) returns (phys: int)
      requires CanMapFresh(State(), pml4, virt, perm) == true
      modifies this, frames
      ensures (phys, State()) == MapFresh(old(State()), pml4, virt, perm)
    {
      phys := AllocCleared();
      MapPage(pml4, phys, virt, perm);
    }

    /** Turn i of map_range's loop. */
    method MapTurn(pml4: int, virt: nat, perm: bv12, i: nat, ghost s: System)
      requires TurnEnabled(s, pml4, virt, perm, i) == true && State() == MapPages(s, pml4, virt, perm, i).1
      modifies this, frames
      ensures State() == MapPages(s, pml4, virt, perm, i + 1).1
    {
      NextTurn(s, pml4, virt, perm, i, State());
      var phys := MapFreshPage(pml4, PageAddr(virt, i), perm);
    }

    method MapFreshPages(pml4: int, virt: nat, perm: bv12, count: nat)
      requires RangeEnabled(State(), pml4, virt, perm, count) == true
      modifies this, frames
      ensures State() == MapPages(old(State()), pml4, virt, perm, count).1
    {
      ghost var s := State();
      var i := 0;
      while i < count
        invariant i <= count && State() == MapPages(s, pml4, virt, perm, i).1
      {
        TurnAt(s, pml4, virt, perm, count, i);
        MapTurn(pml4, virt, perm, i, s);
        i := i + 1;
      }
    }

    /** map_range: backs every page meeting [virt, virt + size) with a fresh zeroed frame. */
    method MapRange(pml4: int, virt: nat, perm: bv12, size: nat) returns (err: int)
      requires RangeEnabled(State(), pml4, virt, perm, PageCount(virt, size)) == true
      modifies this, frames
      ensures err == (if size == 0 then 22 else 0)
      ensures State() == MapPages(old(State()), pml4, virt, perm, PageCount(virt, size)).1
      ensures TurnsDone(old(State()), pml4, virt, perm, PageCount(virt, size)) == true
    {
      MapPagesMaps(State(), pml4, virt, perm, PageCount(virt, size));
      if size == 0 {
        return EINVAL;
      }
      var count := CountPages(virt, size);
      PageCountCounts(virt, size, count);
      MapFreshPages(pml4, virt, perm, count);
      return 0;
    }

    /** virt_to_phys reads the translation plus the page offset. */
    method VirtToPhys(virt: nat, cr3: int) returns (phys: int)
      ensures phys == PageTables.VirtToPhys(memory, cr3, virt)
      ensures Small(memory, cr3, virt) ==> Translate(memory, cr3, virt) == Some(phys - virt % 0x1000)
    {
      var pdpt := Entry(memory, cr3, Index(virt, 4)).base;
      var pd := Entry(memory, pdpt, Index(virt, 3)).base;
      var pt := Entry(memory, pd, Index(virt, 2)).base;
      phys := Entry(memory, pt, Index(virt, 1)).base + virt % 0x1000;
      if Small(memory, cr3, virt) {
        VirtToPhysTranslates(memory, cr3, virt);
      }
    }

    /** The two loops of create_new_userspace_page_table: clear the table, copy the upper half. */
    method FillTop(cr3: int, kernel: int)
      requires IsTable(memory, cr3) && IsTable(memory, kernel) && cr3 != kernel
      modifies this`memory
      ensures memory == old(memory)[cr3 := Table(UpperCopy(EntriesOf(old(memory)[kernel])))]
    {
      var i := 0;
      while i < 512
        invariant i <= 512 && IsTable(memory, cr3) && memory == old(memory)[cr3 := memory[cr3]]
        invariant i > 0 ==> memory[cr3].Table?
        invariant forall k | 0 <= k < i :: EntriesOf(memory[cr3])[k] == Pte(0, 0)
      {
        memory := Write(memory, cr3, i, Pte(0, 0));
        i := i + 1;
      }
      i := 256;
      while i < 512
        invariant 256 <= i <= 512 && IsTable(memory, cr3) && memory[cr3].Table?
        invariant memory == old(memory)[cr3 := memory[cr3]]
        invariant forall k | 0 <= k < 256 :: EntriesOf(memory[cr3])[k] == Pte(0, 0)
        invariant forall k | 256 <= k < i :: EntriesOf(memory[cr3])[k] == Entry(old(memory), kernel, k)
      {
        memory := Write(memory, cr3, i, Entry(memory, kernel, i));
        i := i + 1;
      }
      assert memory[cr3].entries == UpperCopy(EntriesOf(old(memory)[kernel]));
    }

    /** create_new_userspace_page_table. */
    method NewUserspace(kernel: int) returns (cr3: int)
      requires Valid(State()) && IsRoot(State(), kernel) && FreeFrames(frames.regions) != {}
      modifies this, frames
      ensures (cr3, State()) == NewSpace(old(State()), kernel)
      ensures Valid(State()) == true && SameLookups(old(State()), State()) == true
      ensures UpperCopied(old(memory), memory, kernel, cr3) == true && old(IsFree(frames.regions, cr3))
    {
      NewSpaceAdds(State(), kernel);
      AllocTakesFree(frames.regions);
      cr3 := AllocCleared();
      FillTop(cr3, kernel);
      places := places[cr3 := Top];
    }

    /** What thread exit does to the space of a thread. */
    method DropSpace(cr3: int)
      requires CanDrop(State(), cr3)
      modifies this`places, frames
      ensures State() == Paging.DropSpace(old(State()), cr3) && Valid(State()) == true
      ensures forall x :: IsRoot(State(), x) <==> x != cr3 && old(IsRoot(State(), x))
    {
      DropSpaceDrops(State(), cr3);
      frames.FreeFrame(cr3);
      places := Without(places, cr3);
    }
  }

  lemma MapPageDoes(s: System, r: int, p: int, v: nat, perm: bv12)
    requires CanWalk(s, r, v, perm)
    ensures CanMap(s, r, v, perm) ==> PageMapped(s, Paging.MapPage(s, r, p, v, perm), r, v, Pte(p, perm), 3) == true
    ensures WalkMapped(s, Paging.MapPage(s, r, p, v, perm), r, p, v, perm) == true
  {
    MapPageWalk(s, r, p, v, perm);
    if CanMap(s, r, v, perm) {
      MapPageMaps(s, r, p, v, perm);
    }
  }

  lemma LeafIsThird(t: Memory, r: int, v: nat)
    requires LeafTable(t, r, 4, v).Some?
    ensures
      var pdpt := Entry(t, r, Index(v, 4)).base;
      var pd := Entry(t, pdpt, Index(v, 3)).base;
      LeafTable(t, r, 4, v) == Some(Entry(t, pd, Index(v, 2)).base)
  {
    var pdpt := Entry(t, r, Index(v, 4)).base;
    var pd := Entry(t, pdpt, Index(v, 3)).base;
    var pt := Entry(t, pd, Index(v, 2)).base;
    assert LeafTable(t, r, 4, v) == LeafTable(t, pdpt, 3, v);
    assert LeafTable(t, pdpt, 3, v) == LeafTable(t, pd, 2, v);
    assert LeafTable(t, pd, 2, v) == LeafTable(t, pt, 1, v);
  }
}
