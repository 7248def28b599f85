/** unmap_page with its ledger, and the loop that unmaps what an exiting thread has mapped. */
module Exit {
  import opened Options
  import opened PageTables
  import opened Paging
  import opened Tracking
  import Ledger
  import Mmu

  /** One of the addresses, unmapped in the space of r, is seen at w in space x. */
  ghost predicate Hit(r: int, vs: seq<nat>, x: int, w: nat) {
    exists k :: 0 <= k < |vs| && Affects(r, vs[k], x, w)
  }

  /** No table is new, and no entry above the leaf tables has changed. */
  ghost predicate UpperKept(s: System, s': System) {
    s'.places == s.places &&
    forall f, i | f in s.places && Level(s.places[f]) > 1 :: Entry(s'.phys.memory, f, i) == Entry(s.phys.memory, f, i)
  }

  /** From s to s' exactly the pages of these addresses are unmapped; the tables stay, and nothing
      else in use changes. */
  ghost predicate Unmapped(s: System, s': System, r: int, vs: seq<nat>) {
    && Valid(s') && SameRoots(s, s') && DataKept(s, s') && s'.phys.regions == s.phys.regions
    && (forall v: nat :: LeafTable(s'.phys.memory, r, 4, v) == LeafTable(s.phys.memory, r, 4, v))
    && UpperKept(s, s')
    && (forall x, w: nat | IsRoot(s, x) ::
          Lookup(s'.phys.memory, x, 4, w) == if Hit(r, vs, x, w) then None else Lookup(s.phys.memory, x, 4, w))
  }

  lemma UnmappedNone(s: System, r: int)
    requires Valid(s)
    ensures Unmapped(s, s, r, []) == true
  {
  }

  lemma UnmappedMore(s: System, s1: System, s2: System, r: int, vs: seq<nat>, a: nat)
    requires Unmapped(s, s1, r, vs) && Valid(s2) == true && PageSet(s1, s2, r, a, None) && DataKept(s1, s2)
    requires s2.phys.regions == s1.phys.regions && UpperKept(s1, s2) == true
    requires forall v: nat :: LeafTable(s2.phys.memory, r, 4, v) == LeafTable(s1.phys.memory, r, 4, v)
    ensures Unmapped(s, s2, r, vs + [a]) == true
  {
    DataKeptTransitive(s, s1, s2);
    var vs' := vs + [a];
    forall x, w: nat | IsRoot(s, x)
      ensures Lookup(s2.phys.memory, x, 4, w) == if Hit(r, vs', x, w) then None else Lookup(s.phys.memory, x, 4, w)
    {
      HitMore(r, vs, a, x, w);
    }
  }

  lemma HitMore(r: int, vs: seq<nat>, a: nat, x: int, w: nat)
    ensures Hit(r, vs + [a], x, w) <==> Hit(r, vs, x, w) || Affects(r, a, x, w)
  {
    var vs' := vs + [a];
    if Hit(r, vs, x, w) {
      var k :| 0 <= k < |vs| && Affects(r, vs[k], x, w);
      assert vs'[k] == vs[k];
    }
    if Affects(r, a, x, w) { assert vs'[|vs|] == a; }
  }

  lemma LeafTablesStay(s: System, r: int, a: nat)
    requires WriteLeafReady(s, r, a)
    ensures forall v: nat ::
      LeafTable(SetLeaf(s, r, a, Pte(0, 0)).phys.memory, r, 4, v) == LeafTable(s.phys.memory, r, 4, v)
    ensures UpperKept(s, SetLeaf(s, r, a, Pte(0, 0))) == true
  {
    LeafTablePlaced(s.phys.memory, s.places, r, a, r, 4);
    var f := LeafTable(s.phys.memory, r, 4, a).value;
    forall v: nat
      ensures LeafTable(SetLeaf(s, r, a, Pte(0, 0)).phys.memory, r, 4, v) == LeafTable(s.phys.memory, r, 4, v)
    {
      LeafTableKept(s.phys.memory, s.places, r, 4, v, f, Index(a, 1), Pte(0, 0));
    }
  }

  /** unmap_page once scheduling has started: clears the leaf entry, then the first slot of the
      running thread's ledger that holds the address. */
  method UnmapPage(mmu: Mmu.Mmu, ledger: Ledger.Mappings, pml4: int, virt: nat, ghost s: System, ghost vs: seq<nat>)
    requires Unmapped(s, mmu.State(), pml4, vs) == true && WriteLeafReady(mmu.State(), pml4, virt) == true
    modifies mmu`memory, ledger
    ensures Unmapped(s, mmu.State(), pml4, vs + [virt]) == true
    ensures ledger.Contents() == Ledger.Forgotten(old(ledger.Contents()), virt)
  {
    ghost var s1 := mmu.State();
    LeafTablesStay(s1, pml4, virt);
    mmu.UnmapPage(pml4, virt);
    UnmappedMore(s, s1, mmu.State(), pml4, vs, virt);
    ledger.Forget(virt);
  }

  /** The exit loop at slot i: exactly the addresses of the slots before it are unmapped. */
  ghost predicate Exiting(s: System, s1: System, r: int, slots: seq<Ledger.Slot>, b: Ledger.Book, vs: seq<nat>, i: nat) {
    && IsRoot(s, r) && (forall a | a in Ledger.Addresses(slots) :: LeafTable(s.phys.memory, r, 4, a).Some?)
    && Unmapped(s, s1, r, vs) && Ledger.Draining(slots, b, vs, i) && |b.slots| == |slots|
  }

  lemma ExitTurn(s: System, s1: System, r: int, slots: seq<Ledger.Slot>, b: Ledger.Book, vs: seq<nat>, i: nat)
    requires Exiting(s, s1, r, slots, b, vs, i) && i < |slots|
    ensures |b.slots| == |slots| && b.slots[i] == slots[i] && Unmapped(s, s1, r, vs) == true
    ensures slots[i].used ==> WriteLeafReady(s1, r, slots[i].virt) == true
    ensures slots[i].used ==>
      Ledger.Draining(slots, Ledger.Forgotten(b, slots[i].virt), vs + [slots[i].virt], i + 1) == true
    ensures !slots[i].used ==> Exiting(s, s1, r, slots, b, vs, i + 1) == true
  {
    Ledger.DrainStep(slots, b, vs, i);
    if slots[i].used {
      LeafReady(s, s1, r, vs, slots[i].virt);
    }
  }

  lemma ExitNext(s: System, s1: System, s2: System, r: int, slots: seq<Ledger.Slot>, b: Ledger.Book, vs: seq<nat>, i: nat,
                 b': Ledger.Book, vs': seq<nat>)
    requires Exiting(s, s1, r, slots, b, vs, i) && Unmapped(s, s2, r, vs') == true
    requires Ledger.Draining(slots, b', vs', i + 1) == true && |b'.slots| == |slots|
    ensures Exiting(s, s2, r, slots, b', vs', i + 1) == true
  {
  }

  /** One turn of the exit loop. */
  method DrainSlot(mmu: Mmu.Mmu, cr3: int, ledger: Ledger.Mappings, i: nat,
                   ghost s: System, ghost slots: seq<Ledger.Slot>, ghost vs: seq<nat>) returns (ghost vs': seq<nat>)
    requires i < |ledger.slots| && Exiting(s, mmu.State(), cr3, slots, ledger.Contents(), vs, i) == true
    modifies mmu`memory, ledger
    ensures Exiting(s, mmu.State(), cr3, slots, ledger.Contents(), vs', i + 1) == true
    ensures |ledger.slots| == old(|ledger.slots|)
  {
    ghost var s1, b := mmu.State(), ledger.Contents();
    ExitTurn(s, s1, cr3, slots, b, vs, i);
    vs' := vs;
    if ledger.slots[i].used {
      var virt := ledger.slots[i].virt;
      UnmapPage(mmu, ledger, cr3, virt, s, vs);
      vs' := vs + [virt];
      ExitNext(s, s1, mmu.State(), cr3, slots, b, vs, i, ledger.Contents(), vs');
    }
  }

  method DrainSlots(mmu: Mmu.Mmu, cr3: int, ledger: Ledger.Mappings, ghost s: System, ghost slots: seq<Ledger.Slot>)
    returns (ghost vs: seq<nat>)
    requires slots == ledger.slots && Exiting(s, mmu.State(), cr3, slots, ledger.Contents(), [], 0) == true
    modifies mmu`memory, ledger
    ensures Exiting(s, mmu.State(), cr3, slots, ledger.Contents(), vs, |slots|) == true
  {
    vs := [];
    var i := 0;
    while i < |ledger.slots|
      invariant i <= |slots| == |ledger.slots|
      invariant Exiting(s, mmu.State(), cr3, slots, ledger.Contents(), vs, i) == true
    {
      vs := DrainSlot(mmu, cr3, ledger, i, s, slots, vs);
      i := i + 1;
    }
  }

  /** The exit loop of scheduler_return: every recorded address is unmapped, nothing else is, and
      the ledger's count ends at 0. */
  method DrainMappings(mmu: Mmu.Mmu, cr3: int, ledger: Ledger.Mappings) returns (ghost unmapped: seq<nat>)
    requires Tracked(mmu.State(), ledger.Contents(), cr3) == true
    modifies mmu`memory, ledger
    ensures Unmapped(old(mmu.State()), mmu.State(), cr3, unmapped) == true
    ensures multiset(unmapped) == old(Ledger.Addresses(ledger.slots))
    ensures ledger.Contents() == Ledger.Book(Ledger.Drained(old(ledger.slots)), 0)
  {
    ghost var s, slots := mmu.State(), ledger.slots;
    ExitStart(s, cr3, ledger.Contents());
    unmapped := DrainSlots(mmu, cr3, ledger, s, slots);
    ExitEnd(s, mmu.State(), cr3, slots, ledger.Contents(), unmapped, |slots|);
  }

  lemma ExitEnd(s: System, s1: System, r: int, slots: seq<Ledger.Slot>, b: Ledger.Book, vs: seq<nat>, i: nat)
    requires i == |slots| && Exiting(s, s1, r, slots, b, vs, i)
    ensures Unmapped(s, s1, r, vs) == true && multiset(vs) == Ledger.Addresses(slots)
    ensures b == Ledger.Book(Ledger.Drained(slots), 0)
  {
    Ledger.DrainEnd(slots, b, vs);
  }

  lemma ExitStart(s: System, r: int, b: Ledger.Book)
    requires Tracked(s, b, r)
    ensures Exiting(s, s, r, b.slots, b, [], 0) == true
  {
    UnmappedNone(s, r);
    Ledger.DrainStart(b);
  }

  lemma LeafReady(s: System, s1: System, r: int, vs: seq<nat>, v: nat)
    requires IsRoot(s, r) && Unmapped(s, s1, r, vs) == true && LeafTable(s.phys.memory, r, 4, v).Some?
    ensures WriteLeafReady(s1, r, v) == true
  {
  }

  /** What is left after the loop: no recorded address translates in the space, and an address on
      no recorded page translates as before, in every space. */
  lemma DrainedTranslations(s: System, s': System, r: int, vs: seq<nat>, x: int, w: nat)
    requires Unmapped(s, s', r, vs) == true && IsRoot(s, r) && IsRoot(s, x)
    ensures w in vs ==> Translate(s'.phys.memory, r, w) == None
    ensures (forall a | a in vs :: Page(a) != Page(w)) ==>
              Translate(s'.phys.memory, x, w) == Translate(s.phys.memory, x, w)
  {
    if w in vs {
      var k :| 0 <= k < |vs| && vs[k] == w;
      assert Affects(r, vs[k], r, w);
    }
    if forall a | a in vs :: Page(a) != Page(w) {
      assert forall k | 0 <= k < |vs| :: vs[k] in vs;
      assert !Hit(r, vs, x, w);
    }
  }
}
