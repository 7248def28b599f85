/** Physical frames that hold page tables or data, the four-level walk, and why no table is
    reached twice. */
module PageTables {
  import opened Bytes
  import opened Options

  /** A 64-bit entry: base is the entry with its low twelve bits cleared, flags are those bits. */
  datatype Pte = Pte(base: int, flags: bv12)

  /** What a frame holds: zeros, as alloc_frame leaves it, table entries, or bytes. A store of one
      kind into a frame that holds the other wipes it, so nothing that is proved to stay survives
      an entry written over data or a byte written over a table. */
  datatype Frame = Cleared | Table(entries: seq<Pte>) | Data(bytes: seq<Byte>)

  type Memory = map<int, Frame>

  predicate Present(e: Pte) {
    e.flags & 1 == 1
  }

  /** Bit 7: in an entry of level 3 or 2 it makes a leaf that maps a large page, at level 4 it is
      reserved. */
  predicate SizeBit(flags: bv12) {
    flags & 0x80 != 0
  }

  /** The entry leads to a table of the next level. */
  predicate Links(e: Pte, level: int) {
    Present(e) && level > 1 && !SizeBit(e.flags)
  }

  /** The bytes that a leaf of a level maps. */
  function LeafSize(level: int): (n: nat)
    ensures n > 0
  {
    if level == 3 then 0x40000000 else if level == 2 then 0x200000 else 0x1000
  }

  /** A present entry has a reserved bit set: bit 7 at level 4, or in the entry of a large page an
      address bit below its size, other than bit 12. */
  predicate HasReserved(e: Pte, level: int) {
    SizeBit(e.flags) && (level == 4 || ((level == 2 || level == 3) && e.base % LeafSize(level) >= 0x2000))
  }

  function ZeroTable(): seq<Pte> {
    seq(512, _ => Pte(0, 0))
  }

  function ZeroBytes(): seq<Byte> {
    seq(4096, _ => 0)
  }

  function EntriesOf(f: Frame): seq<Pte> {
    if f.Table? then f.entries else ZeroTable()
  }

  function BytesOf(f: Frame): seq<Byte> {
    if f.Data? then f.bytes else ZeroBytes()
  }

  /** The entry read at a table frame; memory outside the model reads as zero. */
  function Entry(t: Memory, f: int, i: int): Pte {
    if f in t && 0 <= i < |EntriesOf(t[f])| then EntriesOf(t[f])[i] else Pte(0, 0)
  }

  function Write(t: Memory, f: int, i: int, e: Pte): Memory
    requires f in t && 0 <= i < |EntriesOf(t[f])|
  {
    t[f := Table(EntriesOf(t[f])[i := e])]
  }

  /** A frame that can be read as a table. */
  ghost predicate IsTable(t: Memory, f: int) {
    f in t && !t[f].Data? && |EntriesOf(t[f])| == 512
  }

  /** The table index of a virtual address at a level: bits 39-47 at level 4 down to 12-20 at 1. */
  function Index(v: nat, level: int): (i: nat)
    requires 1 <= level <= 4
    ensures i < 512
  {
    if level == 4 then v / 0x8000000000 % 512
    else if level == 3 then v / 0x40000000 % 512
    else if level == 2 then v / 0x200000 % 512
    else v / 0x1000 % 512
  }

  /** The page of a virtual address: its bits 12-47. */
  function Page(v: nat): nat {
    v / 0x1000 % 0x1000000000
  }

  /** The walks of v and w read the same indices. */
  ghost predicate SameIndices(v: nat, w: nat) {
    Index(v, 4) == Index(w, 4) && Index(v, 3) == Index(w, 3) && Index(v, 2) == Index(w, 2) && Index(v, 1) == Index(w, 1)
  }

  lemma SameDigits(x: nat, d: nat, y: nat, e: nat)
    requires d < 512 && e < 512
    ensures x * 512 + d == y * 512 + e <==> x == y && d == e
  {
  }

  /** Two addresses lie on the same page exactly if all their table indices agree. */
  lemma SamePage(v: nat, w: nat)
    ensures Page(v) == Page(w) <==> SameIndices(v, w)
  {
    PageFromIndices(v);
    PageFromIndices(w);
    var v2, w2 := Index(v, 4) * 512 + Index(v, 3), Index(w, 4) * 512 + Index(w, 3);
    var v1, w1 := v2 * 512 + Index(v, 2), w2 * 512 + Index(w, 2);
    SameDigits(Index(v, 4), Index(v, 3), Index(w, 4), Index(w, 3));
    SameDigits(v2, Index(v, 2), w2, Index(w, 2));
    SameDigits(v1, Index(v, 1), w1, Index(w, 1));
  }

  lemma RemainderIs(a: nat, q: nat, r: nat)
    requires a == q * 0x1000000000 + r && r < 0x1000000000
    ensures a % 0x1000000000 == r
  {
  }

  lemma PageFromIndices(v: nat)
    ensures Page(v) == ((Index(v, 4) * 512 + Index(v, 3)) * 512 + Index(v, 2)) * 512 + Index(v, 1)
  {
    var a, b, c, d := v / 0x1000, v / 0x200000, v / 0x40000000, v / 0x8000000000;
    assert b == a / 512 && c == b / 512 && d == c / 512;
    assert a == b * 512 + Index(v, 1) && b == c * 512 + Index(v, 2) && c == d * 512 + Index(v, 3);
    assert d == d / 512 * 512 + Index(v, 4);
    RemainderIs(a, d / 512, ((Index(v, 4) * 512 + Index(v, 3)) * 512 + Index(v, 2)) * 512 + Index(v, 1));
  }

  /** Where a walk ends: at a leaf entry of a level, or in a fault at a reserved bit. */
  datatype Leaf = Leaf(entry: Pte, level: int) | Fault

  /** Where the walk of v from frame f at a level ends, if all entries are present. */
  function Lookup(t: Memory, f: int, level: int, v: nat): Option<Leaf>
    requires 1 <= level <= 4
    decreases level
  {
    var e := Entry(t, f, Index(v, level));
    if !Present(e) then None
    else if HasReserved(e, level) then Some(Fault)
    else if !Links(e, level) then Some(Leaf(e, level))
    else Lookup(t, e.base, level - 1, v)
  }

  /** The 4 KiB frame that a leaf gives an address: in a large page, the one at its offset. */
  function LeafFrame(leaf: Leaf, v: nat): int
    requires leaf.Leaf?
  {
    if leaf.level == 1 then leaf.entry.base
    else leaf.entry.base - leaf.entry.base % LeafSize(leaf.level) + v % LeafSize(leaf.level) - v % 0x1000
  }

  /** The flat map the tables stand for: the frame a virtual page is mapped to. */
  function Translate(t: Memory, root: int, v: nat): Option<int> {
    match Lookup(t, root, 4, v)
    case Some(Leaf(e, level)) => Some(LeafFrame(Leaf(e, level), v))
    case _ => None
  }

  /** The walk ends at a leaf of level 1. */
  predicate IsSmall(leaf: Option<Leaf>) {
    leaf.Some? && leaf.value.Leaf? && leaf.value.level == 1
  }

  /** v is mapped by a 4 KiB page. */
  predicate Small(t: Memory, root: int, v: nat) {
    IsSmall(Lookup(t, root, 4, v))
  }

  /** virt_to_phys: the same walk without looking at the present and page-size bits. */
  function VirtToPhys(t: Memory, root: int, v: nat): int {
    var e4 := Entry(t, root, Index(v, 4));
    var e3 := Entry(t, e4.base, Index(v, 3));
    var e2 := Entry(t, e3.base, Index(v, 2));
    var e1 := Entry(t, e2.base, Index(v, 1));
    e1.base + v % 0x1000
  }

  lemma SmallWalk(t: Memory, root: int, v: nat)
    requires Small(t, root, v)
    ensures
      var e4 := Entry(t, root, Index(v, 4));
      var e3 := Entry(t, e4.base, Index(v, 3));
      var e2 := Entry(t, e3.base, Index(v, 2));
      var e1 := Entry(t, e2.base, Index(v, 1));
      Links(e4, 4) && Links(e3, 3) && Links(e2, 2) && Present(e1) && Lookup(t, root, 4, v) == Some(Leaf(e1, 1))
  {
    var e4 := Entry(t, root, Index(v, 4));
    var e3 := Entry(t, e4.base, Index(v, 3));
    var e2 := Entry(t, e3.base, Index(v, 2));
    assert Lookup(t, root, 4, v) == Lookup(t, e4.base, 3, v);
    assert Lookup(t, e4.base, 3, v) == Lookup(t, e3.base, 2, v);
    assert Lookup(t, e3.base, 2, v) == Lookup(t, e2.base, 1, v);
  }

  /** On a 4 KiB page virt_to_phys is the translation plus the page offset. */
  lemma VirtToPhysTranslates(t: Memory, root: int, v: nat)
    requires Small(t, root, v)
    ensures Translate(t, root, v) == Some(VirtToPhys(t, root, v) - v % 0x1000)
  {
    SmallWalk(t, root, v);
  }

  /** Who a table below the top belongs to: everyone, above the 256th top entry, or one space. */
  datatype Owner = Shared | Private(root: int)

  /** Where a table frame sits: a top table, or below one along a path of indices. */
  datatype Place = Top | Below(owner: Owner, path: seq<int>)

  type Places = map<int, Place>

  function Level(p: Place): int {
    if p.Top? then 4 else 4 - |p.path|
  }

  function Child(p: Place, f: int, i: int): Place {
    match p
    case Top => Below(if i < 256 then Private(f) else Shared, [i])
    case Below(o, path) => Below(o, path + [i])
  }

  /** No table frame is used twice: each has one place, and an entry that links to a table leads
      to a frame whose place continues its own. */
  ghost predicate WellPlaced(t: Memory, pl: Places) {
    && (forall f | f in pl :: IsTable(t, f) && 1 <= Level(pl[f]) <= 4 && (pl[f].Below? ==> |pl[f].path| > 0))
    && (forall f, i | f in pl && 0 <= i < 512 && Links(Entry(t, f, i), Level(pl[f])) ::
          Entry(t, f, i).base in pl && pl[Entry(t, f, i).base] == Child(pl[f], f, i))
  }

  /** All top tables agree on the upper half, up to flags other than the present bit and bit 7. */
  ghost predicate UpperShared(t: Memory, pl: Places) {
    forall r, s, i | r in pl && s in pl && pl[r].Top? && pl[s].Top? && 256 <= i < 512 ::
      Present(Entry(t, r, i)) == Present(Entry(t, s, i)) &&
      (Present(Entry(t, r, i)) ==>
         Entry(t, r, i).base == Entry(t, s, i).base && SizeBit(Entry(t, r, i).flags) == SizeBit(Entry(t, s, i).flags))
  }

  /** The indices of v from level 4 down to, and excluding, the given one. */
  function Steps(v: nat, level: int): (s: seq<int>)
    requires 1 <= level <= 4
    ensures |s| == 4 - level
    decreases 4 - level
  {
    if level == 4 then [] else Steps(v, level + 1) + [Index(v, level + 1)]
  }

  /** The place of the table that the walk of v in the space of r reads at a level. */
  function PlaceOnWalk(r: int, v: nat, level: int): Place
    requires 1 <= level <= 4
  {
    if level == 4 then Top else Below(if Index(v, 4) < 256 then Private(r) else Shared, Steps(v, level))
  }

  /** Slot i of table f is one the walk of v in the space of r can read. */
  ghost predicate OnWalk(pl: Places, r: int, v: nat, f: int, i: int) {
    f in pl && 1 <= Level(pl[f]) <= 4 &&
    var l := Level(pl[f]);
    pl[f] == PlaceOnWalk(r, v, l) && (l == 4 ==> f == r) && Index(v, l) == i
  }

  /** A write anywhere else leaves the walk alone. */
  lemma {:induction false} LookupElsewhere(t: Memory, pl: Places, r: int, v: nat, g: int, l: int, f: int, i: int, e: Pte)
    requires WellPlaced(t, pl) && f in pl && 0 <= i < 512 && !OnWalk(pl, r, v, f, i)
    requires 1 <= l <= 4 && g in pl && pl[g] == PlaceOnWalk(r, v, l) && (l == 4 ==> g == r)
    ensures Lookup(Write(t, f, i, e), g, l, v) == Lookup(t, g, l, v)
    decreases l
  {
    var j := Index(v, l);
    var t' := Write(t, f, i, e);
    assert Entry(t', g, j) == Entry(t, g, j);
    var h := Entry(t, g, j);
    if Links(h, l) {
      assert pl[h.base] == Child(pl[g], g, j) == PlaceOnWalk(r, v, l - 1);
      LookupElsewhere(t, pl, r, v, h.base, l - 1, f, i, e);
    }
  }

  /** t with a zeroed table at a fresh frame, linked into an empty slot. */
  function LinkFresh(t: Memory, f: int, i: int, a: int, flags: bv12): Memory
    requires f in t && 0 <= i < |EntriesOf(t[f])| && a != f
  {
    Write(t[a := Cleared], f, i, Pte(a, flags))
  }

  /** Linking an empty table maps nothing and unmaps nothing. */
  lemma {:induction false} LookupLinkFresh(t: Memory, pl: Places, g: int, l: int, v: nat, f: int, i: int, a: int, flags: bv12)
    requires WellPlaced(t, pl) && f in pl && 0 <= i < 512 && a !in pl && Level(pl[f]) > 1
    requires !Present(Entry(t, f, i)) && 1 <= l <= 4 && g in pl && Level(pl[g]) == l && !SizeBit(flags)
    ensures Lookup(LinkFresh(t, f, i, a, flags), g, l, v) == Lookup(t, g, l, v)
    decreases l
  {
    var t' := LinkFresh(t, f, i, a, flags);
    var j := Index(v, l);
    if g == f && j == i {
      if Present(Entry(t', f, i)) {
        assert !Present(Entry(t', a, Index(v, l - 1)));
      }
    } else {
      var h := Entry(t, g, j);
      assert Entry(t', g, j) == h;
      if Links(h, l) {
        LookupLinkFresh(t, pl, h.base, l - 1, v, f, i, a, flags);
      }
    }
  }

  lemma LinkFreshPlaced(t: Memory, pl: Places, f: int, i: int, a: int, flags: bv12)
    requires WellPlaced(t, pl) && f in pl && 0 <= i < 512 && a !in pl && Level(pl[f]) > 1
    ensures WellPlaced(LinkFresh(t, f, i, a, flags), pl[a := Child(pl[f], f, i)])
  {
    var t', pl' := LinkFresh(t, f, i, a, flags), pl[a := Child(pl[f], f, i)];
    forall g, j | g in pl' && 0 <= j < 512 && Links(Entry(t', g, j), Level(pl'[g]))
      ensures Entry(t', g, j).base in pl' && pl'[Entry(t', g, j).base] == Child(pl'[g], g, j)
    {
      if g != a && !(g == f && j == i) {
        assert Entry(t', g, j) == Entry(t, g, j);
      }
    }
  }

  /** A table linked below the top, into the lower half, or into the only top table is shared by
      all that share the upper half. */
  lemma LinkFreshShared(t: Memory, pl: Places, f: int, i: int, a: int, flags: bv12)
    requires WellPlaced(t, pl) && UpperShared(t, pl) && f in pl && 0 <= i < 512 && a !in pl
    requires pl[f].Top? && i >= 256 ==> forall x | x in pl && pl[x].Top? :: x == f
    ensures UpperShared(LinkFresh(t, f, i, a, flags), pl[a := Child(pl[f], f, i)])
  {
    var t' := LinkFresh(t, f, i, a, flags);
    forall r, j | r in pl && pl[r].Top? && 256 <= j < 512 && !(r == f && j == i)
      ensures Entry(t', r, j) == Entry(t, r, j)
    {
    }
  }

  lemma LeafWritePlaced(t: Memory, pl: Places, f: int, i: int, e: Pte)
    requires WellPlaced(t, pl) && f in pl && 0 <= i < 512 && Level(pl[f]) == 1
    ensures WellPlaced(Write(t, f, i, e), pl)
  {
    var t' := Write(t, f, i, e);
    forall g, j | g in pl && 0 <= j < 512 && Links(Entry(t', g, j), Level(pl[g]))
      ensures Entry(t', g, j).base in pl && pl[Entry(t', g, j).base] == Child(pl[g], g, j)
    {
      assert Entry(t', g, j) == Entry(t, g, j);
    }
  }

  /** Spaces that share the upper half translate every upper-half address alike. */
  lemma UpperTranslatesAlike(t: Memory, pl: Places, r: int, s: int, v: nat)
    requires UpperShared(t, pl) && r in pl && s in pl && pl[r].Top? && pl[s].Top? && Index(v, 4) >= 256
    ensures Lookup(t, r, 4, v) == Lookup(t, s, 4, v)
  {
    var i := Index(v, 4);
    assert Present(Entry(t, r, i)) == Present(Entry(t, s, i));
  }

  /** The level-1 table that the walk of v from frame f reaches, if all entries above it link. */
  function LeafTable(t: Memory, f: int, level: int, v: nat): Option<int>
    requires 1 <= level <= 4
    decreases level
  {
    if level == 1 then Some(f)
    else
      var e := Entry(t, f, Index(v, level));
      if Links(e, level) then LeafTable(t, e.base, level - 1, v) else None
  }

  lemma {:induction false} LeafTablePlaced(t: Memory, pl: Places, r: int, v: nat, g: int, l: int)
    requires WellPlaced(t, pl) && 1 <= l <= 4 && LeafTable(t, g, l, v).Some?
    requires g in pl && pl[g] == PlaceOnWalk(r, v, l) && (l == 4 ==> g == r)
    ensures LeafTable(t, g, l, v).value in pl
    ensures pl[LeafTable(t, g, l, v).value] == PlaceOnWalk(r, v, 1)
    decreases l
  {
    if l > 1 {
      var h := Entry(t, g, Index(v, l)).base;
      assert pl[h] == Child(pl[g], g, Index(v, l)) == PlaceOnWalk(r, v, l - 1);
      LeafTablePlaced(t, pl, r, v, h, l - 1);
    }
  }

  /** The walk ends at the entry of its leaf table. */
  lemma {:induction false} LookupReadsLeaf(t: Memory, g: int, l: int, v: nat)
    requires 1 <= l <= 4 && LeafTable(t, g, l, v).Some?
    ensures
      var e := Entry(t, LeafTable(t, g, l, v).value, Index(v, 1));
      Lookup(t, g, l, v) == if Present(e) then Some(Leaf(e, 1)) else None
    decreases l
  {
    if l > 1 {
      LookupReadsLeaf(t, Entry(t, g, Index(v, l)).base, l - 1, v);
    }
  }

  /** Writing a leaf entry does not move any leaf table. */
  lemma {:induction false} LeafTableKept(t: Memory, pl: Places, g: int, l: int, v: nat, f: int, i: int, e: Pte)
    requires WellPlaced(t, pl) && f in pl && Level(pl[f]) == 1 && 0 <= i < 512
    requires 1 <= l <= 4 && g in pl && Level(pl[g]) == l
    ensures LeafTable(Write(t, f, i, e), g, l, v) == LeafTable(t, g, l, v)
    decreases l
  {
    if l > 1 {
      var h := Entry(t, g, Index(v, l));
      assert Entry(Write(t, f, i, e), g, Index(v, l)) == h;
      if Links(h, l) {
        LeafTableKept(t, pl, h.base, l - 1, v, f, i, e);
      }
    }
  }

  /** Every entry of the tree that links to a table still links to it. */
  ghost predicate LinksStay(t: Memory, t': Memory, pl: Places) {
    forall f, i | f in pl && 0 <= i < 512 && Links(Entry(t, f, i), Level(pl[f])) ::
      Links(Entry(t', f, i), Level(pl[f])) && Entry(t', f, i).base == Entry(t, f, i).base
  }

  /** Where links stay, leaf tables stay. */
  lemma {:induction false} LeafTableStays(t: Memory, t': Memory, pl: Places, g: int, l: int, v: nat)
    requires WellPlaced(t, pl) && LinksStay(t, t', pl) && 1 <= l <= 4 && g in pl && Level(pl[g]) == l
    requires LeafTable(t, g, l, v).Some?
    ensures LeafTable(t', g, l, v) == LeafTable(t, g, l, v)
    decreases l
  {
    if l > 1 {
      LeafTableStays(t, t', pl, Entry(t, g, Index(v, l)).base, l - 1, v);
    }
  }

  lemma SmallHasLeafTable(t: Memory, r: int, v: nat)
    requires Small(t, r, v)
    ensures LeafTable(t, r, 4, v).Some?
  {
    SmallWalk(t, r, v);
    var pdpt := Entry(t, r, Index(v, 4)).base;
    var pd := Entry(t, pdpt, Index(v, 3)).base;
    assert LeafTable(t, r, 4, v) == LeafTable(t, pdpt, 3, v);
    assert LeafTable(t, pdpt, 3, v) == LeafTable(t, pd, 2, v);
  }

  lemma {:induction false} SameIndicesSameLookup(t: Memory, g: int, l: int, v: nat, w: nat)
    requires 1 <= l <= 4 && SameIndices(v, w)
    ensures Lookup(t, g, l, v) == Lookup(t, g, l, w) && LeafTable(t, g, l, v) == LeafTable(t, g, l, w)
    decreases l
  {
    assert Index(v, l) == Index(w, l);
    if l > 1 {
      SameIndicesSameLookup(t, Entry(t, g, Index(v, l)).base, l - 1, v, w);
    }
  }

  /** Which spaces see a change to the page of v made in the space of r: r alone for the lower
      half, all for the upper half. */
  ghost predicate Affects(r: int, v: nat, x: int, w: nat) {
    Page(w) == Page(v) && (x == r || Index(v, 4) >= 256)
  }

  lemma LeafOnWalk(pl: Places, r: int, v: nat, f: int, x: int, w: nat)
    requires f in pl && pl[f] == PlaceOnWalk(r, v, 1)
    ensures OnWalk(pl, x, w, f, Index(v, 1)) ==> Affects(r, v, x, w)
  {
    if OnWalk(pl, x, w, f, Index(v, 1)) {
      assert Level(pl[f]) == 1;
      assert Steps(v, 1) == [Index(v, 4), Index(v, 3), Index(v, 2)];
      assert Steps(w, 1) == [Index(w, 4), Index(w, 3), Index(w, 2)];
      assert Steps(v, 1)[0] == Steps(w, 1)[0] && Steps(v, 1)[1] == Steps(w, 1)[1] && Steps(v, 1)[2] == Steps(w, 1)[2];
      SamePage(v, w);
    }
  }

  /** Writing the leaf entry of v in the space of r shows there, however spaces share tables. */
  lemma LeafWriteOwn(t: Memory, pl: Places, r: int, v: nat, e: Pte, w: nat)
    requires WellPlaced(t, pl) && r in pl && pl[r].Top? && LeafTable(t, r, 4, v).Some? && Page(w) == Page(v)
    ensures var f := LeafTable(t, r, 4, v).value;
      && f in pl && pl[f] == PlaceOnWalk(r, v, 1)
      && Lookup(Write(t, f, Index(v, 1), e), r, 4, w) == if Present(e) then Some(Leaf(e, 1)) else None
  {
    LeafTablePlaced(t, pl, r, v, r, 4);
    var f := LeafTable(t, r, 4, v).value;
    var t' := Write(t, f, Index(v, 1), e);
    SamePage(v, w);
    LeafTableKept(t, pl, r, 4, v, f, Index(v, 1), e);
    LookupReadsLeaf(t', r, 4, v);
    SameIndicesSameLookup(t', r, 4, v, w);
  }

  /** Writing the leaf entry of v in the space of r changes exactly the walks it affects. */
  lemma LeafWrite(t: Memory, pl: Places, r: int, v: nat, e: Pte, x: int, w: nat)
    requires WellPlaced(t, pl) && UpperShared(t, pl) && r in pl && pl[r].Top? && x in pl && pl[x].Top?
    requires LeafTable(t, r, 4, v).Some?
    ensures var f := LeafTable(t, r, 4, v).value;
      f in pl && pl[f] == PlaceOnWalk(r, v, 1)
    ensures var t' := Write(t, LeafTable(t, r, 4, v).value, Index(v, 1), e);
      && WellPlaced(t', pl) && UpperShared(t', pl)
      && Lookup(t', x, 4, w) ==
         if Affects(r, v, x, w) then (if Present(e) then Some(Leaf(e, 1)) else None) else Lookup(t, x, 4, w)
  {
    LeafTablePlaced(t, pl, r, v, r, 4);
    var f := LeafTable(t, r, 4, v).value;
    var t' := Write(t, f, Index(v, 1), e);
    LeafWritePlaced(t, pl, f, Index(v, 1), e);
    LeafWriteShared(t, pl, f, Index(v, 1), e);
    if Affects(r, v, x, w) {
      LeafWriteOwn(t, pl, r, v, e, w);
      if x != r {
        SamePage(v, w);
        UpperTranslatesAlike(t', pl, r, x, w);
      }
    } else {
      LeafOnWalk(pl, r, v, f, x, w);
      LookupElsewhere(t, pl, x, w, x, 4, f, Index(v, 1), e);
    }
  }

  lemma LeafWriteShared(t: Memory, pl: Places, f: int, i: int, e: Pte)
    requires WellPlaced(t, pl) && UpperShared(t, pl) && f in pl && Level(pl[f]) == 1 && 0 <= i < 512
    ensures UpperShared(Write(t, f, i, e), pl)
  {
    forall r, j | r in pl && pl[r].Top? ensures Entry(Write(t, f, i, e), r, j) == Entry(t, r, j) {
    }
  }

  /** Whatever is put into a frame outside the tree changes no walk in the tree. */
  lemma {:induction false} LookupOutside(t: Memory, pl: Places, g: int, l: int, v: nat, a: int, content: Frame)
    requires WellPlaced(t, pl) && a !in pl && 1 <= l <= 4 && g in pl && Level(pl[g]) == l
    ensures Lookup(t[a := content], g, l, v) == Lookup(t, g, l, v)
    decreases l
  {
    var h := Entry(t, g, Index(v, l));
    assert Entry(t[a := content], g, Index(v, l)) == h;
    if Links(h, l) {
      LookupOutside(t, pl, h.base, l - 1, v, a, content);
    }
  }

  lemma OutsidePlaced(t: Memory, pl: Places, a: int, content: Frame)
    requires WellPlaced(t, pl) && UpperShared(t, pl) && a !in pl
    ensures WellPlaced(t[a := content], pl) && UpperShared(t[a := content], pl)
  {
    var t' := t[a := content];
    forall f, i | f in pl ensures t'[f] == t[f] && Entry(t', f, i) == Entry(t, f, i) {
    }
  }

  /** The top table of a new space: the upper half of an existing one over an empty lower half. */
  function UpperCopy(table: seq<Pte>): (r: seq<Pte>)
    requires |table| == 512
    ensures |r| == 512
  {
    seq(512, i requires 0 <= i < 512 => if i < 256 then Pte(0, 0) else table[i])
  }

  /** Table a holds the upper entries of table g, flags included, over an empty lower half; no other
      frame has changed. */
  ghost predicate UpperCopied(t: Memory, t': Memory, g: int, a: int) {
    && (forall i | 256 <= i < 512 :: Entry(t', a, i) == Entry(t, g, i))
    && (forall i | 0 <= i < 256 :: Entry(t', a, i) == Pte(0, 0))
    && (forall f | f in t && f != a :: f in t' && t'[f] == t[f])
  }

  lemma UpperCopyPlaced(t: Memory, pl: Places, g: int, a: int)
    requires WellPlaced(t, pl) && UpperShared(t, pl) && g in pl && pl[g].Top? && a !in pl
    ensures var t', pl' := t[a := Table(UpperCopy(EntriesOf(t[g])))], pl[a := Top];
      WellPlaced(t', pl') && UpperShared(t', pl') && UpperCopied(t, t', g, a)
  {
    var t', pl' := t[a := Table(UpperCopy(EntriesOf(t[g])))], pl[a := Top];
    assert forall f, i | f in pl :: Entry(t', f, i) == Entry(t, f, i);
    assert UpperCopied(t, t', g, a);
    forall f, i | f in pl' && 0 <= i < 512 && Links(Entry(t', f, i), Level(pl'[f]))
      ensures Entry(t', f, i).base in pl' && pl'[Entry(t', f, i).base] == Child(pl'[f], f, i)
    {
      if f == a {
        assert i >= 256;
        assert Links(Entry(t, g, i), Level(pl[g]));
        assert Child(Top, g, i) == Child(Top, a, i);
      }
    }
  }

  /** Same tables, targets and present bits everywhere; only other flags may differ. */
  ghost predicate Alike(t: Memory, t': Memory) {
    && t'.Keys == t.Keys && (forall f | f in t :: |EntriesOf(t'[f])| == |EntriesOf(t[f])| && t'[f].Data? == t[f].Data?)
    && forall f, i :: Entry(t', f, i).base == Entry(t, f, i).base && Present(Entry(t', f, i)) == Present(Entry(t, f, i))
  }

  /** No entry becomes or stops being a large page. */
  ghost predicate SameSizes(t: Memory, t': Memory) {
    forall f, i :: SizeBit(Entry(t', f, i).flags) == SizeBit(Entry(t, f, i).flags)
  }

  ghost predicate LeafAlike(leaf: Leaf, leaf': Leaf) {
    leaf'.Leaf? == leaf.Leaf? && (leaf.Leaf? ==> leaf'.entry.base == leaf.entry.base && leaf'.level == leaf.level)
  }

  lemma {:induction false} AlikeTranslates(t: Memory, t': Memory, g: int, l: int, v: nat)
    requires Alike(t, t') && SameSizes(t, t') && 1 <= l <= 4
    ensures Lookup(t', g, l, v).Some? <==> Lookup(t, g, l, v).Some?
    ensures Lookup(t, g, l, v).Some? ==> LeafAlike(Lookup(t, g, l, v).value, Lookup(t', g, l, v).value)
    decreases l
  {
    var e, e' := Entry(t, g, Index(v, l)), Entry(t', g, Index(v, l));
    assert e'.base == e.base && Present(e') == Present(e) && SizeBit(e'.flags) == SizeBit(e.flags);
    if Links(e, l) {
      AlikeTranslates(t, t', e.base, l - 1, v);
    }
  }

  lemma AlikeSameTranslations(t: Memory, t': Memory)
    requires Alike(t, t') && SameSizes(t, t')
    ensures SameTranslations(t, t') == true
  {
    forall x, w: nat ensures Translate(t', x, w) == Translate(t, x, w) {
      AlikeTranslates(t, t', x, 4, w);
      SameFrame(Lookup(t, x, 4, w), Lookup(t', x, 4, w), w);
    }
  }

  lemma SameFrame(leaf: Option<Leaf>, leaf': Option<Leaf>, v: nat)
    requires leaf.Some? == leaf'.Some? && (leaf.Some? ==> LeafAlike(leaf.value, leaf'.value))
    ensures leaf.Some? && leaf.value.Leaf? ==> LeafFrame(leaf'.value, v) == LeafFrame(leaf.value, v)
  {
  }

  lemma AlikePlaced(t: Memory, t': Memory, pl: Places)
    requires Alike(t, t') && SameSizes(t, t') && WellPlaced(t, pl) && UpperShared(t, pl)
    ensures WellPlaced(t', pl) && UpperShared(t', pl)
  {
    forall f, i | f in pl && 0 <= i < 512 && Links(Entry(t', f, i), Level(pl[f]))
      ensures Entry(t', f, i).base in pl && pl[Entry(t', f, i).base] == Child(pl[f], f, i)
    {
      assert SizeBit(Entry(t', f, i).flags) == SizeBit(Entry(t, f, i).flags);
      assert Links(Entry(t, f, i), Level(pl[f]));
    }
  }

  ghost predicate Carries(flags: bv12, perm: bv12) {
    flags & perm == perm
  }

  /** Flags are only ever added. */
  ghost predicate FlagsGrow(t: Memory, t': Memory) {
    forall f, i, p :: Carries(Entry(t, f, i).flags, p) ==> Carries(Entry(t', f, i).flags, p)
  }

  /** The entry the walk of v reads at a level, whether or not the ones above are present. */
  function WalkEntry(t: Memory, r: int, v: nat, level: int): Pte
    requires 1 <= level <= 4
    decreases 4 - level
  {
    Entry(t, if level == 4 then r else WalkEntry(t, r, v, level + 1).base, Index(v, level))
  }

  /** The table frame the walk of v reads at a level. */
  function WalkFrame(t: Memory, r: int, v: nat, level: int): int
    requires 1 <= level <= 4
  {
    if level == 4 then r else WalkEntry(t, r, v, level + 1).base
  }

  /** The four slots the walk of v reads: table frame and index. */
  ghost function WalkSlots(t: Memory, r: int, v: nat): set<(int, int)> {
    {(r, Index(v, 4)), (WalkFrame(t, r, v, 3), Index(v, 3)),
     (WalkFrame(t, r, v, 2), Index(v, 2)), (WalkFrame(t, r, v, 1), Index(v, 1))}
  }

  /** The walk of v finds present entries down to a level. */
  ghost predicate Reached(t: Memory, r: int, v: nat, level: int) {
    forall l | 1 <= l <= 4 && level <= l :: Present(WalkEntry(t, r, v, l))
  }

  /** All entries on the walk of v are present, and from a level up they carry the given flags. */
  ghost predicate WalkHas(t: Memory, r: int, v: nat, level: int, perm: bv12) {
    && (forall l | 1 <= l <= 4 :: Present(WalkEntry(t, r, v, l)))
    && (forall l | 1 <= l <= 4 && level <= l :: Carries(WalkEntry(t, r, v, l).flags, perm))
  }

  /** One read, or, and write back of change_page_map. */
  function AddAt(t: Memory, f: int, i: int, perm: bv12): Memory {
    var e := Entry(t, f, i);
    if f in t && 0 <= i < |EntriesOf(t[f])| then Write(t, f, i, Pte(e.base, e.flags | perm)) else t
  }

  /** change_page_map: adds flags to the four entries on the walk, from the top down. */
  function AddFlags(t: Memory, r: int, v: nat, perm: bv12): Memory {
    var e4, t4 := Entry(t, r, Index(v, 4)), AddAt(t, r, Index(v, 4), perm);
    var e3, t3 := Entry(t4, e4.base, Index(v, 3)), AddAt(t4, e4.base, Index(v, 3), perm);
    var e2, t2 := Entry(t3, e3.base, Index(v, 2)), AddAt(t3, e3.base, Index(v, 2), perm);
    AddAt(t2, e2.base, Index(v, 1), perm)
  }

  function WithFlags(e: Pte, perm: bv12): Pte {
    Pte(e.base, e.flags | perm)
  }

  /** The entry at slot i of table f has the flags added if the slot is among these, else it is as
      before. */
  ghost predicate SlotAdded(t: Memory, t': Memory, slots: set<(int, int)>, perm: bv12, f: int, i: int) {
    Entry(t', f, i) == if (f, i) in slots then WithFlags(Entry(t, f, i), perm) else Entry(t, f, i)
  }

  /** t' is t with the flags added to the entries in these slots. Every other entry, and every frame
      that holds bytes, is as before. */
  ghost predicate AddedAt(t: Memory, t': Memory, slots: set<(int, int)>, perm: bv12) {
    && t'.Keys == t.Keys && (forall f | f in t && t[f].Data? :: t'[f] == t[f])
    && forall f, i :: SlotAdded(t, t', slots, perm, f, i)
  }

  lemma AddedOnce(t: Memory, f: int, i: int, perm: bv12, t': Memory)
    requires Present(Entry(t, f, i)) && t' == AddAt(t, f, i, perm)
    ensures AddedAt(t, t', {(f, i)}, perm) == true
  {
    forall g, j ensures SlotAdded(t, t', {(f, i)}, perm, g, j) {
      AddAtEntry(t, f, i, perm, t', g, j);
    }
  }

  lemma AddedMore(t: Memory, t1: Memory, t2: Memory, a: set<(int, int)>, b: set<(int, int)>, perm: bv12)
    requires AddedAt(t, t1, a, perm) && AddedAt(t1, t2, b, perm)
    ensures AddedAt(t, t2, a + b, perm) == true
  {
    forall f, i ensures SlotAdded(t, t2, a + b, perm, f, i) {
      assert SlotAdded(t, t1, a, perm, f, i) && SlotAdded(t1, t2, b, perm, f, i);
      AddedTwice(Entry(t, f, i), perm);
    }
  }

  lemma AddedTwice(e: Pte, perm: bv12)
    ensures WithFlags(WithFlags(e, perm), perm) == WithFlags(e, perm)
  {
  }

  lemma OrCarries(a: bv12, perm: bv12, p: bv12)
    ensures Carries(a, p) ==> Carries(a | perm, p)
    ensures Carries(a | perm, perm)
    ensures a & 1 == 1 ==> (a | perm) & 1 == 1
  {
  }

  /** t' is t with flags added. */
  ghost predicate Grown(t: Memory, t': Memory) {
    Alike(t, t') && FlagsGrow(t, t')
  }

  lemma GrownTransitive(t: Memory, t1: Memory, t2: Memory)
    requires Grown(t, t1) && Grown(t1, t2)
    ensures Grown(t, t2)
  {
  }

  /** The entry at one place grows; all others stay. */
  lemma AddAtEntry(t: Memory, f: int, i: int, perm: bv12, t1: Memory, g: int, j: int)
    requires Present(Entry(t, f, i)) && t1 == AddAt(t, f, i, perm)
    ensures Entry(t1, g, j) ==
      if g == f && j == i then Pte(Entry(t, f, i).base, Entry(t, f, i).flags | perm) else Entry(t, g, j)
  {
  }

  lemma AddAtAlike(t: Memory, f: int, i: int, perm: bv12, t1: Memory)
    requires Present(Entry(t, f, i)) && t1 == AddAt(t, f, i, perm)
    ensures Alike(t, t1) == true
  {
    OrCarries(Entry(t, f, i).flags, perm, 0);
    forall g, j
      ensures Entry(t1, g, j).base == Entry(t, g, j).base && Present(Entry(t1, g, j)) == Present(Entry(t, g, j))
    {
      AddAtEntry(t, f, i, perm, t1, g, j);
    }
  }

  lemma AddAtCarries(t: Memory, f: int, i: int, perm: bv12, t1: Memory, g: int, j: int, p: bv12)
    requires Present(Entry(t, f, i)) && t1 == AddAt(t, f, i, perm) && Carries(Entry(t, g, j).flags, p)
    ensures Carries(Entry(t1, g, j).flags, p)
  {
    AddAtEntry(t, f, i, perm, t1, g, j);
    OrCarries(Entry(t, f, i).flags, perm, p);
  }

  lemma AddAtFlagsGrow(t: Memory, f: int, i: int, perm: bv12, t1: Memory)
    requires Present(Entry(t, f, i)) && t1 == AddAt(t, f, i, perm)
    ensures FlagsGrow(t, t1) == true
  {
    forall g, j, p | Carries(Entry(t, g, j).flags, p) ensures Carries(Entry(t1, g, j).flags, p) {
      AddAtCarries(t, f, i, perm, t1, g, j, p);
    }
  }

  lemma AddAtGrown(t: Memory, f: int, i: int, perm: bv12, t1: Memory)
    requires Present(Entry(t, f, i)) && t1 == AddAt(t, f, i, perm)
    ensures Grown(t, t1) == true && Carries(Entry(t1, f, i).flags, perm)
  {
    AddAtAlike(t, f, i, perm, t1);
    AddAtFlagsGrow(t, f, i, perm, t1);
    AddAtEntry(t, f, i, perm, t1, f, i);
    OrCarries(Entry(t, f, i).flags, perm, 0);
  }

  lemma {:induction false} GrownWalk(t: Memory, t': Memory, r: int, v: nat, l: int)
    requires Grown(t, t') && 1 <= l <= 4
    ensures WalkEntry(t', r, v, l).base == WalkEntry(t, r, v, l).base
    ensures Present(WalkEntry(t', r, v, l)) == Present(WalkEntry(t, r, v, l))
    ensures forall p :: Carries(WalkEntry(t, r, v, l).flags, p) ==> Carries(WalkEntry(t', r, v, l).flags, p)
    decreases 4 - l
  {
    if l < 4 {
      GrownWalk(t, t', r, v, l + 1);
    }
  }

  lemma WalkHasKept(t: Memory, t': Memory, r: int, v: nat, level: int, perm: bv12)
    requires Grown(t, t') && WalkHas(t, r, v, level, perm)
    ensures WalkHas(t', r, v, level, perm)
  {
    forall l | 1 <= l <= 4
      ensures Present(WalkEntry(t', r, v, l))
      ensures level <= l ==> Carries(WalkEntry(t', r, v, l).flags, perm)
    {
      GrownWalk(t, t', r, v, l);
    }
  }

  /** A 4 KiB page has all four entries present. */
  lemma MappedWalk(t: Memory, r: int, v: nat)
    requires Small(t, r, v)
    ensures WalkHas(t, r, v, 5, 0)
  {
    SmallWalk(t, r, v);
    assert Present(WalkEntry(t, r, v, 4)) && Present(WalkEntry(t, r, v, 3));
    assert Present(WalkEntry(t, r, v, 2)) && Present(WalkEntry(t, r, v, 1));
  }

  /** Every space translates every address alike in t and t'. */
  ghost predicate SameTranslations(t: Memory, t': Memory) {
    forall x, w: nat :: Translate(t', x, w) == Translate(t, x, w)
  }

  /** Adding flags at one level more; the frames of the walk stay where they are. */
  lemma AddAtLevel(t: Memory, r: int, v: nat, l: int, perm: bv12, t': Memory)
    requires 1 <= l <= 4 && WalkHas(t, r, v, l + 1, perm)
    requires t' == AddAt(t, if l == 4 then r else WalkEntry(t, r, v, l + 1).base, Index(v, l), perm)
    ensures Grown(t, t') && WalkHas(t', r, v, l, perm)
    ensures forall k | 1 <= k <= 4 :: WalkEntry(t', r, v, k).base == WalkEntry(t, r, v, k).base
  {
    assert Present(WalkEntry(t, r, v, l));
    AddAtGrown(t, if l == 4 then r else WalkEntry(t, r, v, l + 1).base, Index(v, l), perm, t');
    WalkHasKept(t, t', r, v, l + 1, perm);
    forall k | 1 <= k <= 4 ensures WalkEntry(t', r, v, k).base == WalkEntry(t, r, v, k).base {
      GrownWalk(t, t', r, v, k);
    }
    if l < 4 {
      assert WalkEntry(t', r, v, l + 1).base == WalkEntry(t, r, v, l + 1).base;
    }
  }

  lemma AddFlagsOnWalk(t: Memory, r: int, v: nat, perm: bv12, t': Memory)
    requires Small(t, r, v) && t' == AddFlags(t, r, v, perm)
    ensures WalkHas(t', r, v, 1, perm) == true && Grown(t, t') == true
  {
    MappedWalk(t, r, v);
    var t4 := AddAt(t, r, Index(v, 4), perm);
    AddAtLevel(t, r, v, 4, perm, t4);
    var t3 := AddAt(t4, WalkEntry(t4, r, v, 4).base, Index(v, 3), perm);
    AddAtLevel(t4, r, v, 3, perm, t3);
    AddLowLevels(t3, r, v, perm, AddFlags(t, r, v, perm));
    GrownTransitive(t4, t3, t');
    GrownTransitive(t, t4, t');
  }

  lemma AddLowLevels(t: Memory, r: int, v: nat, perm: bv12, t': Memory)
    requires WalkHas(t, r, v, 3, perm)
    requires t' == AddAt(AddAt(t, WalkEntry(t, r, v, 3).base, Index(v, 2), perm), WalkEntry(t, r, v, 2).base, Index(v, 1), perm)
    ensures WalkHas(t', r, v, 1, perm) && Grown(t, t')
  {
    var t2 := AddAt(t, WalkEntry(t, r, v, 3).base, Index(v, 2), perm);
    AddAtLevel(t, r, v, 2, perm, t2);
    AddAtLevel(t2, r, v, 1, perm, t');
    GrownTransitive(t, t2, t');
  }

  lemma AddAtSameSizes(t: Memory, f: int, i: int, perm: bv12, t': Memory)
    requires !SizeBit(perm) && t' == AddAt(t, f, i, perm)
    ensures SameSizes(t, t') == true
  {
    var a := Entry(t, f, i).flags;
    OrSizeBit(a, perm);
    forall g, j ensures SizeBit(Entry(t', g, j).flags) == SizeBit(Entry(t, g, j).flags) {
      if !(g == f && j == i) { assert Entry(t', g, j) == Entry(t, g, j); }
    }
  }

  lemma OrSizeBit(a: bv12, perm: bv12)
    ensures SizeBit(a | perm) == (SizeBit(a) || SizeBit(perm))
  {
  }

  lemma SameSizesTransitive(t: Memory, t1: Memory, t2: Memory)
    requires SameSizes(t, t1) && SameSizes(t1, t2)
    ensures SameSizes(t, t2) == true
  {
  }

  lemma AddedStep(t: Memory, t1: Memory, slots: set<(int, int)>, f: int, i: int, perm: bv12, t2: Memory)
    requires AddedAt(t, t1, slots, perm) == true && Present(Entry(t, f, i)) && t2 == AddAt(t1, f, i, perm)
    ensures AddedAt(t, t2, slots + {(f, i)}, perm) == true
  {
    assert SlotAdded(t, t1, slots, perm, f, i);
    OrCarries(Entry(t, f, i).flags, perm, 0);
    AddedOnce(t1, f, i, perm, t2);
    AddedMore(t, t1, t2, slots, {(f, i)}, perm);
  }

  /** change_page_map or-s the flags into the four entries on the walk of the page, and writes
      nothing else. */
  lemma AddFlagsExactly(t: Memory, r: int, v: nat, perm: bv12)
    requires Small(t, r, v)
    ensures AddedAt(t, AddFlags(t, r, v, perm), WalkSlots(t, r, v), perm) == true
  {
    SmallWalk(t, r, v);
    var f3, f2, f1 := WalkFrame(t, r, v, 3), WalkFrame(t, r, v, 2), WalkFrame(t, r, v, 1);
    var i4, i3, i2, i1 := Index(v, 4), Index(v, 3), Index(v, 2), Index(v, 1);
    WritesOfWalk(t, r, v, perm, f3, f2, f1);
    AddedFour(t, r, i4, f3, i3, f2, i2, f1, i1, perm, AddFlags(t, r, v, perm));
  }

  /** The frames that change_page_map reads while it writes are those of the walk before it. */
  lemma WritesOfWalk(t: Memory, r: int, v: nat, perm: bv12, f3: int, f2: int, f1: int)
    requires f3 == Entry(t, r, Index(v, 4)).base && f2 == Entry(t, f3, Index(v, 3)).base && f1 == Entry(t, f2, Index(v, 2)).base
    requires Present(Entry(t, r, Index(v, 4))) && Present(Entry(t, f3, Index(v, 3)))
    ensures AddFlags(t, r, v, perm) ==
      AddAt(AddAt(AddAt(AddAt(t, r, Index(v, 4), perm), f3, Index(v, 3), perm), f2, Index(v, 2), perm), f1, Index(v, 1), perm)
  {
    var t4 := AddAt(t, r, Index(v, 4), perm);
    AddAtAlike(t, r, Index(v, 4), perm, t4);
    assert Present(Entry(t4, f3, Index(v, 3))) && Entry(t4, f3, Index(v, 3)).base == f2;
    AddAtAlike(t4, f3, Index(v, 3), perm, AddAt(t4, f3, Index(v, 3), perm));
  }

  lemma AddedFour(t: Memory, r: int, i4: int, f3: int, i3: int, f2: int, i2: int, f1: int, i1: int, perm: bv12, t': Memory)
    requires Present(Entry(t, r, i4)) && Present(Entry(t, f3, i3)) && Present(Entry(t, f2, i2)) && Present(Entry(t, f1, i1))
    requires t' == AddAt(AddAt(AddAt(AddAt(t, r, i4, perm), f3, i3, perm), f2, i2, perm), f1, i1, perm)
    ensures AddedAt(t, t', {(r, i4), (f3, i3), (f2, i2), (f1, i1)}, perm) == true
  {
    var t4 := AddAt(t, r, i4, perm);
    AddedOnce(t, r, i4, perm, t4);
    var t3 := AddAt(t4, f3, i3, perm);
    AddedStep(t, t4, {(r, i4)}, f3, i3, perm, t3);
    var t2 := AddAt(t3, f2, i2, perm);
    AddedStep(t, t3, {(r, i4)} + {(f3, i3)}, f2, i2, perm, t2);
    AddedStep(t, t2, {(r, i4)} + {(f3, i3)} + {(f2, i2)}, f1, i1, perm, t');
    assert {(r, i4)} + {(f3, i3)} + {(f2, i2)} + {(f1, i1)} == {(r, i4), (f3, i3), (f2, i2), (f1, i1)};
  }

  lemma AddFlagsSameSizes(t: Memory, r: int, v: nat, perm: bv12)
    requires !SizeBit(perm)
    ensures SameSizes(t, AddFlags(t, r, v, perm)) == true
  {
    var e4, t4 := Entry(t, r, Index(v, 4)), AddAt(t, r, Index(v, 4), perm);
    AddAtSameSizes(t, r, Index(v, 4), perm, t4);
    var e3, t3 := Entry(t4, e4.base, Index(v, 3)), AddAt(t4, e4.base, Index(v, 3), perm);
    AddAtSameSizes(t4, e4.base, Index(v, 3), perm, t3);
    var e2, t2 := Entry(t3, e3.base, Index(v, 2)), AddAt(t3, e3.base, Index(v, 2), perm);
    AddAtSameSizes(t3, e3.base, Index(v, 2), perm, t2);
    var t1 := AddAt(t2, e2.base, Index(v, 1), perm);
    AddAtSameSizes(t2, e2.base, Index(v, 1), perm, t1);
    SameSizesTransitive(t, t4, t3);
    SameSizesTransitive(t, t3, t2);
    SameSizesTransitive(t, t2, t1);
  }

  /** On a 4 KiB page change_page_map without the page-size bit keeps every translation, and
      afterwards all four entries of the walk carry the flags, and no other entry has changed. */
  lemma AddFlagsKeeps(t: Memory, r: int, v: nat, perm: bv12)
    requires Small(t, r, v) && !SizeBit(perm)
    ensures SameTranslations(t, AddFlags(t, r, v, perm)) == true
    ensures WalkHas(AddFlags(t, r, v, perm), r, v, 1, perm) == true
    ensures Grown(t, AddFlags(t, r, v, perm)) == true && SameSizes(t, AddFlags(t, r, v, perm)) == true
    ensures AddedAt(t, AddFlags(t, r, v, perm), WalkSlots(t, r, v), perm) == true
  {
    var t' := AddFlags(t, r, v, perm);
    AddFlagsExactly(t, r, v, perm);
    AddFlagsOnWalk(t, r, v, perm, t');
    AddFlagsSameSizes(t, r, v, perm);
    AlikeSameTranslations(t, t');
  }

  /** change_page_map on a 4 KiB page keeps every translation exactly if it is not given bit 7. With
      it the entry of level 4 gets a reserved bit, and all addresses below that entry fault. */
  lemma AddFlagsKeepsIff(t: Memory, r: int, v: nat, perm: bv12, t': Memory)
    requires Small(t, r, v) && t' == AddFlags(t, r, v, perm)
    ensures SameTranslations(t, t') <==> !SizeBit(perm)
    ensures SizeBit(perm) ==> forall w: nat | Index(w, 4) == Index(v, 4) :: Lookup(t', r, 4, w) == Some(Fault)
  {
    if SizeBit(perm) {
      AddFlagsOnWalk(t, r, v, perm, t');
      forall w: nat | Index(w, 4) == Index(v, 4) ensures Lookup(t', r, 4, w) == Some(Fault) {
        ReservedFaults(t', r, v, perm, w);
      }
      assert Translate(t', r, v) == None && Translate(t, r, v).Some?;
    } else {
      AddFlagsKeeps(t, r, v, perm);
    }
  }

  lemma ReservedFaults(t: Memory, r: int, v: nat, perm: bv12, w: nat)
    requires WalkHas(t, r, v, 1, perm) && SizeBit(perm) && Index(w, 4) == Index(v, 4)
    ensures Lookup(t, r, 4, w) == Some(Fault)
  {
    var e4 := WalkEntry(t, r, v, 4);
    assert Present(e4) && Carries(e4.flags, perm);
    CarriesSizeBit(e4.flags, perm);
  }

  lemma CarriesSizeBit(flags: bv12, perm: bv12)
    requires Carries(flags, perm) && SizeBit(perm)
    ensures SizeBit(flags)
  {
  }
}
