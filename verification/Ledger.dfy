/** The ledger of a thread's mappings that map_page and unmap_page keep once scheduling has started. */
module Ledger {
  datatype Slot = Slot(virt: nat, flag: nat, used: bool)

  const EMPTY := Slot(0, 0, false)

  /** The slots (max_mappings is their number) and num_mappings. */
  datatype Book = Book(slots: seq<Slot>, num: int)

  /** The addresses in the used slots. */
  ghost function Addresses(slots: seq<Slot>): multiset<nat> {
    if slots == [] then multiset{}
    else if slots[|slots| - 1].used then Addresses(slots[..|slots| - 1]) + multiset{slots[|slots| - 1].virt}
    else Addresses(slots[..|slots| - 1])
  }

  /** The count is right, a free slot exists, and unused slots are zeroed. */
  ghost predicate Valid(b: Book) {
    && b.num == |Addresses(b.slots)| && b.num < |b.slots|
    && Zeroed(b.slots)
  }

  /** The addresses in all slots, used or not. */
  ghost function Virts(slots: seq<Slot>): set<nat> {
    set k | 0 <= k < |slots| :: slots[k].virt
  }

  /** The first unused slot, or the number of slots. */
  function FirstUnused(slots: seq<Slot>, i: nat): (r: nat)
    requires i <= |slots|
    ensures i <= r <= |slots| && (r < |slots| ==> !slots[r].used)
    ensures forall k | i <= k < r :: slots[k].used
    decreases |slots| - i
  {
    if i == |slots| || !slots[i].used then i else FirstUnused(slots, i + 1)
  }

  /** The first slot that holds the address, used or not, or the number of slots. */
  function FirstAt(slots: seq<Slot>, virt: nat, i: nat): (r: nat)
    requires i <= |slots|
    ensures i <= r <= |slots| && (r < |slots| ==> slots[r].virt == virt)
    ensures forall k | i <= k < r :: slots[k].virt != virt
    decreases |slots| - i
  {
    if i == |slots| || slots[i].virt == virt then i else FirstAt(slots, virt, i + 1)
  }

  /** map_page's part: take the first unused slot, then grow by eight slots if all are used. */
  function Recorded(b: Book, virt: nat): Book {
    var i := FirstUnused(b.slots, 0);
    var slots := if i < |b.slots| then b.slots[i := b.slots[i].(virt := virt, used := true)] else b.slots;
    var num := if i < |b.slots| then b.num + 1 else b.num;
    Book(if num == |slots| then slots + seq(8, _ => EMPTY) else slots, num)
  }

  /** unmap_page's part: clear the first slot that holds the address. */
  function Forgotten(b: Book, virt: nat): Book {
    var i := FirstAt(b.slots, virt, 0);
    if i < |b.slots| then Book(b.slots[i := EMPTY], b.num - 1) else b
  }

  /** Using an unused slot adds its address. */
  lemma {:induction false} AddressesUse(slots: seq<Slot>, i: nat, s: Slot)
    requires i < |slots| && !slots[i].used && s.used
    ensures Addresses(slots[i := s]) == Addresses(slots) + multiset{s.virt}
    decreases |slots|
  {
    var n := |slots| - 1;
    var slots' := slots[i := s];
    if i < n {
      AddressesUse(slots[..n], i, s);
      assert slots'[..n] == slots[..n][i := s];
    } else {
      assert slots'[..n] == slots[..n];
    }
  }

  lemma {:induction false} AddressesBound(slots: seq<Slot>)
    ensures |Addresses(slots)| <= |slots|
    ensures FirstUnused(slots, 0) == |slots| ==> |Addresses(slots)| == |slots|
    ensures FirstUnused(slots, 0) < |slots| ==> |Addresses(slots)| < |slots|
    decreases |slots|
  {
    if slots != [] {
      var n := |slots| - 1;
      AddressesBound(slots[..n]);
      var j, k := FirstUnused(slots, 0), FirstUnused(slots[..n], 0);
      assert k < n ==> !slots[k].used;
      assert j < n ==> !slots[..n][j].used;
    }
  }

  lemma {:induction false} AddressesAppend(slots: seq<Slot>, more: seq<Slot>)
    requires forall i | 0 <= i < |more| :: !more[i].used
    ensures Addresses(slots + more) == Addresses(slots)
    decreases |more|
  {
    if more == [] {
      assert slots + more == slots;
    } else {
      var n := |more| - 1;
      AddressesAppend(slots, more[..n]);
      assert (slots + more)[..|slots + more| - 1] == slots + more[..n];
    }
  }

  lemma {:induction false} HeldIffListed(slots: seq<Slot>, virt: nat)
    ensures virt in Addresses(slots) <==> exists i :: 0 <= i < |slots| && slots[i].used && slots[i].virt == virt
    decreases |slots|
  {
    if slots != [] {
      var n := |slots| - 1;
      HeldIffListed(slots[..n], virt);
      if i :| 0 <= i < n && slots[i].used && slots[i].virt == virt {
        assert slots[..n][i].virt == virt;
      }
    }
  }

  ghost predicate Zeroed(slots: seq<Slot>) {
    forall i | 0 <= i < |slots| && !slots[i].used :: slots[i] == EMPTY
  }

  lemma FreeSlotExists(b: Book)
    requires Valid(b)
    ensures FirstUnused(b.slots, 0) < |b.slots|
  {
    AddressesBound(b.slots);
  }

  /** Recording adds the address and leaves a free slot for the next call. */
  lemma RecordKeeps(b: Book, virt: nat)
    requires Valid(b)
    ensures Valid(Recorded(b, virt)) && Addresses(Recorded(b, virt).slots) == Addresses(b.slots) + multiset{virt}
  {
    FreeSlotExists(b);
    var i := FirstUnused(b.slots, 0);
    var s := b.slots[i].(virt := virt, used := true);
    var slots := b.slots[i := s];
    AddressesUse(b.slots, i, s);
    GrowKeeps(slots, b.num + 1);
  }

  /** Growing by eight when full keeps the addresses and makes room. */
  lemma GrowKeeps(slots: seq<Slot>, num: int)
    requires num == |Addresses(slots)| && Zeroed(slots)
    ensures var b := Book(if num == |slots| then slots + seq(8, _ => EMPTY) else slots, num);
      Valid(b) && Addresses(b.slots) == Addresses(slots)
  {
    AddressesBound(slots);
    AddressesAppend(slots, seq(8, _ => EMPTY));
  }

  /** The first slot that holds the address, if any, is a used one. Unused slots hold 0, so this
      can only fail for address 0. */
  predicate CanForget(b: Book, virt: nat) {
    virt != 0 || (FirstAt(b.slots, 0, 0) < |b.slots| && b.slots[FirstAt(b.slots, 0, 0)].used)
  }

  /** Clearing a used slot removes its address. */
  lemma AddressesClear(slots: seq<Slot>, i: nat)
    requires i < |slots| && slots[i].used
    ensures Addresses(slots[i := EMPTY]) == Addresses(slots) - multiset{slots[i].virt}
    ensures |Addresses(slots[i := EMPTY])| == |Addresses(slots)| - 1
  {
    AddressesUse(slots[i := EMPTY], i, slots[i]);
    assert slots[i := EMPTY][i := slots[i]] == slots;
  }

  lemma NotListed(slots: seq<Slot>, virt: nat)
    requires FirstAt(slots, virt, 0) == |slots|
    ensures Addresses(slots) - multiset{virt} == Addresses(slots)
  {
    HeldIffListed(slots, virt);
  }

  /** Forgetting removes one occurrence of the address, if there is one. */
  lemma ForgetKeeps(b: Book, virt: nat)
    requires Valid(b) && CanForget(b, virt)
    ensures Valid(Forgotten(b, virt)) && Addresses(Forgotten(b, virt).slots) == Addresses(b.slots) - multiset{virt}
  {
    var i := FirstAt(b.slots, virt, 0);
    if i < |b.slots| {
      AddressesClear(b.slots, i);
    } else {
      NotListed(b.slots, virt);
    }
  }

  /** unmap_page keeps the ledger right exactly if it does not find an unused slot: for address 0
      it takes the first slot that holds 0, used or not, and always lowers the count. */
  lemma ForgetKeepsIff(b: Book, virt: nat)
    requires Valid(b)
    ensures Valid(Forgotten(b, virt)) <==> CanForget(b, virt)
  {
    if CanForget(b, virt) {
      ForgetKeeps(b, virt);
    } else {
      FreeSlotExists(b);
      var k, i := FirstUnused(b.slots, 0), FirstAt(b.slots, 0, 0);
      assert i <= k && b.slots[i] == EMPTY;
      assert b.slots[i := EMPTY] == b.slots;
    }
  }

  /** A new thread that unmaps address 0 has a count of -1. */
  lemma ForgetZeroMiscounts()
    ensures var b := Book(seq(8, _ => EMPTY), 0);
      Valid(b) && !CanForget(b, 0) && Forgotten(b, 0) == Book(b.slots, -1)
  {
    var b := Book(seq(8, _ => EMPTY), 0);
    NothingListed(b.slots);
    assert FirstAt(b.slots, 0, 0) == 0;
    assert b.slots[0 := EMPTY] == b.slots;
  }

  datatype Op = Mapped(virt: nat) | Unmapped(virt: nat)

  function Step(b: Book, op: Op): Book {
    match op
    case Mapped(v) => Recorded(b, v)
    case Unmapped(v) => Forgotten(b, v)
  }

  function Run(b: Book, ops: seq<Op>): Book
    decreases |ops|
  {
    if ops == [] then b else Run(Step(b, ops[0]), ops[1..])
  }

  /** The addresses mapped minus the addresses unmapped, in order. */
  ghost function Balance(start: multiset<nat>, ops: seq<Op>): multiset<nat>
    decreases |ops|
  {
    if ops == [] then start
    else Balance(if ops[0].Mapped? then start + multiset{ops[0].virt} else start - multiset{ops[0].virt}, ops[1..])
  }

  /** Each unmap of the run finds a used slot or none, as it does for every address but 0. */
  predicate RunForgets(b: Book, ops: seq<Op>)
    decreases |ops|
  {
    ops == [] || ((ops[0].Unmapped? ==> CanForget(b, ops[0].virt)) && RunForgets(Step(b, ops[0]), ops[1..]))
  }

  lemma {:induction false} NonZeroForgets(b: Book, ops: seq<Op>)
    requires forall i | 0 <= i < |ops| && ops[i].Unmapped? :: ops[i].virt != 0
    ensures RunForgets(b, ops)
    decreases |ops|
  {
    if ops != [] { NonZeroForgets(Step(b, ops[0]), ops[1..]); }
  }

  /** Over every such run the used slots hold exactly what was mapped and not unmapped,
      num_mappings counts them, and a free slot is there for the next call. */
  lemma {:induction false} RunKeeps(b: Book, ops: seq<Op>)
    requires Valid(b) && RunForgets(b, ops)
    ensures Valid(Run(b, ops)) && Addresses(Run(b, ops).slots) == Balance(Addresses(b.slots), ops)
    decreases |ops|
  {
    if ops != [] {
      match ops[0] {
        case Mapped(v) => RecordKeeps(b, v);
        case Unmapped(v) => ForgetKeeps(b, v);
      }
      RunKeeps(Step(b, ops[0]), ops[1..]);
    }
  }

  /** The slots after the exit loop: a used slot that holds 0 stays unless it is the first. */
  function Drained(slots: seq<Slot>): (r: seq<Slot>)
    ensures |r| == |slots|
  {
    seq(|slots|, k requires 0 <= k < |slots| =>
      if k > 0 && slots[k].used && slots[k].virt == 0 then slots[k] else EMPTY)
  }

  /** The exit loop empties the ledger exactly if no slot but the first holds a mapping of 0. */
  lemma DrainedIff(slots: seq<Slot>)
    ensures Addresses(Drained(slots)) == multiset{} <==>
            forall k | 0 < k < |slots| && slots[k].used :: slots[k].virt != 0
  {
    HeldIffListed(Drained(slots), 0);
    if forall k | 0 < k < |slots| && slots[k].used :: slots[k].virt != 0 {
      NothingListed(Drained(slots));
    } else {
      var k :| 0 < k < |slots| && slots[k].used && slots[k].virt == 0;
      assert Drained(slots)[k].used && Drained(slots)[k].virt == 0;
    }
  }

  /** A thread that has mapped 0x1000 and then 0 leaves the mapping of 0 recorded when it exits. */
  lemma DrainLeavesZero(b: Book)
    requires b == Recorded(Recorded(Book(seq(8, _ => EMPTY), 0), 0x1000), 0)
    ensures Valid(b) && 0 in Addresses(Drained(b.slots))
  {
    var b0 := Book(seq(8, _ => EMPTY), 0);
    NothingListed(b0.slots);
    RecordKeeps(b0, 0x1000);
    var b1 := Recorded(b0, 0x1000);
    assert FirstUnused(b0.slots, 0) == 0 && b1.slots[0].used && !b1.slots[1].used;
    RecordKeeps(b1, 0);
    assert FirstUnused(b1.slots, 0) == 1;
    var d := Drained(b.slots);
    assert d[1].used && d[1].virt == 0;
    HeldIffListed(d, 0);
  }

  /** A slot is the first with the address exactly if it has it and no earlier one does. */
  lemma FirstAtVirts(slots: seq<Slot>, virt: nat)
    ensures FirstAt(slots, virt, 0) < |slots| <==> virt in Virts(slots)
    ensures forall k | 0 <= k < |slots| ::
      k == FirstAt(slots, virt, 0) <==> slots[k].virt == virt && virt !in Virts(slots[..k])
  {
    var i := FirstAt(slots, virt, 0);
    assert i < |slots| ==> slots[i].virt in Virts(slots);
    forall k | 0 <= k < |slots| && slots[k].virt == virt && k != i ensures virt in Virts(slots[..k]) {
      assert slots[..k][i].virt == virt;
    }
    if i < |slots| {
      assert forall k | 0 <= k < i :: slots[..i][k] == slots[k];
    }
  }

  lemma FirstAtIs(slots: seq<Slot>, virt: nat, i: nat)
    requires i < |slots| && slots[i].virt == virt && forall k | 0 <= k < i :: slots[k].virt != virt
    ensures FirstAt(slots, virt, 0) == i
  {
  }

  /** What one turn of the exit loop does to slot i: the slots before it are done already. */
  lemma DrainTurn(slots: seq<Slot>, i: nat, now: seq<Slot>, num: int)
    requires i < |slots| && now == Drained(slots)[..i] + slots[i..] && Zeroed(slots)
    ensures slots[i].used ==>
      Forgotten(Book(now, num), slots[i].virt) == Book(Drained(slots)[..i + 1] + slots[i + 1..], num - 1)
    ensures !slots[i].used ==> now == Drained(slots)[..i + 1] + slots[i + 1..]
  {
    var next, v := Drained(slots)[..i + 1] + slots[i + 1..], slots[i].virt;
    assert now[i] == slots[i] && forall k | 0 <= k < i :: now[k] == Drained(slots)[k];
    if slots[i].used {
      var j := if v == 0 then 0 else i;
      FirstAtIs(now, v, j);
      assert now[j := EMPTY] == next;
    } else {
      assert now == next;
    }
  }

  lemma AddressesNext(slots: seq<Slot>, i: nat)
    requires i < |slots|
    ensures Addresses(slots[..i + 1]) ==
      if slots[i].used then Addresses(slots[..i]) + multiset{slots[i].virt} else Addresses(slots[..i])
  {
    assert slots[..i + 1][..i] == slots[..i];
  }

  /** The exit loop at slot i, with the addresses it has unmapped so far. */
  ghost predicate Draining(slots: seq<Slot>, b: Book, unmapped: seq<nat>, i: nat) {
    && i <= |slots| && Zeroed(slots) && b.slots == Drained(slots)[..i] + slots[i..]
    && multiset(unmapped) == Addresses(slots[..i]) && b.num == |Addresses(slots)| - |unmapped|
  }

  lemma DrainStart(b: Book)
    requires Valid(b)
    ensures Draining(b.slots, b, [], 0) == true
  {
  }

  lemma DrainStep(slots: seq<Slot>, b: Book, unmapped: seq<nat>, i: nat)
    requires Draining(slots, b, unmapped, i) && i < |slots|
    ensures |b.slots| == |slots| && b.slots[i] == slots[i]
    ensures slots[i].used ==>
      && slots[i].virt in Addresses(slots)
      && Draining(slots, Forgotten(b, slots[i].virt), unmapped + [slots[i].virt], i + 1) == true
    ensures !slots[i].used ==> Draining(slots, b, unmapped, i + 1) == true
  {
    DrainTurn(slots, i, b.slots, b.num);
    AddressesNext(slots, i);
    HeldIffListed(slots, slots[i].virt);
  }

  lemma DrainEnd(slots: seq<Slot>, b: Book, unmapped: seq<nat>)
    requires Draining(slots, b, unmapped, |slots|)
    ensures b == Book(Drained(slots), 0) && multiset(unmapped) == Addresses(slots)
  {
    assert slots[..|slots|] == slots;
    assert b.slots == Drained(slots);
    assert |multiset(unmapped)| == |unmapped|;
  }

  class Mappings {
    var slots: seq<Slot>
    var num: int

    /** create_thread starts with eight zeroed slots. */
    constructor ()
      ensures Contents() == Book(seq(8, _ => EMPTY), 0) && Valid(Contents())
    {
      slots, num := seq(8, _ => EMPTY), 0;
      new;
      AddressesAppend([], slots);
      assert [] + slots == slots;
    }

    function Contents(): Book
      reads this
    {
      Book(slots, num)
    }

    method Record(virt: nat) returns (ret: nat)
      requires Valid(Contents())
      modifies this
      ensures Contents() == Recorded(old(Contents()), virt) && Valid(Contents())
      ensures ret < old(|slots|) && !old(slots[ret].used) && slots[ret].used && slots[ret].virt == virt
      ensures (forall k | 0 <= k < ret :: slots[k].used) && num == old(num) + 1
      ensures |slots| == old(|slots|) + if num == old(|slots|) then 8 else 0
      ensures forall k | 0 <= k < old(|slots|) && k != ret :: slots[k] == old(slots)[k]
      ensures forall k | old(|slots|) <= k < |slots| :: slots[k] == Slot(0, 0, false)
      ensures Addresses(slots) == old(Addresses(slots)) + multiset{virt}
    {
      RecordKeeps(Contents(), virt);
      ret := 0;
      var i := 0;
      while i < |slots|
        invariant i <= |slots| && slots == old(slots) && num == old(num)
        invariant FirstUnused(slots, 0) == FirstUnused(slots, i)
      {
        if !slots[i].used {
          slots := slots[i := slots[i].(virt := virt, used := true)];
          num := num + 1;
          ret := i;
          break;
        }
        i := i + 1;
      }
      if num == |slots| {
        slots := slots + seq(8, _ => EMPTY);
      }
    }

    method Forget(virt: nat)
      modifies this
      ensures Contents() == Forgotten(old(Contents()), virt)
      ensures |slots| == old(|slots|) && forall k | 0 <= k < |slots| ::
        slots[k] == if old(slots)[k].virt == virt && virt !in Virts(old(slots)[..k]) then Slot(0, 0, false) else old(slots)[k]
      ensures num == old(num) - if virt in Virts(old(slots)) then 1 else 0
      ensures old(Valid(Contents())) ==> (Valid(Contents()) <==> CanForget(old(Contents()), virt))
    {
      if Valid(Contents()) {
        ForgetKeepsIff(Contents(), virt);
      }
      FirstAtVirts(slots, virt);
      var i := 0;
      while i < |slots|
        invariant i <= |slots| && slots == old(slots) && num == old(num)
        invariant FirstAt(slots, virt, 0) == FirstAt(slots, virt, i)
      {
        if slots[i].virt == virt {
          slots := slots[i := EMPTY];
          num := num - 1;
          break;
        }
        i := i + 1;
      }
    }
  }

  lemma {:induction false} NothingListed(slots: seq<Slot>)
    requires forall k | 0 <= k < |slots| :: !slots[k].used
    ensures Addresses(slots) == multiset{}
  {
    AddressesAppend([], slots);
    assert [] + slots == slots;
  }
}
