/** kmalloc: first fit over a list of 64-byte nodes. */
module Heap {
  const HEAP_START := 0xffffc00000000000
  const CHUNK := 64

  /** A heap_page node; the list order is the order of the sequence. */
  datatype Node = Node(used: bool, allocLength: nat)

  /** n consecutive free nodes start at c. */
  ghost predicate IsRun(nodes: seq<Node>, c: int, n: int) {
    0 <= c && c + n <= |nodes| && forall k | c <= k < c + n :: !nodes[k].used
  }

  ghost predicate NoRunBefore(nodes: seq<Node>, n: int, c: int) {
    forall k | 0 <= k < c :: !IsRun(nodes, k, n)
  }

  /** c starts the leftmost run of n free nodes. */
  ghost predicate IsFirstRun(nodes: seq<Node>, c: int, n: int) {
    IsRun(nodes, c, n) && NoRunBefore(nodes, n, c)
  }

  /** A free node from which the probe meets a used one before its last node. There the search
      moves on without advancing its index. */
  predicate Skips(nodes: seq<Node>, c: nat, n: nat) {
    c < |nodes| && !nodes[c].used && exists k | c <= k < c + n - 1 && k < |nodes| :: nodes[k].used
  }

  /** The index kmalloc has reached at node c: the nodes passed, less those skipped. */
  function IndexAt(nodes: seq<Node>, n: nat, c: nat): (i: nat)
    ensures i <= c
    decreases c
  {
    if c == 0 then 0 else IndexAt(nodes, n, c - 1) + if Skips(nodes, c - 1, n) then 0 else 1
  }

  /** The n nodes from c on are used, the first of them has the length of the block, and no other
      length and no node outside the run has changed. */
  ghost predicate TakesRun(nodes: seq<Node>, c: nat, n: nat, nodes': seq<Node>) {
    && |nodes'| == |nodes| && c < |nodes| && nodes'[c].allocLength == n
    && (forall k | 0 <= k < |nodes| && c <= k < c + n :: nodes'[k].used)
    && (forall k | 0 <= k < |nodes| && c < k < c + n :: nodes'[k].allocLength == nodes[k].allocLength)
    && (forall k | 0 <= k < |nodes| && !(c <= k < c + n) :: nodes'[k] == nodes[k])
  }

  /** The index is the position exactly if no node before it was skipped. */
  lemma {:induction false} IndexRightIff(nodes: seq<Node>, n: nat, c: nat)
    ensures IndexAt(nodes, n, c) == c <==> forall k: nat | k < c :: !Skips(nodes, k, n)
    decreases c
  {
    if c > 0 {
      IndexRightIff(nodes, n, c - 1);
    }
  }

  ghost function SkippedBefore(nodes: seq<Node>, n: nat, c: nat): set<nat> {
    set k: nat | k < c && Skips(nodes, k, n)
  }

  /** The index is behind the position by the number of nodes skipped. */
  lemma {:induction false} IndexCounts(nodes: seq<Node>, n: nat, c: nat)
    ensures IndexAt(nodes, n, c) + |SkippedBefore(nodes, n, c)| == c
    decreases c
  {
    if c > 0 {
      IndexCounts(nodes, n, c - 1);
      SkippedNext(nodes, n, c - 1, Skips(nodes, c - 1, n));
    }
  }

  lemma SkippedNext(nodes: seq<Node>, n: nat, c: nat, skips: bool)
    requires skips == Skips(nodes, c, n)
    ensures |SkippedBefore(nodes, n, c + 1)| == |SkippedBefore(nodes, n, c)| + if skips then 1 else 0
  {
    var before, now := SkippedBefore(nodes, n, c), SkippedBefore(nodes, n, c + 1);
    assert c !in before;
    assert now == if skips then before + {c} else before;
  }

  /** What kmalloc(n) does to the list: it takes the leftmost run of n free nodes and returns the
      address of its index, or returns 0 and changes nothing if there is no run. */
  ghost predicate Allocates(nodes: seq<Node>, n: nat, addr: nat, nodes': seq<Node>) {
    if n > 0 && exists c :: IsFirstRun(nodes, c, n) then
      exists c: nat :: IsFirstRun(nodes, c, n) && n > 0
        && TakesRun(nodes, c, n, nodes') && addr == HEAP_START + IndexAt(nodes, n, c) * CHUNK
    else addr == 0 && nodes' == nodes
  }

  lemma {:induction false} FirstRunExists(nodes: seq<Node>, n: int, c: nat) returns (f: nat)
    requires IsRun(nodes, c, n)
    ensures f <= c && IsFirstRun(nodes, f, n)
    decreases c
  {
    if k :| 0 <= k < c && IsRun(nodes, k, n) {
      f := FirstRunExists(nodes, n, k);
    } else {
      f := c;
    }
  }

  /** A run exists exactly if a first one does, so kmalloc fails exactly if there is none. */
  lemma FailsIffNoRun(nodes: seq<Node>, n: nat, addr: nat, nodes': seq<Node>)
    requires Allocates(nodes, n, addr, nodes')
    ensures addr == 0 <==> n == 0 || forall c :: !IsRun(nodes, c, n)
  {
    if c: nat :| IsRun(nodes, c, n) {
      var f := FirstRunExists(nodes, n, c);
    }
  }

  lemma FirstRunUnique(nodes: seq<Node>, n: int, c: int, d: int)
    requires IsFirstRun(nodes, c, n) && IsFirstRun(nodes, d, n)
    ensures c == d
  {
  }

  /** The rounding of kmalloc_byte. */
  function Units(size: nat): nat {
    if size == 0 then 0 else if size <= 64 then 1 else if size % 64 == 0 then size / 64 else size / 64 + 1
  }

  /** It is the least number of nodes that hold so many bytes. */
  lemma UnitsLeast(size: nat, n: nat)
    ensures n * 64 >= size <==> n >= Units(size)
  {
  }

  /** The first k nodes are used and the others are free, as they are until the first kfree. */
  ghost predicate UsedPrefix(nodes: seq<Node>, k: nat) {
    k <= |nodes| && forall i | 0 <= i < |nodes| :: nodes[i].used <==> i < k
  }

  lemma PrefixFirstRun(nodes: seq<Node>, k: nat, n: nat)
    requires UsedPrefix(nodes, k) && n > 0
    ensures k + n <= |nodes| ==> IsFirstRun(nodes, k, n) && IndexAt(nodes, n, k) == k
    ensures k + n > |nodes| ==> forall c :: !IsRun(nodes, c, n)
  {
    forall c | 0 <= c < k ensures !IsRun(nodes, c, n) {
      assert k <= |nodes| ==> nodes[c].used;
    }
    forall c | c >= k && k + n > |nodes| ensures !IsRun(nodes, c, n) {
    }
    IndexRightIff(nodes, n, k);
  }

  /** Before the first kfree, a block lies right after all earlier ones, at the address returned. */
  lemma PrefixAllocates(nodes: seq<Node>, k: nat, n: nat, addr: nat, nodes': seq<Node>)
    requires UsedPrefix(nodes, k) && Allocates(nodes, n, addr, nodes')
    ensures if 0 < n && k + n <= |nodes| then addr == 0xffffc00000000000 + k * 64 && UsedPrefix(nodes', k + n)
            else addr == 0 && nodes' == nodes
    ensures |nodes'| == |nodes|
  {
    if n > 0 {
      PrefixFirstRun(nodes, k, n);
      if k + n <= |nodes| {
        var c: nat :| && IsFirstRun(nodes, c, n) && TakesRun(nodes, c, n, nodes')
                      && addr == HEAP_START + IndexAt(nodes, n, c) * CHUNK;
        FirstRunUnique(nodes, n, c, k);
      }
    }
  }

  datatype Call = Call(n: nat, addr: nat)

  /** The calls and results of a run of kmalloc, with the list before each call and at the end. */
  ghost predicate IsHistory(calls: seq<Call>, states: seq<seq<Node>>) {
    |states| == |calls| + 1
    && forall i | 0 <= i < |calls| :: Allocates(states[i], calls[i].n, calls[i].addr, states[i + 1])
  }

  /** How many nodes the first i calls have taken. */
  ghost function Taken(calls: seq<Call>, i: nat): nat
    requires i <= |calls|
    decreases i
  {
    if i == 0 then 0 else Taken(calls, i - 1) + if calls[i - 1].addr == 0 then 0 else calls[i - 1].n
  }

  lemma {:induction false} HistoryPrefix(calls: seq<Call>, states: seq<seq<Node>>, i: nat)
    requires IsHistory(calls, states) && UsedPrefix(states[0], 0) && i <= |calls|
    ensures UsedPrefix(states[i], Taken(calls, i)) && |states[i]| == |states[0]|
    ensures i > 0 && calls[i - 1].addr != 0 ==> calls[i - 1].addr == 0xffffc00000000000 + Taken(calls, i - 1) * 64
    decreases i
  {
    if i > 0 {
      HistoryPrefix(calls, states, i - 1);
      PrefixAllocates(states[i - 1], Taken(calls, i - 1), calls[i - 1].n, calls[i - 1].addr, states[i]);
    }
  }

  lemma {:induction false} TakenGrows(calls: seq<Call>, i: nat, j: nat)
    requires i < j <= |calls| && calls[i].addr != 0
    ensures Taken(calls, i) + calls[i].n <= Taken(calls, j)
    decreases j
  {
    if i < j - 1 {
      TakenGrows(calls, i, j - 1);
    }
  }

  /** Over every run of kmalloc on a fresh heap, blocks of 64-byte nodes lie inside the heap and never
      overlap. */
  lemma BlocksDisjoint(calls: seq<Call>, states: seq<seq<Node>>, i: nat, j: nat)
    requires IsHistory(calls, states) && UsedPrefix(states[0], 0) && i <= j < |calls|
    requires calls[i].addr != 0 && calls[j].addr != 0
    ensures 0xffffc00000000000 <= calls[i].addr
    ensures i < j ==> calls[i].addr + calls[i].n * 64 <= calls[j].addr
    ensures calls[j].addr + calls[j].n * 64 <= 0xffffc00000000000 + |states[0]| * 64
  {
    BlockPlace(calls, states, i);
    BlockPlace(calls, states, j);
    if i < j {
      TakenGrows(calls, i, j);
    }
  }

  datatype ByteCall = ByteCall(size: nat, addr: nat)

  /** The calls and results of a run of kmalloc_byte, with the list before each call and at the end. */
  ghost predicate IsByteHistory(calls: seq<ByteCall>, states: seq<seq<Node>>) {
    |states| == |calls| + 1
    && forall i | 0 <= i < |calls| :: Allocates(states[i], Units(calls[i].size), calls[i].addr, states[i + 1])
  }

  /** Over every run of kmalloc_byte on a fresh heap, the bytes asked for lie inside the heap, and no
      byte belongs to two blocks. */
  lemma BytesDisjoint(calls: seq<ByteCall>, states: seq<seq<Node>>, i: nat, j: nat)
    requires IsByteHistory(calls, states) && UsedPrefix(states[0], 0) && i <= j < |calls|
    requires calls[i].addr != 0 && calls[j].addr != 0
    ensures 0xffffc00000000000 <= calls[i].addr
    ensures i < j ==> calls[i].addr + calls[i].size <= calls[j].addr
    ensures calls[j].addr + calls[j].size <= 0xffffc00000000000 + |states[0]| * 64
  {
    var units := seq(|calls|, k requires 0 <= k < |calls| => Call(Units(calls[k].size), calls[k].addr));
    assert IsHistory(units, states);
    BlocksDisjoint(units, states, i, j);
    UnitsLeast(calls[i].size, Units(calls[i].size));
    UnitsLeast(calls[j].size, Units(calls[j].size));
  }

  lemma BlockPlace(calls: seq<Call>, states: seq<seq<Node>>, i: nat)
    requires IsHistory(calls, states) && UsedPrefix(states[0], 0) && i < |calls| && calls[i].addr != 0
    ensures calls[i].addr == 0xffffc00000000000 + Taken(calls, i) * 64
    ensures Taken(calls, i) + calls[i].n <= |states[0]|
  {
    HistoryPrefix(calls, states, i + 1);
  }

  /** Once a free node is skipped, the address is not that of the block: here the run of
      three nodes at 3 is returned as if it started at 2. */
  lemma AddressWrongAfterSkip()
    ensures exists nodes, n: nat, c: nat :: IsFirstRun(nodes, c, n) && IndexAt(nodes, n, c) != c
  {
    var u, f := Node(true, 1), Node(false, 0);
    var nodes := [u, f, u, f, f, f];
    assert nodes[0].used && nodes[2].used && !nodes[1].used;
    assert IsFirstRun(nodes, 3, 3);
    assert Skips(nodes, 1, 3) by { assert nodes[2].used; }
    IndexRightIff(nodes, 3, 3);
    assert IndexAt(nodes, 3, 3) != 3;
  }

  class Heap {
    var nodes: seq<Node>

    constructor (count: nat)
      ensures nodes == seq(count, _ => Node(false, 0))
    {
      nodes := seq(count, _ => Node(false, 0));
    }

    method Kmalloc(size: nat) returns (addr: nat)
      modifies this
      ensures Allocates(old(nodes), size, addr, nodes)
    {
      if size == 0 {
        return 0;
      }
      var current, index := 0, 0;
      while current < |nodes|
        invariant current <= |nodes| && nodes == old(nodes)
        invariant index == IndexAt(nodes, size, current) && NoRunBefore(nodes, size, current)
      {
        if !nodes[current].used {
          var fits, full, probe := Probe(current, size);
          if full {
            NoRunLater(nodes, current, size);
            return 0;
          }
          if !fits {
            assert Skips(nodes, current, size);
            current := current + 1;
            continue;
          }
          assert !Skips(nodes, current, size);
          if !nodes[probe].used {
            assert IsFirstRun(nodes, current, size);
            MarkUsed(current, size);
            return HEAP_START + index * CHUNK;
          }
        }
        current := current + 1;
        index := index + 1;
      }
      NoRunLater(nodes, current, size);
      return 0;
    }

    method Probe(current: nat, size: nat) returns (fits: bool, full: bool, probe: nat)
      requires current < |nodes| && size > 0
      ensures full ==> current + size > |nodes|
      ensures !full ==> current <= probe < |nodes|
      ensures !full && fits ==> probe == current + size - 1 && forall k | current <= k < probe :: !nodes[k].used
      ensures !full && !fits ==> probe < current + size - 1 && nodes[probe].used
    {
      probe := current;
      var i := 0;
      while i < size - 1
        invariant 0 <= i <= size - 1 && probe == current + i < |nodes|
        invariant forall k | current <= k < probe :: !nodes[k].used
      {
        if probe + 1 == |nodes| {
          return true, true, probe;
        }
        if nodes[probe].used {
          return false, false, probe;
        }
        probe := probe + 1;
        i := i + 1;
      }
      return true, false, probe;
    }

    method MarkUsed(current: nat, size: nat)
      requires size > 0 && current + size <= |nodes|
      modifies this
      ensures TakesRun(old(nodes), current, size, nodes)
    {
      var probe, i := current, 0;
      while i < size
        invariant i <= size && probe == current + i && |nodes| == |old(nodes)|
        invariant forall k | 0 <= k < |nodes| ::
          nodes[k] == if current <= k < probe then old(nodes)[k].(used := true) else old(nodes)[k]
      {
        nodes := nodes[probe := nodes[probe].(used := true)];
        probe := probe + 1;
        i := i + 1;
      }
      nodes := nodes[current := nodes[current].(allocLength := size)];
    }

    /** kmalloc_byte: the least whole number of nodes that holds size bytes. */
    method KmallocByte(size: nat) returns (addr: nat)
      modifies this
      ensures Allocates(old(nodes), Units(size), addr, nodes)
    {
      if size == 0 {
        addr := Kmalloc(0);
      } else if size <= 64 {
        addr := Kmalloc(1);
      } else if size % 64 == 0 {
        addr := Kmalloc(size / 64);
      } else {
        addr := Kmalloc(size / 64 + 1);
      }
    }
  }

  lemma NoRunLater(nodes: seq<Node>, c: nat, n: nat)
    requires NoRunBefore(nodes, n, c) && c + n > |nodes|
    ensures forall k :: !IsRun(nodes, k, n)
  {
  }
}
