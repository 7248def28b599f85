/** The thread ring: a circular doubly linked list whose running element is on the CPU. */
module Scheduler {
  import opened Options

  const IDLE_PID := 0xDEADBEEFCAFEBABE

  /** The ring from the running thread on, who is on the CPU once scheduling has begun, and the
      stack pointer each thread of the ring resumes from. */
  datatype Ring = Ring(pids: seq<nat>, cpu: Option<nat>, rsp: map<nat, nat>)

  datatype Op =
    | Push(pid: nat, rsp: nat)
    | Reschedule(rspNow: nat)
    | Exit(idleRsp: nat)

  ghost predicate Differ<T>(s: seq<T>, i: int, j: int) {
    0 <= i < j < |s| ==> s[i] != s[j]
  }

  ghost predicate Distinct<T>(s: seq<T>) {
    forall i, j :: Differ(s, i, j)
  }

  function Rotate<T>(s: seq<T>): seq<T>
    requires |s| > 0
  {
    s[1..] + [s[0]]
  }

  /** s with x put in second place, or alone if s is empty. */
  function PutSecond<T>(s: seq<T>, x: T): seq<T> {
    if s == [] then [x] else [s[0], x] + s[1..]
  }

  lemma OthersDiffer<T>(s: seq<T>, k: int)
    requires Distinct(s) && 0 <= k < |s|
    ensures forall i | 0 <= i < |s| && i != k :: s[i] != s[k]
  {
    forall i | 0 <= i < |s| && i != k ensures s[i] != s[k] {
      assert Differ(s, i, k) && Differ(s, k, i);
    }
  }

  lemma DistinctTail<T>(s: seq<T>)
    requires |s| > 0 && Distinct(s)
    ensures Distinct(s[1..]) && s[0] !in s[1..]
  {
    forall i, j ensures Differ(s[1..], i, j) {
      assert Differ(s, i + 1, j + 1);
    }
    forall i | 1 <= i < |s| ensures s[i] != s[0] {
      assert Differ(s, 0, i);
    }
  }

  lemma DistinctRotate<T>(s: seq<T>)
    requires |s| > 0 && Distinct(s)
    ensures Distinct(Rotate(s)) && forall x :: x in Rotate(s) <==> x in s
  {
    DistinctTail(s);
    forall i, j ensures Differ(Rotate(s), i, j) {
      assert Differ(s[1..], i, j);
    }
    assert s == [s[0]] + s[1..];
  }

  lemma DistinctPutSecond<T>(s: seq<T>, x: T)
    requires Distinct(s) && x !in s
    ensures Distinct(PutSecond(s, x)) && forall y :: y in PutSecond(s, x) <==> y in s || y == x
  {
    if s != [] {
      var t := PutSecond(s, x);
      forall i, j ensures Differ(t, i, j) {
        assert Differ(s, if i > 1 then i - 1 else i, if j > 1 then j - 1 else j);
      }
      assert s == [s[0]] + s[1..];
    }
  }

  /** Pids are unique, each has a saved stack pointer, and the CPU runs the running thread. */
  ghost predicate Sound(r: Ring) {
    && Distinct(r.pids) && (forall p :: p in r.pids <==> p in r.rsp)
    && (r.cpu.Some? ==> |r.pids| > 0 && r.cpu == Some(r.pids[0]))
  }

  ghost predicate Enabled(r: Ring, op: Op) {
    match op
    case Push(p, _) => p !in r.pids
    case Reschedule(_) => |r.pids| > 0
    case Exit(_) => r.cpu.Some? && |r.pids| > 0
  }

  /** push_thread puts the new thread right after the running one; reschedule first dispatches
      the running thread, later saves its stack pointer and moves on by one; exit discards the
      running thread and moves on, or falls back to a fresh idle thread. */
  function Step(r: Ring, op: Op): Ring
    requires op.Push? || |r.pids| > 0
  {
    match op
    case Push(p, sp) => Ring(PutSecond(r.pids, p), r.cpu, r.rsp[p := sp])
    case Reschedule(sp) =>
      if r.cpu.None? then r.(cpu := Some(r.pids[0]))
      else if |r.pids| == 1 then r
      else Ring(Rotate(r.pids), Some(r.pids[1]), r.rsp[r.pids[0] := sp])
    case Exit(sp) =>
      if |r.pids| == 1 then Ring([IDLE_PID], Some(IDLE_PID), map[IDLE_PID := sp])
      else Ring(r.pids[1..], Some(r.pids[1]), r.rsp - {r.pids[0]})
  }

  lemma StepSound(r: Ring, op: Op)
    requires Sound(r) && Enabled(r, op)
    ensures Sound(Step(r, op))
  {
    match op {
      case Push(p, _) => DistinctPutSecond(r.pids, p);
      case Reschedule(_) => DistinctRotate(r.pids);
      case Exit(_) =>
        DistinctTail(r.pids);
        assert r.pids == [r.pids[0]] + r.pids[1..];
    }
  }

  /** What becomes of the stack pointers: a reschedule saves the one it is called with in the thread
      that leaves the CPU for another, and in no thread if none does; a push stores the new
      thread's; an exit drops the running thread's, and the idle thread starts with its own. */
  lemma StepSaves(r: Ring, op: Op, p: nat)
    requires Sound(r) && Enabled(r, op) && p in Step(r, op).pids
    ensures var r' := Step(r, op);
      && p in r'.rsp
      && (op.Push? ==> p == op.pid || p in r.rsp) && (op.Push? && p == op.pid ==> r'.rsp[p] == op.rsp)
      && (op.Push? && p != op.pid ==> r'.rsp[p] == r.rsp[p])
      && (op.Reschedule? ==> p in r.rsp)
      && (op.Reschedule? ==> r'.rsp[p] == if r.cpu == Some(p) && r'.cpu != Some(p) then op.rspNow else r.rsp[p])
      && (op.Exit? && |r.pids| > 1 ==> r.cpu != Some(p) && p in r.rsp && r'.rsp[p] == r.rsp[p])
      && (op.Exit? && |r.pids| == 1 ==> p == 0xDEADBEEFCAFEBABE && r'.rsp[p] == op.idleRsp)
  {
    StepSound(r, op);
    if |r.pids| > 1 {
      DistinctTail(r.pids);
      DistinctRotate(r.pids);
      assert r.pids[1] in r.pids[1..];
    }
    if op.Push? {
      DistinctPutSecond(r.pids, op.pid);
    }
  }

  /** A thread pushed while another runs is the next to get the CPU. */
  lemma PushedRunsNext(r: Ring, pid: nat, sp: nat, rspNow: nat)
    requires Sound(r) && r.cpu.Some? && pid !in r.pids
    ensures Step(Step(r, Push(pid, sp)), Reschedule(rspNow)).cpu == Some(pid)
  {
  }

  ghost predicate RunEnabled(r: Ring, ops: seq<Op>)
    decreases |ops|
  {
    ops == [] || (Enabled(r, ops[0]) && RunEnabled(Step(r, ops[0]), ops[1..]))
  }

  function Run(r: Ring, ops: seq<Op>): Ring
    requires RunEnabled(r, ops)
    decreases |ops|
  {
    if ops == [] then r else Run(Step(r, ops[0]), ops[1..])
  }

  /** Over every run pids stay unique and the CPU runs the running thread. */
  lemma {:induction false} RunSound(r: Ring, ops: seq<Op>)
    requires Sound(r) && RunEnabled(r, ops)
    ensures Sound(Run(r, ops))
    decreases |ops|
  {
    if ops != [] {
      StepSound(r, ops[0]);
      RunSound(Step(r, ops[0]), ops[1..]);
    }
  }

  /** The thread is never on the CPU during the run. */
  ghost predicate OffCpu(r: Ring, ops: seq<Op>, p: nat)
    requires RunEnabled(r, ops)
    decreases |ops|
  {
    r.cpu != Some(p) && (ops == [] || OffCpu(Step(r, ops[0]), ops[1..], p))
  }

  /** Over every run, a thread that stays off the CPU stays in the ring and keeps the stack pointer
      it will resume from, whatever other threads do. */
  lemma {:induction false} WaitingThreadKept(r: Ring, ops: seq<Op>, p: nat)
    requires Sound(r) && RunEnabled(r, ops) && p in r.pids && OffCpu(r, ops, p)
    ensures p in Run(r, ops).pids && p in Run(r, ops).rsp && Run(r, ops).rsp[p] == r.rsp[p]
    decreases |ops|
  {
    if ops != [] {
      WaitingStep(r, ops[0], p);
      WaitingThreadKept(Step(r, ops[0]), ops[1..], p);
    }
  }

  lemma WaitingStep(r: Ring, op: Op, p: nat)
    requires Sound(r) && Enabled(r, op) && p in r.pids && r.cpu != Some(p)
    ensures Sound(Step(r, op)) && p in Step(r, op).pids && p in Step(r, op).rsp && Step(r, op).rsp[p] == r.rsp[p]
  {
    StepSound(r, op);
    match op {
      case Push(pid, _) => DistinctPutSecond(r.pids, pid);
      case Reschedule(_) => DistinctRotate(r.pids);
      case Exit(_) => assert r.pids == [r.pids[0]] + r.pids[1..];
    }
    StepSaves(r, op, p);
  }

  /** k reschedules in a row, each with the stack pointer of the thread it takes off the CPU. */
  function Reschedules(r: Ring, sps: seq<nat>): (r': Ring)
    requires |r.pids| > 0
    ensures |r'.pids| == |r.pids|
    decreases |sps|
  {
    if sps == [] then r
    else Step(Reschedules(r, sps[..|sps| - 1]), Reschedule(sps[|sps| - 1]))
  }

  /** r' is r after |sps| reschedules within one round: the ring is rotated by as many places, the
      CPU runs its head, and the threads passed hold the stack pointers they were taken off with. */
  ghost predicate RotatedBy(r: Ring, r': Ring, sps: seq<nat>) {
    && |sps| <= |r.pids| && r'.pids == r.pids[|sps|..] + r.pids[..|sps|]
    && |r.pids| > 0 && r'.cpu == Some(r'.pids[0]) && r'.rsp.Keys == r.rsp.Keys
    && (|r.pids| > 1 ==> forall i | 0 <= i < |r.pids| ::
          && r.pids[i] in r'.rsp && r.pids[i] in r.rsp
          && r'.rsp[r.pids[i]] == if i < |sps| then sps[i] else r.rsp[r.pids[i]])
  }

  lemma {:induction false} Rotated(r: Ring, sps: seq<nat>)
    requires Sound(r) && r.cpu.Some? && |sps| <= |r.pids|
    ensures RotatedBy(r, Reschedules(r, sps), sps) == true
    decreases |sps|
  {
    if sps == [] {
      RotatedNone(r);
    } else {
      var k := |sps| - 1;
      Rotated(r, sps[..k]);
      RotateOnce(r, Reschedules(r, sps[..k]), sps[..k], sps[k]);
      assert sps[..k] + [sps[k]] == sps;
    }
  }

  lemma RotatedNone(r: Ring)
    requires Sound(r) && r.cpu.Some?
    ensures RotatedBy(r, r, [])
  {
    assert forall i | 0 <= i < |r.pids| :: r.pids[i] in r.pids;
  }

  lemma RotateOnce(r: Ring, r1: Ring, sps: seq<nat>, sp: nat)
    requires Sound(r) && RotatedBy(r, r1, sps) == true && |sps| < |r.pids|
    ensures RotatedBy(r, Step(r1, Reschedule(sp)), sps + [sp]) == true
  {
    var k, r2 := |sps|, Step(r1, Reschedule(sp));
    assert r1.pids[0] == r.pids[k];
    OthersDiffer(r.pids, k);
    if |r.pids| > 1 {
      assert Rotate(r1.pids) == r.pids[k + 1..] + r.pids[..k + 1];
      assert r.pids[k] in r1.rsp;
    }
    assert RotatedBy(r, r2, sps + [sp]);
  }

  /** Round robin: n reschedules with no push or exit bring the ring back to where it was, and
      put on the CPU, in ring order, each of the n threads exactly once. */
  lemma RoundRobin(r: Ring, sps: seq<nat>)
    requires Sound(r) && r.cpu.Some? && |sps| == |r.pids|
    ensures Reschedules(r, sps).pids == r.pids
    ensures forall k | 1 <= k <= |sps| :: OnCpuAfter(r, sps, k) == Rotate(r.pids)[k - 1]
    ensures Distinct(Rotate(r.pids)) && multiset(Rotate(r.pids)) == multiset(r.pids)
  {
    Rotated(r, sps);
    forall k | 1 <= k <= |sps| ensures OnCpuAfter(r, sps, k) == Rotate(r.pids)[k - 1] {
      OnCpuIs(r, sps, k);
    }
    RotateKeeps(r.pids);
  }

  lemma OnCpuIs(r: Ring, sps: seq<nat>, k: int)
    requires Sound(r) && r.cpu.Some? && 1 <= k <= |sps| == |r.pids|
    ensures OnCpuAfter(r, sps, k) == Rotate(r.pids)[k - 1]
  {
    Rotated(r, sps[..k]);
  }

  lemma RotateKeeps(s: seq<nat>)
    requires |s| > 0 && Distinct(s)
    ensures Distinct(Rotate(s)) && multiset(Rotate(s)) == multiset(s)
  {
    DistinctRotate(s);
    assert s == [s[0]] + s[1..];
  }

  /** The pid on the CPU after the first k of these reschedules. */
  function OnCpuAfter(r: Ring, sps: seq<nat>, k: int): nat
    requires |r.pids| > 0 && 0 <= k <= |sps|
  {
    match Reschedules(r, sps[..k]).cpu
    case None => 0
    case Some(p) => p
  }

  class Thread {
    const pid: nat
    var rsp: nat
    var next: Thread?
    var prev: Thread?

    constructor (pid: nat, rsp: nat)
      ensures this.pid == pid && this.rsp == rsp && next == null && prev == null
    {
      this.pid, this.rsp, next, prev := pid, rsp, null, null;
    }
  }

  function After(i: int, n: int): int {
    if i + 1 < n then i + 1 else 0
  }

  /** next and prev link the threads into one cycle, in this order. */
  ghost predicate Linked(ts: seq<Thread>)
    reads ts`next, ts`prev
  {
    forall i | 0 <= i < |ts| :: ts[i].next == ts[After(i, |ts|)] && ts[After(i, |ts|)].prev == ts[i]
  }

  ghost predicate Cycle(ts: seq<Thread>)
    reads ts`next, ts`prev
  {
    Distinct(ts) && Linked(ts)
  }

  /** The threads are those of the model, in its order, with the stack pointers it has saved. */
  ghost predicate Mirrors(ts: seq<Thread>, r: Ring)
    reads ts`rsp
  {
    && |ts| == |r.pids|
    && forall i | 0 <= i < |ts| :: ts[i].pid == r.pids[i] && ts[i].pid in r.rsp && r.rsp[ts[i].pid] == ts[i].rsp
  }

  /** The model after a push, given the thread ring after it. */
  lemma PushMirrors(ts: seq<Thread>, t: Thread, r: Ring)
    requires Mirrors(ts, r) == true && t.pid !in r.pids
    ensures Mirrors(PutSecond(ts, t), Step(r, Push(t.pid, t.rsp)))
  {
    assert forall i | 0 <= i < |ts| :: r.pids[i] in r.pids;
  }

  /** The model after a switch: the outgoing stack pointer sits in the thread that was running. */
  lemma SwitchMirrors(ts: seq<Thread>, r: Ring, sp: nat)
    requires |ts| == |r.pids| > 1 && r.cpu.Some? && Distinct(r.pids) && ts[0].pid == r.pids[0] && ts[0].rsp == sp
    requires forall i | 1 <= i < |ts| :: ts[i].pid == r.pids[i] && ts[i].pid in r.rsp && r.rsp[ts[i].pid] == ts[i].rsp
    ensures Mirrors(Rotate(ts), Step(r, Reschedule(sp)))
  {
    forall i | 1 <= i < |ts| ensures r.pids[i] != r.pids[0] {
      assert Differ(r.pids, 0, i);
    }
    assert forall i | 0 <= i < |ts| :: Rotate(ts)[i] == ts[After(i, |ts|)];
  }

  lemma ExitMirrors(ts: seq<Thread>, r: Ring, sp: nat)
    requires Mirrors(ts, r) && |ts| > 1 && Distinct(r.pids)
    ensures Mirrors(ts[1..], Step(r, Exit(sp)))
  {
    DistinctTail(r.pids);
    assert forall i | 0 <= i < |ts| - 1 :: ts[1..][i].pid == r.pids[1..][i];
  }

  class Scheduler {
    var running: Thread?
    var numThreads: int
    var firstThread: bool
    var dispatched: bool
    ghost var onCpu: Thread?
    ghost var ring: seq<Thread>
    ghost var model: Ring

    constructor ()
      ensures Valid() && model == Ring([], None, map[])
    {
      running, numThreads, firstThread, dispatched := null, 0, true, false;
      onCpu, ring, model := null, [], Ring([], None, map[]);
    }

    /** One well-formed cycle of numThreads threads that starts at the running thread, which is
        the thread on the CPU; the model describes it. */
    ghost predicate Valid()
      reads this, ring
    {
      && Cycle(ring) == true && Mirrors(ring, model) == true && Sound(model) == true
      && numThreads == |ring| && (firstThread <==> ring == [])
      && (ring == [] ==> running == null) && (ring != [] ==> running == ring[0])
      && (dispatched <==> onCpu != null) && (onCpu != null ==> onCpu == running)
      && model.cpu == if onCpu == null then None else Some(onCpu.pid)
    }

    /** The ring, the thread on the CPU and the model after a step, once the links and the
        scalar fields are in place. */
    ghost method Settle(ts: seq<Thread>, cpu: Thread?, r: Ring)
      requires Cycle(ts) == true && Mirrors(ts, r) == true && Sound(r) == true
      requires numThreads == |ts| && !firstThread && ts != [] && running == ts[0]
      requires (dispatched <==> cpu != null) && (cpu != null ==> cpu == running)
      requires r.cpu == if cpu == null then None else Some(cpu.pid)
      modifies this`ring, this`onCpu, this`model
      ensures Valid() == true && ring == ts && onCpu == cpu && model == r
    {
      ring, onCpu, model := ts, cpu, r;
    }

    /** insert_thread between two neighbours. */
    method InsertThread(left: Thread, t: Thread, right: Thread)
      requires t != left && t != right
      modifies left`next, right`prev, t`next, t`prev
      ensures left.next == t && right.prev == t && t.next == right && t.prev == left
    {
      left.next := t;
      right.prev := t;
      t.next := right;
      t.prev := left;
    }

    /** push_thread next to the running thread keeps one cycle. */
    method PushNext(t: Thread, ghost ts: seq<Thread>, ghost r: Ring)
      requires Mirrors(ts, r) == true && t.pid !in r.pids
      requires Cycle(ts) == true && ts != [] && t !in ts && running == ts[0]
      modifies ts`next, ts`prev, t`next, t`prev
      ensures Cycle(PutSecond(ts, t)) == true && running.next == t && t.next == old(running.next)
      ensures Mirrors(PutSecond(ts, t), Step(r, Push(t.pid, t.rsp))) == true
    {
      assert running.next == ts[After(0, |ts|)];
      OthersDiffer(ts, 0);
      OthersDiffer(ts, After(0, |ts|));
      InsertThread(running, t, running.next);
      ghost var us := PutSecond(ts, t);
      forall i | 0 <= i < |us| ensures us[i].next == us[After(i, |us|)] && us[After(i, |us|)].prev == us[i] {
        if i >= 2 { assert us[i] == ts[i - 1] && old(ts[i - 1].next == ts[After(i - 1, |ts|)]); }
      }
      DistinctPutSecond(ts, t);
      PushMirrors(ts, t, r);
    }

    /** push_thread into an empty ring. */
    method PushAlone(t: Thread)
      modifies this`running, this`firstThread, t`next, t`prev
      ensures running == t && !firstThread && t.next == t && Cycle([t]) == true
    {
      running := t;
      running.next := running;
      running.prev := running;
      firstThread := false;
      assert Cycle([t]);
    }

    /** push_thread, then the count. */
    method PushAndCount(t: Thread, ghost ts: seq<Thread>, ghost r: Ring)
      requires Mirrors(ts, r) == true && t.pid !in r.pids && Cycle(ts) == true && t !in ts
      requires numThreads == |ts| && (firstThread <==> ts == []) && (ts != [] ==> running == ts[0])
      modifies this`running, this`firstThread, this`numThreads, ts`next, ts`prev, t`next, t`prev
      ensures Cycle(PutSecond(ts, t)) == true && Mirrors(PutSecond(ts, t), Step(r, Push(t.pid, t.rsp))) == true
      ensures !firstThread && numThreads == |PutSecond(ts, t)| && running == PutSecond(ts, t)[0]
      ensures ts != [] ==> running.next == t && t.next == old(running.next)
    {
      if firstThread || numThreads == 0 {
        PushMirrors(ts, t, r);
        PushAlone(t);
      } else {
        PushNext(t, ts, r);
      }
      numThreads := numThreads + 1;
    }

    /** push_thread followed by the count, as the hot_ functions do. */
    method HotPush(t: Thread)
      requires Valid() && t !in ring && t.pid !in model.pids
      modifies this, ring`next, ring`prev, t`next, t`prev
      ensures Valid() == true && model == Step(old(model), Push(t.pid, t.rsp))
      ensures ring == PutSecond(old(ring), t)
      ensures old(ring) == [] ==> running == t
      ensures old(ring) != [] ==> running == old(running) && running.next == t && t.next == old(running.next)
    {
      ghost var ts, r := ring, Step(model, Push(t.pid, t.rsp));
      StepSound(model, Push(t.pid, t.rsp));
      PushAndCount(t, ts, model);
      Settle(PutSecond(ts, t), onCpu, r);
    }

    /** reschedule; rspNow is the stack pointer of the context it is called in. Its first call
        dispatches the running thread; later ones save into the thread that was running and
        resume the next, or change nothing if there is only one. resume is the saved pointer that
        switch_thread goes on from, if it is called. */
    method Reschedule(rspNow: nat) returns (resume: Option<nat>)
      requires Valid() && ring != []
      modifies this, ring`rsp
      ensures Valid() == true && model == Step(old(model), Op.Reschedule(rspNow))
      ensures ring == if old(dispatched) then Rotate(old(ring)) else old(ring)
      ensures onCpu == running == if old(dispatched) then old(running.next) else old(running)
      ensures forall i | 0 <= i < |old(ring)| ::
        old(ring)[i].rsp == if i == 0 && old(dispatched) && |old(ring)| > 1 then rspNow else old(ring[i].rsp)
      ensures resume ==
        if !old(dispatched) then Some(old(running.rsp)) else if |old(ring)| > 1 then Some(old(running.next.rsp)) else None
    {
      if !dispatched {
        resume := Dispatch(rspNow);
      } else {
        resume := MoveOn(rspNow);
      }
    }

    /** The first call: what it saves goes to a variable that is thrown away. */
    method Dispatch(rspNow: nat) returns (resume: Option<nat>)
      requires Valid() && ring != [] && !dispatched
      modifies this
      ensures Valid() == true && model == Step(old(model), Op.Reschedule(rspNow))
      ensures ring == old(ring) && onCpu == running == old(running) && resume == Some(running.rsp)
    {
      ghost var ts, r := ring, Step(model, Op.Reschedule(rspNow));
      StepSound(model, Op.Reschedule(rspNow));
      dispatched := true;
      Settle(ts, running, r);
      return Some(running.rsp);
    }

    method MoveOn(rspNow: nat) returns (resume: Option<nat>)
      requires Valid() && ring != [] && dispatched
      modifies this, ring`rsp
      ensures Valid() == true && model == Step(old(model), Op.Reschedule(rspNow))
      ensures ring == Rotate(old(ring)) && onCpu == running == old(running.next)
      ensures forall i | 0 <= i < |old(ring)| ::
        old(ring)[i].rsp == if i == 0 && |old(ring)| > 1 then rspNow else old(ring[i].rsp)
      ensures resume == if |old(ring)| > 1 then Some(old(running.next.rsp)) else None
    {
      ghost var ts, r := ring, Step(model, Op.Reschedule(rspNow));
      StepSound(model, Op.Reschedule(rspNow));
      assert running.next == ring[After(0, |ring|)];
      assert ring[After(0, |ring|)].prev == ring[0];
      running := running.next;
      var next := running;
      if next.pid == next.prev.pid {
        assert Differ(model.pids, 0, 1);
        return None;
      }
      OthersDiffer(ts, 0);
      resume := Some(running.rsp);
      SwitchThread(running.prev, rspNow, ts, model);
      Settle(Rotate(ts), running, r);
    }

    /** switch_thread saves the stack pointer in the thread that was running. */
    method SwitchThread(from: Thread, rspNow: nat, ghost ts: seq<Thread>, ghost r: Ring)
      requires Cycle(ts) == true && Mirrors(ts, r) == true && Sound(r) && r.cpu.Some?
      requires |ts| > 1 && from == ts[0]
      modifies from`rsp
      ensures from.rsp == rspNow
      ensures Cycle(Rotate(ts)) == true && Mirrors(Rotate(ts), Step(r, Op.Reschedule(rspNow))) == true
    {
      assert from.pid == r.pids[0];
      OthersDiffer(r.pids, 0);
      RotateLinked(ts);
      from.rsp := rspNow;
      SwitchMirrors(ts, r, rspNow);
    }

    /** discard_thread: stitches the neighbours of the first thread together. */
    method DiscardThread(t: Thread, ghost ts: seq<Thread>)
      requires Cycle(ts) == true && |ts| > 0 && t == ts[0]
      modifies ts`next, ts`prev
      ensures |ts| > 1 ==> Cycle(ts[1..]) == true && t !in ts[1..]
    {
      ghost var n := |ts|;
      assert t.next == ts[After(0, n)];
      assert ts[n - 1].next == ts[After(n - 1, n)] && ts[After(n - 1, n)].prev == ts[n - 1];
      OthersDiffer(ts, n - 1);
      OthersDiffer(ts, After(0, n));
      t.prev.next := t.next;
      t.next.prev := t.prev;
      if n > 1 {
        DistinctTail(ts);
        ghost var us := ts[1..];
        forall i | 0 <= i < |us| ensures us[i].next == us[After(i, |us|)] && us[After(i, |us|)].prev == us[i] {
          assert us[i] == ts[i + 1] && old(ts[i + 1].next == ts[After(i + 1, n)] && ts[After(i + 1, n)].prev == ts[i + 1]);
        }
      }
    }

    /** A discarded thread no longer points into the ring. */
    method ClearNext(temp: Thread, ghost ts: seq<Thread>)
      requires Cycle(ts) == true && temp !in ts
      modifies temp`next
      ensures temp.next == null && Cycle(ts) == true
    {
      temp.next := null;
    }

    /** The fallback of scheduler_return once the last thread is gone. */
    method KillAndSwitchToIdle(idleRsp: nat, ghost r: Ring)
      requires numThreads == 0 && dispatched && r == Ring([IDLE_PID], Some(IDLE_PID), map[IDLE_PID := idleRsp])
      requires Sound(r) == true
      modifies this
      ensures Valid() == true && model == r && fresh(ring)
      ensures |ring| == 1 && ring[0].pid == 0xDEADBEEFCAFEBABE && ring[0].rsp == idleRsp
    {
      var idle := new Thread(IDLE_PID, idleRsp);
      PushAlone(idle);
      numThreads := numThreads + 1;
      assert Mirrors([idle], r);
      Settle([idle], running.next, r);
    }

    /** scheduler_return with another thread to go on with. */
    method ExitToNext(temp: Thread, next: Thread, ghost ts: seq<Thread>, ghost r: Ring)
      requires Cycle(ts) == true && |ts| > 1 && temp == ts[0] && next == ts[1] == running
      requires numThreads == |ts| && !firstThread && dispatched
      requires Mirrors(ts[1..], r) == true && Sound(r) == true && r.cpu == Some(next.pid)
      modifies this`numThreads, this`ring, this`onCpu, this`model, ts`next, ts`prev
      ensures Valid() == true && model == r && ring == ts[1..] && temp.next == null && temp !in ring
    {
      DiscardThread(temp, ts);
      numThreads := numThreads - 1;
      ClearNext(temp, ts[1..]);
      Settle(ts[1..], next, r);
    }

    /** scheduler_return of the last thread. */
    method ExitToIdle(temp: Thread, idleRsp: nat, ghost ts: seq<Thread>, ghost r: Ring)
      requires Cycle(ts) == true && ts == [temp] && numThreads == 1 && dispatched
      requires r == Ring([IDLE_PID], Some(IDLE_PID), map[IDLE_PID := idleRsp]) && Sound(r) == true
      modifies this, ts`next, ts`prev
      ensures Valid() == true && model == r && temp !in ring
      ensures |ring| == 1 && ring[0].pid == 0xDEADBEEFCAFEBABE && ring[0].rsp == idleRsp
    {
      DiscardThread(temp, ts);
      numThreads := numThreads - 1;
      KillAndSwitchToIdle(idleRsp, r);
    }

    /** scheduler_return: the running thread leaves the ring for good and the next one gets the
        CPU and goes on from the pointer it has saved; if there is no other, a fresh idle thread does. */
    method SchedulerReturn(idleRsp: nat) returns (resume: nat)
      requires Valid() && onCpu != null
      modifies this, ring`next, ring`prev
      ensures Valid() == true && model == Step(old(model), Exit(idleRsp))
      ensures old(running) !in ring && (|old(ring)| > 1 ==> ring == old(ring)[1..] && old(running).next == null)
      ensures |old(ring)| == 1 ==> |ring| == 1 && ring[0].pid == 0xDEADBEEFCAFEBABE && ring[0].rsp == idleRsp
      ensures onCpu == running && resume == running.rsp && (|old(ring)| > 1 ==> running == old(running.next))
    {
      ghost var ts, r := ring, Step(model, Exit(idleRsp));
      StepSound(model, Exit(idleRsp));
      assert running.next == ring[After(0, |ring|)];
      var temp := running;
      running := running.next;
      var next := running;
      if next.pid == temp.pid {
        assert Differ(model.pids, 0, 1);
        assert ts == [temp];
        ExitToIdle(temp, idleRsp, ts, r);
      } else {
        ExitMirrors(ts, model, idleRsp);
        ExitToNext(temp, next, ts, r);
      }
      return running.rsp;
    }

    /** get_thread_by_pid: a thread of the ring with that pid, or null exactly if there is none. */
    method GetThreadByPid(pid: nat) returns (t: Thread?)
      requires Valid() && ring != []
      ensures t != null ==> t in ring && t.pid == pid
      ensures t == null <==> pid !in model.pids
    {
      var current := running;
      var i := 0;
      ghost var at := 0;
      while i < numThreads + 1
        invariant 0 <= i <= numThreads + 1 && 0 <= at < |ring| && current == ring[at] && (i < |ring| ==> at == i)
        invariant forall k | 0 <= k < i && k < |ring| :: ring[k].pid != pid
      {
        if current.pid == pid {
          return current;
        }
        assert ring[at].next == ring[After(at, |ring|)];
        current := current.next;
        at := After(at, |ring|);
        i := i + 1;
      }
      return null;
    }
  }

  lemma RotateLinked(ts: seq<Thread>)
    requires ts != [] && Cycle(ts) == true
    ensures Cycle(Rotate(ts)) == true
  {
    var us := Rotate(ts);
    forall i | 0 <= i < |us| ensures us[i].next == us[After(i, |us|)] && us[After(i, |us|)].prev == us[i] {
      assert us[i] == ts[After(i, |ts|)];
      assert ts[After(i, |ts|)].next == ts[After(After(i, |ts|), |ts|)];
    }
    DistinctRotate(ts);
  }
}
