/**
 The round-robin scheduler on values: the ring of tasks read from its head, the free
 tasks, and per task whether it is blocked and how many ticks it has left.
 */
module SchedModel {

  const MAX_PID: nat := 32
  const DEFAULT_QUANTUM: nat := 20

  datatype Sched = Sched(ring: seq<int>, free: seq<int>, blocked: seq<bool>, rem: seq<nat>)

  ghost predicate Pids(s: seq<int>) {
    && (forall i :: 0 <= i < |s| ==> 0 <= s[i] < MAX_PID)
    && (forall i, j :: 0 <= i < j < |s| ==> s[i] != s[j])
  }

  /** Every task is on the ring or free, idle can always run, and nobody is out of quantum. */
  ghost predicate SInv(s: Sched) {
    && |s.blocked| == MAX_PID && |s.rem| == MAX_PID
    && Pids(s.ring + s.free)
    && (forall p :: 0 <= p < MAX_PID ==> p in s.ring || p in s.free)
    && 0 in s.ring && !s.blocked[0]
    && (forall p :: p in s.ring ==> 0 <= p < MAX_PID && 1 <= s.rem[p] <= DEFAULT_QUANTUM)
  }

  ghost predicate Runnable(s: Sched, p: int) {
    p in s.ring && 0 <= p < |s.blocked| && !s.blocked[p]
  }

  function Rotated(r: seq<int>, k: nat): seq<int>
    requires k <= |r|
  {
    r[k..] + r[..k]
  }

  /** Position of the first task from `k` up that is not blocked, or the end of the list. */
  function FirstUnblocked(r: seq<int>, blocked: seq<bool>, k: nat): (i: nat)
    requires k <= |r| && forall j :: 0 <= j < |r| ==> 0 <= r[j] < |blocked|
    ensures k <= i <= |r|
    ensures i < |r| ==> !blocked[r[i]]
    ensures forall j :: k <= j < i ==> blocked[r[j]]
    decreases |r| - k
  {
    if k == |r| || !blocked[r[k]] then k else FirstUnblocked(r, blocked, k + 1)
  }

  /** `next_executable_task(task_list)`: the position, on the ring, where the search stops. */
  function NextIndex(s: Sched): (k: nat)
    requires s.ring != [] && forall j :: 0 <= j < |s.ring| ==> 0 <= s.ring[j] < |s.blocked|
    ensures k < |s.ring|
    ensures 0 < k ==> !s.blocked[s.ring[k]]
    ensures forall j :: 0 < j < (if k == 0 then |s.ring| else k) ==> s.blocked[s.ring[j]]
  {
    var k := FirstUnblocked(s.ring, s.blocked, 1);
    if k == |s.ring| then 0 else k
  }

  ghost predicate Ready(s: Sched) {
    && s.ring != [] && |s.blocked| == |s.rem|
    && (forall j :: 0 <= j < |s.ring| ==> 0 <= s.ring[j] < |s.blocked|)
    && (forall j :: 0 <= j < |s.free| ==> 0 <= s.free[j] < |s.blocked|)
  }

  // ---- the five events ---------------------------------------------------------------------

  function SchedLoad(s: Sched): Sched
    requires s.free != [] && 0 <= s.free[0] < |s.blocked| == |s.rem|
  {
    var t := s.free[0];
    Sched(s.ring + [t], s.free[1..], s.blocked[t := false], s.rem[t := DEFAULT_QUANTUM])
  }

  function SchedUnblock(s: Sched, p: int): Sched
    requires 0 <= p < |s.blocked|
  {
    s.(blocked := s.blocked[p := false])
  }

  /** The head is blocked and the next executable task becomes the head. */
  function SchedBlock(s: Sched): Sched
    requires Ready(s)
  {
    s.(ring := Rotated(s.ring, NextIndex(s)), blocked := s.blocked[s.ring[0] := true])
  }

  /** The head leaves the ring; its successor becomes the head, whatever its state. */
  function SchedExit(s: Sched): Sched
    requires Ready(s)
  {
    s.(ring := s.ring[1..], free := s.free + [s.ring[0]])
  }

  /** The pid that `sched_exit` returns. */
  function ExitNext(s: Sched): int
    requires Ready(s)
  {
    s.ring[NextIndex(s)]
  }

  function SchedTick(s: Sched): Sched
    requires Ready(s)
  {
    var head := s.ring[0];
    if s.rem[head] == 1
    then s.(rem := s.rem[head := DEFAULT_QUANTUM], ring := Rotated(s.ring, NextIndex(s)))
    else if s.rem[head] == 0 then s
    else s.(rem := s.rem[head := s.rem[head] - 1])
  }

  // ---- the invariant --------------------------------------------------------------------------

  lemma InvReady(s: Sched)
    requires SInv(s)
    ensures Ready(s)
    ensures forall i :: 0 <= i < |s.ring| ==> (s.ring + s.free)[i] == s.ring[i]
    ensures forall i :: 0 <= i < |s.free| ==> (s.ring + s.free)[|s.ring| + i] == s.free[i]
  {
    assert forall i :: 0 <= i < |s.ring| ==> (s.ring + s.free)[i] == s.ring[i];
    assert forall i :: 0 <= i < |s.free| ==> (s.ring + s.free)[|s.ring| + i] == s.free[i];
  }

  /** The search always ends on a task that can run, and passes only over blocked ones. */
  lemma NextIsRunnable(s: Sched)
    requires SInv(s)
    ensures Ready(s) && Runnable(s, s.ring[NextIndex(s)])
    ensures s.ring[0] != 0 ==> NextIndex(s) > 0
  {
    InvReady(s);
    var i :| 0 <= i < |s.ring| && s.ring[i] == 0;
    assert !s.blocked[s.ring[i]];
  }

  lemma RotatedSame(r: seq<int>, k: nat)
    requires k <= |r|
    ensures forall p :: p in Rotated(r, k) <==> p in r
    ensures |Rotated(r, k)| == |r|
  {
    forall p ensures p in Rotated(r, k) <==> p in r {
      if p in r {
        var i :| 0 <= i < |r| && r[i] == p;
        assert Rotated(r, k)[if i < k then |r| - k + i else i - k] == p;
      }
    }
  }

  lemma RotatedPids(r: seq<int>, f: seq<int>, k: nat)
    requires Pids(r + f) && k <= |r|
    ensures Pids(Rotated(r, k) + f)
  {
    var t := Rotated(r, k) + f;
    forall i | 0 <= i < |t| ensures t[i] == (r + f)[if i < |r| - k then i + k else if i < |r| then i + k - |r| else i] {
    }
  }

  lemma LoadInv(s: Sched)
    requires SInv(s) && s.free != []
    ensures Ready(s) && SInv(SchedLoad(s))
  {
    InvReady(s);
    var t := SchedLoad(s);
    assert t.ring + t.free == s.ring + s.free;
    assert s.free == [s.free[0]] + s.free[1..];
    assert s.free[0] !in s.ring;
  }

  lemma UnblockInv(s: Sched, p: int)
    requires SInv(s) && 0 <= p < MAX_PID
    ensures SInv(SchedUnblock(s, p))
  {
  }

  lemma BlockInv(s: Sched)
    requires SInv(s) && s.ring[0] != 0
    ensures Ready(s) && SInv(SchedBlock(s))
    ensures Runnable(SchedBlock(s), SchedBlock(s).ring[0])
  {
    NextIsRunnable(s);
    var k := NextIndex(s);
    RotatedSame(s.ring, k);
    RotatedPids(s.ring, s.free, k);
    InvReady(s);
    assert s.ring[k] != s.ring[0];
  }

  lemma ExitInv(s: Sched)
    requires SInv(s) && s.ring[0] != 0
    ensures Ready(s) && SInv(SchedExit(s))
    ensures Runnable(SchedExit(s), ExitNext(s))
  {
    NextIsRunnable(s);
    InvReady(s);
    var t := SchedExit(s);
    RotatedPids(s.ring, s.free, 1);
    var a, b := t.ring + t.free, s.ring + s.free;
    assert s.ring == [s.ring[0]] + t.ring;
    forall i | 0 <= i < |a| ensures a[i] == b[if i < |t.ring| then i + 1 else if i + 1 < |a| then i + 1 else 0] {
    }
  }

  lemma TickInv(s: Sched)
    requires SInv(s)
    ensures Ready(s) && SInv(SchedTick(s))
    ensures Runnable(s, s.ring[0]) ==> Runnable(SchedTick(s), SchedTick(s).ring[0])
  {
    NextIsRunnable(s);
    InvReady(s);
    var head := s.ring[0];
    var u := s.(rem := s.rem[head := if s.rem[head] == 1 then DEFAULT_QUANTUM else s.rem[head] - 1]);
    if s.rem[head] == 1 {
      RotateInv(u, NextIndex(s));
    }
  }

  lemma RotateInv(s: Sched, k: nat)
    requires SInv(s) && k < |s.ring|
    ensures SInv(s.(ring := Rotated(s.ring, k)))
  {
    RotatedSame(s.ring, k);
    RotatedPids(s.ring, s.free, k);
  }
}
