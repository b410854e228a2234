/**
 `sched.c` in place: the task table, the ring and the free list threaded through it. Each
 routine is proved against the event of `SchedModel` that it performs.
 */
module Scheduler {
  import opened Links
  import M = SchedModel

  class Scheduler {
    const links: Links
    var blocked: seq<bool>
    var quantum: seq<nat>
    var rem: seq<nat>
    var taskList: int
    var freeTasks: int
    ghost var ring: seq<int>
    ghost var free: seq<int>

    ghost function State(): M.Sched
      reads this
    {
      M.Sched(ring, free, blocked, rem)
    }

    ghost predicate Valid()
      reads this, links.next, links.prev
    {
      && links.Valid() && links.next.Length == M.MAX_PID
      && links.Is(taskList, ring) && links.Is(freeTasks, free)
      && |blocked| == M.MAX_PID && |quantum| == M.MAX_PID && |rem| == M.MAX_PID
      && Disjoint(free, ring)
      && (forall p :: p in ring && 0 <= p < |quantum| ==> quantum[p] == M.DEFAULT_QUANTUM)
    }

    /** `sched_init`: all tasks free, in order, and an empty ring. */
    constructor ()
      ensures Valid() && fresh(links.next) && fresh(links.prev)
      ensures ring == [] && free == seq(M.MAX_PID, i => i)
      ensures blocked == seq(M.MAX_PID, _ => false) && rem == seq(M.MAX_PID, _ => 0)
    {
      var l := new Links(M.MAX_PID);
      links := l;
      blocked := seq(M.MAX_PID, _ => false);
      quantum := seq(M.MAX_PID, _ => 0);
      rem := seq(M.MAX_PID, _ => 0);
      taskList := NIL;
      freeTasks := NIL;
      ring := [];
      free := seq(M.MAX_PID, i => i);
      new;
      freeTasks := links.AllNodes();
    }

    method SchedLoad()
      requires Valid() && free != []
      modifies this, links.next, links.prev
      ensures Valid() && State() == M.SchedLoad(old(State()))
    {
      var task;
      freeTasks, taskList, task := links.Transfer(freeTasks, taskList, free, ring);
      blocked := blocked[task := false];
      quantum := quantum[task := M.DEFAULT_QUANTUM];
      rem := rem[task := quantum[task]];
      ring, free := ring + [task], free[1..];
    }

    method SchedUnblock(p: int)
      requires Valid() && 0 <= p < M.MAX_PID
      modifies this`blocked
      ensures Valid() && State() == M.SchedUnblock(old(State()), p)
    {
      blocked := blocked[p := false];
    }

    /** `next_executable_task` from the head; some task of the ring must be able to run. */
    method NextExecutableTask() returns (candidate: int, ghost k: nat)
      requires Valid() && exists i :: 0 <= i < |ring| && !blocked[ring[i]]
      ensures k == M.NextIndex(State()) && candidate == ring[k]
    {
      k := if |ring| == 1 then 0 else 1;
      NeighboursOnList(links.next[..], links.prev[..], taskList, ring, 0);
      candidate := links.next[taskList];
      ghost var j: nat := 1;
      while blocked[candidate]
        invariant 1 <= j <= |ring|
        invariant k == (if j < |ring| then j else 0) && candidate == ring[k]
        invariant M.FirstUnblocked(ring, blocked, 1) == M.FirstUnblocked(ring, blocked, j)
        decreases |ring| - j
      {
        if j == |ring| {
          NoneRuns();
        }
        NeighboursOnList(links.next[..], links.prev[..], taskList, ring, k);
        candidate := links.next[candidate];
        j := j + 1;
        k := if j < |ring| then j else 0;
      }
    }

    /** A search that came back to a blocked head has passed over every task. */
    lemma NoneRuns()
      requires Valid() && ring != [] && M.FirstUnblocked(ring, blocked, 1) == |ring| && blocked[ring[0]]
      ensures forall i :: 0 <= i < |ring| ==> blocked[ring[i]]
    {
    }

    method SchedExit() returns (nextPid: int)
      requires Valid() && exists i :: 0 <= i < |ring| && !blocked[ring[i]]
      modifies this, links.next, links.prev
      ensures Valid() && State() == M.SchedExit(old(State())) && nextPid == M.ExitNext(old(State()))
      ensures nextPid == old(ring)[M.NextIndex(old(State()))]
    {
      ghost var k;
      nextPid, k := NextExecutableTask();
      var task;
      taskList, freeTasks, task := links.Transfer(taskList, freeTasks, ring, free);
      ring, free := ring[1..], free + [task];
    }

    /** Moves the head of the ring to its position `k`. */
    ghost method RotateRing(k: nat)
      requires Valid() && k < |ring| && taskList == ring[0]
      modifies this`ring
      ensures State() == old(State()).(ring := M.Rotated(old(ring), k))
      ensures links.Is(ring[0], ring) && ring[0] == old(ring[k])
      ensures forall p :: p in ring <==> p in old(ring)
    {
      Rotate(links.next[..], links.prev[..], ring, k);
      M.RotatedSame(ring, k);
      ring := M.Rotated(ring, k);
    }

    /** `task_list = next_executable_task(task_list)`. */
    method AdvanceHead() returns (pid: int)
      requires Valid() && exists i :: 0 <= i < |ring| && !blocked[ring[i]]
      modifies this`ring, this`taskList
      ensures Valid() && State() == old(State()).(ring := M.Rotated(old(ring), M.NextIndex(old(State()))))
      ensures pid == old(ring)[M.NextIndex(old(State()))] == ring[0]
    {
      ghost var k;
      pid, k := NextExecutableTask();
      RotateRing(k);
      taskList := pid;
    }

    method SchedBlock() returns (nextPid: int)
      requires Valid() && exists i :: 0 <= i < |ring| && !blocked[ring[i]]
      modifies this
      ensures Valid() && State() == M.SchedBlock(old(State()))
      ensures nextPid == old(ring)[M.NextIndex(old(State()))] == ring[0]
    {
      var task := taskList;
      nextPid := AdvanceHead();
      blocked := blocked[task := true];
    }

    method RestartQuantum(p: int)
      requires Valid() && p in ring && 0 <= p < M.MAX_PID
      modifies this`rem
      ensures Valid() && State() == old(State()).(rem := old(rem)[p := M.DEFAULT_QUANTUM])
    {
      rem := rem[p := quantum[p]];
    }

    method SchedTick() returns (pid: int)
      requires Valid() && exists i :: 0 <= i < |ring| && !blocked[ring[i]]
      requires rem[ring[0]] > 0
      modifies this
      ensures Valid() && State() == M.SchedTick(old(State())) && pid == ring[0]
    {
      pid := taskList;
      assert pid == ring[0] && pid in ring;
      rem := rem[pid := rem[pid] - 1];
      if rem[pid] == 0 {
        RestartQuantum(pid);
        assert M.NextIndex(State()) == M.NextIndex(old(State()));
        pid := AdvanceHead();
      }
    }
  }
}
