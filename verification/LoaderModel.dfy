/**
 The loader's side of processes on values: free PCBs, zombies, the running PCB and the
 wait queues, next to the scheduler. The two modules never pass each other a pid when a
 task is created; they must agree by keeping their free lists in the same order.
 */
module LoaderModel {
  import opened SchedModel

  datatype Kernel = Kernel(
    s: Sched,
    pcbs: seq<int>,
    zombies: seq<int>,
    current: int,
    queues: seq<seq<int>>)

  // ---- events ------------------------------------------------------------------------------

  ghost predicate KReady(k: Kernel) {
    Ready(k.s)
  }

  /** The PCB that `loader_load`, `loader_load_main` or `loader_fork` takes and returns the pid of. */
  function NewPid(k: Kernel): int
    requires k.pcbs != []
  {
    k.pcbs[0]
  }

  /** The task that `sched_load` takes for it. */
  function NewTask(k: Kernel): int
    requires k.s.free != []
  {
    k.s.free[0]
  }

  function Create(k: Kernel): Kernel
    requires k.pcbs != [] && k.s.free != [] && KReady(k)
  {
    k.(s := SchedLoad(k.s), pcbs := k.pcbs[1..])
  }

  /** `loader_enqueue`: the running PCB joins a wait queue and the next task runs. */
  function Enqueue(k: Kernel, q: nat): Kernel
    requires KReady(k) && q < |k.queues|
  {
    var s := SchedBlock(k.s);
    k.(queues := k.queues[q := k.queues[q] + [k.current]], s := s, current := k.s.ring[NextIndex(k.s)])
  }

  /** `loader_unqueue`: the first of the queue is woken. */
  function Unqueue(k: Kernel, q: nat): Kernel
    requires q < |k.queues|
    requires k.queues[q] != [] ==> 0 <= k.queues[q][0] < |k.s.blocked|
  {
    if k.queues[q] == [] then k
    else k.(s := SchedUnblock(k.s, k.queues[q][0]), queues := k.queues[q := k.queues[q][1..]])
  }

  /** `loader_exit`, up to the switch to the pid that `sched_exit` returns. */
  function Exit(k: Kernel): Kernel
    requires KReady(k)
  {
    k.(s := SchedExit(k.s), zombies := k.zombies + [k.current], current := ExitNext(k.s))
  }

  /** `timer_isr`: the tick, and the switch to the pid it returns. */
  function Tick(k: Kernel): Kernel
    requires KReady(k)
  {
    var s := SchedTick(k.s);
    k.(s := s, current := if s.ring == [] then k.current else s.ring[0])
  }

  /** `kill_zoombies`, at the end of a switch to a task that has run before. */
  function Reap(k: Kernel): Kernel {
    k.(pcbs := k.pcbs + k.zombies, zombies := [])
  }

  /** `loader_unqueue_all`: the whole queue is woken, first come first. */
  function UnqueueAll(k: Kernel, q: nat): (t: Kernel)
    requires q < |k.queues|
    requires forall i :: 0 <= i < |k.queues[q]| ==> 0 <= k.queues[q][i] < |k.s.blocked|
    decreases |k.queues[q]|
  {
    if k.queues[q] == [] then k else UnqueueAll(Unqueue(k, q), q)
  }

  /** Nobody is left in the queue, and the others are as they were. */
  lemma {:induction false} UnqueueAllEmpties(k: Kernel, q: nat)
    requires q < |k.queues|
    requires forall i :: 0 <= i < |k.queues[q]| ==> 0 <= k.queues[q][i] < |k.s.blocked|
    ensures UnqueueAll(k, q).queues == k.queues[q := []]
    decreases |k.queues[q]|
  {
    if k.queues[q] != [] {
      UnqueueAllEmpties(Unqueue(k, q), q);
    }
  }

  // ---- invariant -----------------------------------------------------------------------------

  /** `p` waits in queue `q`. */
  ghost predicate WaitsIn(k: Kernel, p: int, q: nat) {
    q < |k.queues| && p in k.queues[q]
  }

  ghost predicate QueuesOk(k: Kernel) {
    && (forall q :: 0 <= q < |k.queues| ==>
         forall i, j :: 0 <= i < j < |k.queues[q]| ==> k.queues[q][i] != k.queues[q][j])
    && (forall q: nat, r: nat, p :: WaitsIn(k, p, q) && WaitsIn(k, p, r) ==> q == r)
    && (forall q: nat, p :: WaitsIn(k, p, q) ==> p in k.s.ring && p != k.current)
  }

  /** A task is blocked exactly when it waits in a queue. */
  ghost predicate BlockedOk(k: Kernel) {
    forall p :: p in k.s.ring && 0 <= p < |k.s.blocked| ==> (k.s.blocked[p] <==> exists q: nat :: WaitsIn(k, p, q))
  }

  /** Both modules would hand out the same pids, in the same order. */
  ghost predicate PidsAgree(k: Kernel) {
    k.s.free == k.pcbs + k.zombies
  }

  ghost predicate KInv(k: Kernel) {
    && SInv(k.s)
    && PidsAgree(k)
    && k.s.ring[0] == k.current
    && QueuesOk(k)
    && BlockedOk(k)
  }

  /** The task that runs is not blocked, and is on no list. */
  lemma CurrentRuns(k: Kernel)
    requires KInv(k)
    ensures Runnable(k.s, k.current)
    ensures k.current !in k.pcbs && k.current !in k.zombies && forall q: nat :: !WaitsIn(k, k.current, q)
  {
    InvReady(k.s);
    assert k.s.ring[0] in k.s.ring;
    FreeNotOnRing(k.s, k.current);
    assert forall p :: p in k.pcbs + k.zombies <==> p in k.pcbs || p in k.zombies;
  }

  /** The free tasks are distinct, and none of them is on the ring. */
  lemma FreeDistinct(s: Sched)
    requires SInv(s)
    ensures forall i, j :: 0 <= i < j < |s.free| ==> s.free[i] != s.free[j]
    ensures forall i, j :: 0 <= i < |s.ring| && 0 <= j < |s.free| ==> s.ring[i] != s.free[j]
    ensures forall i, j :: 0 <= i < j < |s.ring| ==> s.ring[i] != s.ring[j]
  {
    var a := s.ring + s.free;
    InvReady(s);
    forall i, j | 0 <= i < |a| && 0 <= j < |a| && i != j ensures a[i] != a[j] {
      if j < i {
        assert a[j] != a[i];
      }
    }
  }

  lemma FreeNotOnRing(s: Sched, p: int)
    requires SInv(s) && p in s.ring
    ensures p !in s.free
  {
    FreeDistinct(s);
  }

  /** Each PCB is in at most one place: free, zombie, waiting in one queue, or running. */
  lemma OnePlace(k: Kernel, p: int)
    requires KInv(k)
    ensures !(p in k.pcbs && p in k.zombies)
    ensures p in k.pcbs || p in k.zombies ==> p != k.current && forall q: nat :: !WaitsIn(k, p, q)
  {
    CurrentRuns(k);
    FreeDistinct(k.s);
    assert forall i :: 0 <= i < |k.pcbs| ==> k.s.free[i] == k.pcbs[i];
    assert forall j :: 0 <= j < |k.zombies| ==> k.s.free[|k.pcbs| + j] == k.zombies[j];
  }

  // ---- what each event keeps -----------------------------------------------------------------

  /** Both modules take the same pid for a new process. */
  lemma CreateInv(k: Kernel)
    requires KInv(k) && k.pcbs != []
    ensures KReady(k) && k.s.free != [] && NewPid(k) == NewTask(k)
    ensures KInv(Create(k))
    ensures NewPid(k) !in k.s.ring && Runnable(Create(k).s, NewPid(k))
  {
    InvReady(k.s);
    LoadInv(k.s);
    FreeDistinct(k.s);
    OnePlace(k, NewPid(k));
    assert k.s.free[0] == k.pcbs[0];
    var t := Create(k);
    assert k.s.free[1..] == k.pcbs[1..] + k.zombies;
    assert forall q: nat, p :: WaitsIn(t, p, q) <==> WaitsIn(k, p, q);
  }

  /** A task that can run waits nowhere. */
  lemma RunnableWaitsNowhere(k: Kernel, p: int)
    requires KInv(k) && Runnable(k.s, p)
    ensures forall q: nat :: !WaitsIn(k, p, q)
  {
  }

  lemma EnqueueInv(k: Kernel, q: nat)
    requires KInv(k) && q < |k.queues| && k.current != 0
    ensures KReady(k) && KInv(Enqueue(k, q))
  {
    InvReady(k.s);
    BlockInv(k.s);
    NextIsRunnable(k.s);
    EnqueuedWaits(k, q);
    EnqueuedQueues(k, q);
    EnqueuedBlocked(k, q);
  }

  lemma EnqueuedWaits(k: Kernel, q: nat)
    requires KReady(k) && q < |k.queues|
    ensures forall r: nat, p :: WaitsIn(Enqueue(k, q), p, r) <==> WaitsIn(k, p, r) || (p == k.current && r == q)
  {
  }

  lemma EnqueuedQueues(k: Kernel, q: nat)
    requires KInv(k) && q < |k.queues| && k.current != 0 && KReady(k)
    requires Runnable(k.s, k.s.ring[NextIndex(k.s)]) && NextIndex(k.s) > 0
    requires forall r: nat, p :: WaitsIn(Enqueue(k, q), p, r) <==> WaitsIn(k, p, r) || (p == k.current && r == q)
    ensures QueuesOk(Enqueue(k, q))
  {
    var t := Enqueue(k, q);
    CurrentRuns(k);
    FreeDistinct(k.s);
    RotatedSame(k.s.ring, NextIndex(k.s));
    RunnableWaitsNowhere(k, t.current);
    forall r | 0 <= r < |t.queues| ensures
      forall i, j :: 0 <= i < j < |t.queues[r]| ==> t.queues[r][i] != t.queues[r][j]
    {
      if r == q {
        assert !WaitsIn(k, k.current, q);
      }
    }
  }

  lemma EnqueuedBlocked(k: Kernel, q: nat)
    requires KInv(k) && q < |k.queues| && k.current != 0 && KReady(k)
    requires forall r: nat, p :: WaitsIn(Enqueue(k, q), p, r) <==> WaitsIn(k, p, r) || (p == k.current && r == q)
    ensures BlockedOk(Enqueue(k, q))
  {
    var t := Enqueue(k, q);
    RotatedSame(k.s.ring, NextIndex(k.s));
    forall p | p in t.s.ring && 0 <= p < |t.s.blocked|
      ensures t.s.blocked[p] <==> exists r: nat :: WaitsIn(t, p, r)
    {
      if p == k.current {
        assert WaitsIn(t, p, q);
      } else if k.s.blocked[p] {
        var r: nat :| WaitsIn(k, p, r);
        assert WaitsIn(t, p, r);
      }
    }
  }

  lemma UnqueueInv(k: Kernel, q: nat)
    requires KInv(k) && q < |k.queues|
    ensures k.queues[q] != [] ==> 0 <= k.queues[q][0] < |k.s.blocked|
    ensures KInv(Unqueue(k, q))
  {
    if k.queues[q] != [] {
      var w := k.queues[q][0];
      assert WaitsIn(k, w, q);
      var t := Unqueue(k, q);
      UnblockInv(k.s, w);
      assert k.queues[q] == [w] + k.queues[q][1..];
      forall r: nat, p ensures WaitsIn(t, p, r) <==> WaitsIn(k, p, r) && p != w {
        assert WaitsIn(k, w, r) ==> r == q;
      }
      forall p | p in t.s.ring && 0 <= p < |t.s.blocked|
        ensures t.s.blocked[p] <==> exists r: nat :: WaitsIn(t, p, r)
      {
        if p != w && k.s.blocked[p] {
          var r: nat :| WaitsIn(k, p, r);
          assert WaitsIn(t, p, r);
        }
      }
    }
  }

  lemma TickInvK(k: Kernel)
    requires KInv(k)
    ensures KReady(k) && KInv(Tick(k))
  {
    InvReady(k.s);
    TickInv(k.s);
    CurrentRuns(k);
    TickedRing(k);
    var t := Tick(k);
    assert forall q: nat, p :: WaitsIn(t, p, q) <==> WaitsIn(k, p, q);
    RunnableWaitsNowhere(k, t.current);
  }

  lemma TickedRing(k: Kernel)
    requires KInv(k) && KReady(k) && SInv(SchedTick(k.s))
    ensures Tick(k).s.blocked == k.s.blocked && Tick(k).queues == k.queues
    ensures forall p :: p in Tick(k).s.ring <==> p in k.s.ring
    ensures Runnable(k.s, Tick(k).current) && Tick(k).s.ring[0] == Tick(k).current
  {
    CurrentRuns(k);
    NextIsRunnable(k.s);
    RotatedSame(k.s.ring, NextIndex(k.s));
  }

  lemma ReapInv(k: Kernel)
    requires KInv(k)
    ensures KInv(Reap(k))
  {
    var t := Reap(k);
    assert t.pcbs + t.zombies == k.pcbs + k.zombies;
    assert forall q: nat, p :: WaitsIn(t, p, q) <==> WaitsIn(k, p, q);
  }

  /** The same for a single zombie. */
  lemma ReapOneInv(k: Kernel)
    requires KInv(k) && k.zombies != []
    ensures KInv(k.(pcbs := k.pcbs + [k.zombies[0]], zombies := k.zombies[1..]))
  {
    var t := k.(pcbs := k.pcbs + [k.zombies[0]], zombies := k.zombies[1..]);
    assert t.pcbs + t.zombies == k.pcbs + k.zombies;
    assert forall q: nat, p :: WaitsIn(t, p, q) <==> WaitsIn(k, p, q);
  }

  /** Everyone in a queue is a task, so that waking them is defined. */
  lemma QueuedAreTasks(k: Kernel, q: nat)
    requires KInv(k) && q < |k.queues|
    ensures forall i :: 0 <= i < |k.queues[q]| ==> 0 <= k.queues[q][i] < |k.s.blocked|
  {
    forall i | 0 <= i < |k.queues[q]| ensures 0 <= k.queues[q][i] < |k.s.blocked| {
      assert WaitsIn(k, k.queues[q][i], q);
    }
  }

  /** Pids agree after an exit whatever the successor's state. */
  lemma ExitKeepsPids(k: Kernel)
    requires KInv(k) && k.current != 0
    ensures KReady(k) && SInv(Exit(k).s) && PidsAgree(Exit(k))
    ensures Runnable(Exit(k).s, Exit(k).current)
  {
    InvReady(k.s);
    ExitInv(k.s);
    assert k.pcbs + k.zombies + [k.current] == k.pcbs + (k.zombies + [k.current]);
  }

  /**
   The head of the ring is the running task after an exit, and with it the whole invariant
   holds, exactly when the successor of the exiting task is not blocked.
   */
  lemma ExitInvK(k: Kernel)
    requires KInv(k) && k.current != 0
    ensures KReady(k) && |k.s.ring| >= 2 && 0 <= k.s.ring[1] < |k.s.blocked|
    ensures KInv(Exit(k)) <==> !k.s.blocked[k.s.ring[1]]
  {
    ExitKeepsPids(k);
    FreeDistinct(k.s);
    NextIsRunnable(k.s);
    InvReady(k.s);
    if NextIndex(k.s) == 1 {
      ExitedQueues(k);
    } else {
      assert k.s.ring[1] != k.s.ring[NextIndex(k.s)];
    }
  }

  lemma ExitedQueues(k: Kernel)
    requires KInv(k) && KReady(k) && k.current != 0 && NextIndex(k.s) == 1 && SInv(Exit(k).s)
    ensures QueuesOk(Exit(k)) && BlockedOk(Exit(k))
  {
    var t := Exit(k);
    CurrentRuns(k);
    assert k.s.ring == [k.current] + t.s.ring;
    assert forall q: nat, p :: WaitsIn(t, p, q) <==> WaitsIn(k, p, q);
    assert t.current in k.s.ring;
    RunnableWaitsNowhere(k, t.current);
  }

  /**
   Otherwise a blocked task is at the head, and unless its own quantum runs out at once the
   very next tick switches to it although it still waits in its queue.
   */
  lemma ExitThenTick(k: Kernel)
    requires KInv(k) && k.current != 0
    requires |k.s.ring| >= 2 && 0 <= k.s.ring[1] < |k.s.blocked| && k.s.blocked[k.s.ring[1]]
    requires |k.s.rem| == MAX_PID && k.s.rem[k.s.ring[1]] > 1
    ensures KReady(k) && KReady(Exit(k))
    ensures var t := Tick(Exit(k));
      t.current == k.s.ring[1] && t.s.blocked[t.current] && exists q: nat :: WaitsIn(t, t.current, q)
  {
    ExitKeepsPids(k);
    InvReady(k.s);
    InvReady(Exit(k).s);
    assert k.s.ring[1] in k.s.ring;
    var t := Tick(Exit(k));
    var q: nat :| WaitsIn(k, k.s.ring[1], q);
    assert WaitsIn(t, t.current, q);
  }

  // ---- runs ------------------------------------------------------------------------------------

  datatype Event = New | Wait(q: nat) | Wake(q: nat) | Die | TimerTick | Reaped

  /** A free PCB for a new process; idle neither waits nor exits. */
  ghost predicate Legal(k: Kernel, e: Event) {
    match e
    case New => k.pcbs != []
    case Wait(q) => q < |k.queues| && k.current != 0
    case Wake(q) => q < |k.queues|
    case Die => k.current != 0
    case TimerTick => true
    case Reaped => true
  }

  /** The pointers that the event follows lead somewhere. */
  ghost predicate Defined(k: Kernel, e: Event) {
    && KReady(k)
    && (e.New? ==> k.pcbs != [] && k.s.free != [])
    && (e.Wait? ==> e.q < |k.queues|)
    && (e.Wake? ==> e.q < |k.queues| && (k.queues[e.q] != [] ==> 0 <= k.queues[e.q][0] < |k.s.blocked|))
  }

  ghost function Step(k: Kernel, e: Event): Kernel
    requires Defined(k, e)
  {
    match e
    case New => Create(k)
    case Wait(q) => Enqueue(k, q)
    case Wake(q) => Unqueue(k, q)
    case Die => Exit(k)
    case TimerTick => Tick(k)
    case Reaped => Reap(k)
  }

  lemma LegalDefined(k: Kernel, e: Event)
    requires KInv(k) && Legal(k, e)
    ensures Defined(k, e)
  {
    InvReady(k.s);
    match e {
      case New => CreateInv(k);
      case Wake(q) => UnqueueInv(k, q);
      case _ =>
    }
  }

  /** Whoever exits has a successor that can run. */
  ghost predicate SuccessorRuns(k: Kernel, e: Event) {
    e.Die? ==> |k.s.ring| >= 2 && Runnable(k.s, k.s.ring[1])
  }

  ghost predicate StepsTo(k: Kernel, e: Event, t: Kernel) {
    Legal(k, e) && Defined(k, e) && t == Step(k, e)
  }

  /** After `sched_init` and `loader_init`: idle runs, all other pids are free, nobody waits. */
  ghost function Boot(queues: nat): Kernel {
    Kernel(
      Sched([0], seq(MAX_PID - 1, i => i + 1), seq(MAX_PID, _ => false), seq(MAX_PID, p => if p == 0 then DEFAULT_QUANTUM else 0)),
      seq(MAX_PID - 1, i => i + 1), [], 0, seq(queues, _ => []))
  }

  lemma BootInv(queues: nat)
    ensures KInv(Boot(queues))
  {
    var k := Boot(queues);
    forall p | 0 <= p < MAX_PID ensures p in k.s.ring || p in k.s.free {
      if p > 0 {
        assert k.s.free[p - 1] == p;
      }
    }
    assert k.s.free == k.pcbs + k.zombies;
  }

  ghost predicate IsRun(run: seq<Kernel>, es: seq<Event>) {
    |run| == |es| + 1 && forall j :: 0 <= j < |es| ==> StepsTo(run[j], es[j], run[j + 1])
  }

  lemma StepInvK(k: Kernel, e: Event, t: Kernel)
    requires KInv(k) && StepsTo(k, e, t)
    ensures KInv(t) <==> SuccessorRuns(k, e)
  {
    match e {
      case New => CreateInv(k);
      case Wait(q) => EnqueueInv(k, q);
      case Wake(q) => UnqueueInv(k, q);
      case Die => ExitInvK(k); assert k.s.ring[1] in k.s.ring;
      case TimerTick => TickInvK(k);
      case Reaped => ReapInv(k);
    }
  }

  /** Pid agreement, the single place of each PCB and head = running task hold as long as successors can run. */
  lemma {:induction false} RunInv(run: seq<Kernel>, es: seq<Event>, queues: nat, i: nat)
    requires IsRun(run, es) && run[0] == Boot(queues) && i < |run|
    requires forall j :: 0 <= j < i ==> SuccessorRuns(run[j], es[j])
    ensures KInv(run[i])
  {
    if i == 0 {
      BootInv(queues);
    } else {
      RunInv(run, es, queues, i - 1);
      assert SuccessorRuns(run[i - 1], es[i - 1]) && StepsTo(run[i - 1], es[i - 1], run[i]);
      StepInvK(run[i - 1], es[i - 1], run[i]);
    }
  }

  /** They hold in every state of a run exactly when every task that exits has a successor that can run. */
  lemma RunInvExactly(run: seq<Kernel>, es: seq<Event>, queues: nat)
    requires IsRun(run, es) && run[0] == Boot(queues)
    ensures (forall i :: 0 <= i < |run| ==> KInv(run[i])) <==> (forall j :: 0 <= j < |es| ==> SuccessorRuns(run[j], es[j]))
  {
    if forall j :: 0 <= j < |es| ==> SuccessorRuns(run[j], es[j]) {
      forall i | 0 <= i < |run| ensures KInv(run[i]) {
        RunInv(run, es, queues, i);
      }
    } else {
      var j :| 0 <= j < |es| && !SuccessorRuns(run[j], es[j]);
      assert StepsTo(run[j], es[j], run[j + 1]);
      if KInv(run[j]) {
        StepInvK(run[j], es[j], run[j + 1]);
      }
    }
  }

  // ---- pids alone --------------------------------------------------------------------------------

  /** The scheduler frees the head of its ring and the loader its running PCB: an exit needs them to be the same. */
  ghost predicate HeadExits(k: Kernel, e: Event) {
    e.Die? ==> k.s.ring != [] && k.s.ring[0] == k.current
  }

  lemma PidsStep(k: Kernel, e: Event, t: Kernel)
    requires PidsAgree(k) && StepsTo(k, e, t)
    ensures PidsAgree(t) <==> HeadExits(k, e)
  {
    match e {
      case New => assert k.s.free[1..] == k.pcbs[1..] + k.zombies;
      case Die => ExitPids(k);
      case Reaped => assert t.pcbs + t.zombies == k.pcbs + k.zombies;
      case _ =>
    }
  }

  lemma ExitPids(k: Kernel)
    requires PidsAgree(k) && KReady(k)
    ensures PidsAgree(Exit(k)) <==> k.s.ring[0] == k.current
  {
    var t := Exit(k);
    assert t.pcbs + t.zombies == k.s.free + [k.current];
    assert t.s.free[|k.s.free|] == k.s.ring[0];
    assert (k.s.free + [k.current])[|k.s.free|] == k.current;
  }

  /** In every state of a run the pids agree, exactly when every exit is that of the task at the head of the ring. */
  lemma PidsExactly(run: seq<Kernel>, es: seq<Event>, queues: nat)
    requires IsRun(run, es) && run[0] == Boot(queues)
    ensures (forall i :: 0 <= i < |run| ==> PidsAgree(run[i])) <==> (forall j :: 0 <= j < |es| ==> HeadExits(run[j], es[j]))
  {
    if forall j :: 0 <= j < |es| ==> HeadExits(run[j], es[j]) {
      forall i | 0 <= i < |run| ensures PidsAgree(run[i]) {
        PidsUpTo(run, es, queues, i);
      }
    } else {
      var j :| 0 <= j < |es| && !HeadExits(run[j], es[j]);
      assert StepsTo(run[j], es[j], run[j + 1]);
      if PidsAgree(run[j]) {
        PidsStep(run[j], es[j], run[j + 1]);
      }
    }
  }

  lemma {:induction false} PidsUpTo(run: seq<Kernel>, es: seq<Event>, queues: nat, i: nat)
    requires IsRun(run, es) && run[0] == Boot(queues) && i < |run|
    requires forall j :: 0 <= j < i ==> HeadExits(run[j], es[j])
    ensures PidsAgree(run[i])
  {
    if i == 0 {
      BootInv(queues);
    } else {
      PidsUpTo(run, es, queues, i - 1);
      assert StepsTo(run[i - 1], es[i - 1], run[i]) && HeadExits(run[i - 1], es[i - 1]);
      PidsStep(run[i - 1], es[i - 1], run[i]);
    }
  }

  /**
   If the task that runs after an exit across a blocked successor exits too before any tick,
   the scheduler frees the blocked task instead, and from then on the two modules disagree.
   */
  lemma ExitTwice(k: Kernel)
    requires KInv(k) && k.current != 0
    requires |k.s.ring| >= 2 && 0 <= k.s.ring[1] < |k.s.blocked| && k.s.blocked[k.s.ring[1]]
    requires KReady(k) && Legal(Exit(k), Die)
    ensures KReady(Exit(k)) && !HeadExits(Exit(k), Die)
    ensures var t := Exit(Exit(k)); !PidsAgree(t) && |t.s.free| == |t.pcbs + t.zombies|
  {
    ExitKeepsPids(k);
    InvReady(Exit(k).s);
    ExitPids(Exit(k));
  }
}
