/**
 The process side of `loader.c` in place: PCBs threaded on the free list, the zombie list
 and the wait queues, on top of the scheduler. A wait queue is the pid of its first PCB, or
 -1. Each routine is proved against the event of `LoaderModel` that it performs.
 */
module Loader {
  import opened Links
  import S = SchedModel
  import M = LoaderModel
  import Sch = Scheduler

  /** The lists that a PCB can be on do not overlap, and the running PCB is on none. */
  lemma ListsApart(k: M.Kernel)
    requires M.KInv(k)
    ensures Disjoint(k.pcbs, k.zombies)
    ensures forall q :: 0 <= q < |k.queues| ==> Disjoint(k.pcbs, k.queues[q]) && Disjoint(k.zombies, k.queues[q])
    ensures forall q, r :: 0 <= q < |k.queues| && 0 <= r < |k.queues| && q != r ==> Disjoint(k.queues[q], k.queues[r])
    ensures 0 <= k.current < S.MAX_PID
    ensures k.current !in k.pcbs && k.current !in k.zombies && forall q :: 0 <= q < |k.queues| ==> k.current !in k.queues[q]
  {
    M.CurrentRuns(k);
    forall p ensures !(p in k.pcbs && p in k.zombies)
      && (p in k.pcbs || p in k.zombies ==> forall q: nat :: !M.WaitsIn(k, p, q))
    {
      M.OnePlace(k, p);
    }
    assert forall i :: 0 <= i < |k.pcbs| ==> k.pcbs[i] !in k.zombies;
    forall q, r, i, j | 0 <= q < |k.queues| && 0 <= r < |k.queues| && q != r && 0 <= i < |k.queues[q]| && 0 <= j < |k.queues[r]|
      ensures k.queues[q][i] != k.queues[r][j]
    {
      assert M.WaitsIn(k, k.queues[q][i], q) && M.WaitsIn(k, k.queues[r][j], r);
    }
    forall q | 0 <= q < |k.queues| ensures Disjoint(k.pcbs, k.queues[q]) && Disjoint(k.zombies, k.queues[q]) {
      forall i | 0 <= i < |k.queues[q]| ensures k.queues[q][i] !in k.pcbs && k.queues[q][i] !in k.zombies {
        assert M.WaitsIn(k, k.queues[q][i], q);
      }
    }
    forall q | 0 <= q < |k.queues| ensures k.current !in k.queues[q] {
      assert !M.WaitsIn(k, k.current, q);
    }
  }

  /** The lists other than queue `q` do not notice that its PCBs are relinked, nor that the running one is. */
  lemma OthersStay(
    n: seq<int>, p: seq<int>, n': seq<int>, p': seq<int>, k: M.Kernel, freeHead: int, zombieHead: int, cola: seq<int>, q: nat)
    requires M.KInv(k) && q < |k.queues| == |cola| && |n| == |p|
    requires ListOf(n, p, freeHead, k.pcbs) && ListOf(n, p, zombieHead, k.zombies)
    requires forall r :: 0 <= r < |cola| && r != q ==> ListOf(n, p, cola[r], k.queues[r])
    requires Outside(n, n', k.queues[q] + [k.current]) && Outside(p, p', k.queues[q] + [k.current])
    ensures ListOf(n', p', freeHead, k.pcbs) && ListOf(n', p', zombieHead, k.zombies)
    ensures forall r :: 0 <= r < |cola| && r != q ==> ListOf(n', p', cola[r], k.queues[r])
  {
    ListsApart(k);
    var t := k.queues[q] + [k.current];
    ListUntouched(n, p, n', p', freeHead, k.pcbs, t);
    ListUntouched(n, p, n', p', zombieHead, k.zombies, t);
    ListsFrame(n, p, n', p', cola, k.queues, t, q);
  }

  class Loader {
    const links: Links
    const sched: Sch.Scheduler
    var freePcbs: int
    var zoombieTasks: int
    var current: int
    var cola: seq<int>
    ghost var pcbs: seq<int>
    ghost var zombies: seq<int>
    ghost var queues: seq<seq<int>>

    ghost function Repr(): set<object> {
      {this, sched, links.next, links.prev, sched.links.next, sched.links.prev}
    }

    ghost function State(): M.Kernel
      reads this, sched
    {
      M.Kernel(sched.State(), pcbs, zombies, current, queues)
    }

    ghost predicate Valid()
      reads Repr()
    {
      && sched.Valid() && Threaded()
      && links.next != sched.links.next && links.next != sched.links.prev
      && links.prev != sched.links.next && links.prev != sched.links.prev
    }

    /** The PCBs of each list are linked in order. */
    ghost predicate Threaded()
      reads this, links.next, links.prev
    {
      && links.Valid() && links.next.Length == S.MAX_PID
      && links.Is(freePcbs, pcbs) && links.Is(zoombieTasks, zombies)
      && |cola| == |queues|
      && (forall q :: 0 <= q < |queues| ==> links.Is(cola[q], queues[q]))
    }

    /** What every routine may rely on: the pointers are sound and the kernel is in a reachable state. */
    ghost predicate Ok()
      reads Repr()
    {
      Valid() && M.KInv(State())
    }

    /** After `sched_init`: no PCB is on any list, and no task is on the ring. */
    ghost predicate Unstarted()
      reads Repr()
    {
      && sched.Valid() && links.Valid() && links.next.Length == S.MAX_PID
      && links.next != sched.links.next && links.next != sched.links.prev
      && links.prev != sched.links.next && links.prev != sched.links.prev
      && sched.State() == S.Sched([], seq(S.MAX_PID, i => i), seq(S.MAX_PID, _ => false), seq(S.MAX_PID, _ => 0))
      && zombies == [] && zoombieTasks == NIL && |cola| == |queues|
      && (forall q :: 0 <= q < |queues| ==> cola[q] == NIL && queues[q] == [])
    }

    constructor (n: nat)
      ensures Unstarted() && |queues| == n && fresh(Repr() - {this})
    {
      var l := new Links(S.MAX_PID);
      links := l;
      sched := new Sch.Scheduler();
      zoombieTasks := NIL;
      freePcbs := NIL;
      current := 0;
      cola := seq(n, _ => NIL);
      zombies := [];
      queues := seq(n, _ => []);
      pcbs := [];
    }

    /** `loader_init`, up to the first task besides idle. */
    method LoaderInit()
      requires Unstarted()
      modifies Repr()
      ensures State() == M.Boot(|old(queues)|) && Ok()
    {
      TakeIdle();
      sched.SchedLoad();
      assert sched.free == pcbs && sched.ring == [0];
      assert State() == M.Boot(|queues|);
      assert M.KInv(State()) by {
        M.BootInv(|queues|);
      }
    }

    /** All PCBs are put on the free list, and idle takes the first. */
    method TakeIdle()
      requires links.Valid() && links.next.Length == S.MAX_PID && zombies == [] && zoombieTasks == NIL
      requires |cola| == |queues| && forall q :: 0 <= q < |queues| ==> cola[q] == NIL && queues[q] == []
      modifies this`freePcbs, this`pcbs, this`current, links.next, links.prev
      ensures Threaded() && pcbs == seq(S.MAX_PID - 1, i => i + 1) && current == 0
    {
      freePcbs := links.AllNodes();
      freePcbs, current := links.Pop(freePcbs, seq(S.MAX_PID, i => i));
      pcbs := seq(S.MAX_PID, i => i)[1..];
    }

    lemma SomeoneRuns()
      requires Ok()
      ensures exists i :: 0 <= i < |sched.ring| && !sched.blocked[sched.ring[i]]
      ensures 0 <= sched.ring[0] < |sched.rem| && sched.rem[sched.ring[0]] > 0
      ensures M.KReady(State())
    {
      S.InvReady(State().s);
      M.CurrentRuns(State());
      assert sched.ring[0] in sched.ring;
    }

    /** PCB and task of a new process: `loader_load`, `loader_load_main`, `loader_fork`. */
    method Create() returns (pid: int)
      requires Ok() && pcbs != []
      modifies Repr()
      ensures M.KReady(old(State())) && old(State()).s.free != [] && State() == M.Create(old(State()))
      ensures Ok() && pid == M.NewPid(old(State())) == M.NewTask(old(State()))
    {
      ghost var k := State();
      M.CreateInv(k);
      ListsApart(k);
      ghost var n, p := links.next[..], links.prev[..];
      freePcbs, pid := links.Pop(freePcbs, pcbs);
      ListUntouched(n, p, links.next[..], links.prev[..], zoombieTasks, zombies, pcbs);
      ListsFrame(n, p, links.next[..], links.prev[..], cola, queues, pcbs, -1);
      pcbs := pcbs[1..];
      sched.SchedLoad();
    }

    /** `loader_switchto`. */
    method SwitchTo(pid: int)
      modifies this`current
      ensures current == pid
    {
      if current == pid {
        return;
      }
      current := pid;
    }

    /** `loader_enqueue`. */
    method Enqueue(q: nat)
      requires Ok() && q < |cola| && current != 0
      modifies Repr()
      ensures M.KReady(old(State())) && State() == M.Enqueue(old(State()), q)
      ensures Ok() && |cola| == |old(cola)| && |queues[q]| == |old(queues)[q]| + 1
    {
      ghost var k := State();
      SomeoneRuns();
      M.EnqueueInv(k, q);
      QueueCurrent(q);
      BlockCurrent();
    }

    /** Its first half: the running PCB goes to the end of the queue. */
    method QueueCurrent(q: nat)
      requires Ok() && q < |cola|
      modifies this`cola, this`queues, links.next, links.prev
      ensures Threaded() && State() == old(State()).(queues := old(queues)[q := old(queues)[q] + [current]])
    {
      ListsApart(State());
      ghost var n, p := links.next[..], links.prev[..];
      var queue := NIL;
      if cola[q] == NIL {
        cola := cola[q := current];
      } else {
        queue := cola[q];
      }
      queue := links.Append(queue, current, queues[q]);
      OthersStay(n, p, links.next[..], links.prev[..], State(), freePcbs, zoombieTasks, cola, q);
      queues := queues[q := queues[q] + [current]];
    }

    /** Its second half: another task runs. */
    method BlockCurrent()
      requires sched.Valid() && Threaded() && M.KReady(State())
      requires links.next != sched.links.next && links.next != sched.links.prev
      requires links.prev != sched.links.next && links.prev != sched.links.prev
      requires exists i :: 0 <= i < |sched.ring| && !sched.blocked[sched.ring[i]]
      modifies this`current, sched
      ensures Valid()
      ensures var k := old(State());
        State() == k.(s := S.SchedBlock(k.s), current := k.s.ring[S.NextIndex(k.s)])
    {
      var pid := sched.SchedBlock();
      SwitchTo(pid);
    }

    /** `loader_unqueue`. */
    method Unqueue(q: nat)
      requires Ok() && q < |cola|
      modifies Repr()
      ensures old(queues)[q] != [] ==> 0 <= old(queues)[q][0] < |old(sched.blocked)|
      ensures State() == M.Unqueue(old(State()), q)
      ensures Ok()
    {
      ghost var k := State();
      M.UnqueueInv(k, q);
      ListsApart(k);
      ghost var n, p := links.next[..], links.prev[..];
      if cola[q] != NIL {
        var queue, pid := links.Pop(cola[q], queues[q]);
        ListUntouched(n, p, links.next[..], links.prev[..], freePcbs, pcbs, queues[q]);
        ListUntouched(n, p, links.next[..], links.prev[..], zoombieTasks, zombies, queues[q]);
        ListsFrame(n, p, links.next[..], links.prev[..], cola, queues, queues[q], q);
        cola := cola[q := queue];
        queues := queues[q := queues[q][1..]];
        sched.SchedUnblock(pid);
      }
    }

    /** `loader_unqueue_all`. */
    method UnqueueAll(q: nat)
      requires Ok() && q < |cola|
      modifies Repr()
      ensures forall i :: 0 <= i < |old(queues)[q]| ==> 0 <= old(queues)[q][i] < |old(sched.blocked)|
      ensures Ok() && State() == M.UnqueueAll(old(State()), q)
    {
      ghost var k := State();
      M.QueuedAreTasks(k, q);
      while cola[q] != NIL
        invariant Ok() && |cola| == |k.queues|
        invariant forall i :: 0 <= i < |queues[q]| ==> 0 <= queues[q][i] < |sched.blocked|
        invariant M.UnqueueAll(k, q) == M.UnqueueAll(State(), q)
        decreases |queues[q]|
      {
        Unqueue(q);
        M.QueuedAreTasks(State(), q);
      }
    }

    /** `loader_exit`, whose files are closed elsewhere. */
    method Exit()
      requires Ok() && current != 0
      modifies Repr()
      ensures M.KReady(old(State())) && State() == M.Exit(old(State()))
      ensures Valid()
    {
      SomeoneRuns();
      BuryCurrent();
      var pid := sched.SchedExit();
      SwitchTo(pid);
    }

    /** Its first half: the running PCB joins the zombies. */
    method BuryCurrent()
      requires Ok()
      modifies this`zoombieTasks, this`zombies, links.next, links.prev
      ensures Threaded() && State() == old(State()).(zombies := old(zombies) + [current])
    {
      ListsApart(State());
      ghost var n, p := links.next[..], links.prev[..];
      ghost var t := zombies + [current];
      zoombieTasks := links.Append(zoombieTasks, current, zombies);
      ListUntouched(n, p, links.next[..], links.prev[..], freePcbs, pcbs, t);
      ListsFrame(n, p, links.next[..], links.prev[..], cola, queues, t, -1);
      zombies := t;
    }

    /** `timer_isr`. */
    method TimerIsr()
      requires Ok()
      modifies Repr()
      ensures M.KReady(old(State())) && State() == M.Tick(old(State()))
      ensures Ok()
    {
      SomeoneRuns();
      ghost var k := State();
      var pid := RunScheduler();
      SwitchTo(pid);
      M.TickInvK(k);
    }

    method RunScheduler() returns (pid: int)
      requires Valid() && M.KReady(State()) && sched.ring != [] && 0 <= sched.ring[0] < |sched.rem|
      requires sched.rem[sched.ring[0]] > 0 && exists i :: 0 <= i < |sched.ring| && !sched.blocked[sched.ring[i]]
      modifies Repr()
      ensures Valid() && State() == old(State()).(s := S.SchedTick(old(State()).s)) && pid == sched.ring[0]
    {
      pid := sched.SchedTick();
    }

    /** `kill_zoombies`, whose page directories are freed elsewhere. */
    method KillZoombies()
      requires Ok()
      modifies Repr()
      ensures State() == M.Reap(old(State()))
      ensures Ok()
    {
      ghost var k := State();
      while zoombieTasks != NIL
        invariant Ok() && M.Reap(State()) == M.Reap(k)
        decreases |zombies|
      {
        ReapOne();
      }
      assert pcbs + zombies == pcbs;
    }

    method ReapOne()
      requires Ok() && zombies != []
      modifies Repr()
      ensures Ok() && M.Reap(State()) == M.Reap(old(State())) && |zombies| == |old(zombies)| - 1
    {
      ghost var k := State();
      ListsApart(k);
      ghost var n, p := links.next[..], links.prev[..];
      var zombie;
      zoombieTasks, freePcbs, zombie := links.Transfer(zoombieTasks, freePcbs, zombies, pcbs);
      ListsFrame(n, p, links.next[..], links.prev[..], cola, queues, zombies + pcbs, -1);
      pcbs, zombies := pcbs + [zombie], zombies[1..];
      assert k.pcbs + k.zombies == pcbs + zombies;
      M.ReapOneInv(k);
    }
  }
}
