/**
 `sem.c`: what counting and queueing mean for those who hold a semaphore, and the routines
 in place on top of the loader's wait queues.
 */
module Semaphore {
  import M = LoaderModel
  import L = Loader

  /** `arrived` and `entered` record, in order, who asked for the semaphore and who got it. */
  datatype Sem = Sem(
    vl: int,
    queue: seq<int>,
    holders: multiset<int>,
    arrived: seq<int>, entered: seq<int>)

  /** `SEM_NEW`. */
  function New(places: nat): Sem {
    Sem(places, [], multiset{}, [], [])
  }

  /** `sem_wait` by `p`: it gets a place, or queues until it is handed one. */
  function Asked(s: Sem, p: int): Sem {
    var t := s.(vl := s.vl - 1, arrived := s.arrived + [p]);
    if t.vl < 0 then t.(queue := s.queue + [p]) else Enter(t, p)
  }

  /** `sem_wait` returns to `p`. */
  function Enter(s: Sem, p: int): Sem {
    s.(holders := s.holders + multiset{p}, entered := s.entered + [p])
  }

  /** `sem_signaln` by a holder: its place goes to the first in the queue, if there is one. */
  function Given(s: Sem, p: int): Sem {
    var t := s.(vl := s.vl + 1, holders := s.holders - multiset{p});
    if s.vl < 0 && s.queue != [] then Enter(t.(queue := s.queue[1..]), s.queue[0]) else t
  }

  /** `sem_broadcast`. */
  function Woken(s: Sem): Sem {
    s.(vl := 0, queue := [], holders := s.holders + multiset(s.queue), entered := s.entered + s.queue)
  }

  function Above(x: int): nat {
    if x > 0 then x else 0
  }

  /** A negative value counts the queue, a positive one the free places; places are given in order of arrival. */
  ghost predicate Inv(s: Sem, places: nat) {
    && |s.queue| == Above(-s.vl)
    && |s.holders| + Above(s.vl) == places
    && s.entered + s.queue == s.arrived
  }

  lemma WaitInv(s: Sem, places: nat, p: int)
    requires Inv(s, places)
    ensures Inv(Asked(s, p), places)
  {
    assert s.entered + (s.queue + [p]) == s.arrived + [p];
    assert s.queue == [] ==> s.entered + [p] == s.arrived + [p];
  }

  lemma SignalInv(s: Sem, places: nat, p: int)
    requires Inv(s, places) && p in s.holders
    ensures Inv(Given(s, p), places)
  {
    if s.vl < 0 {
      assert s.entered + [s.queue[0]] + s.queue[1..] == s.entered + s.queue;
    }
  }

  /** A broadcast fits the count of holders exactly when there was nobody to wake and no place to lose. */
  lemma BroadcastInv(s: Sem, places: nat)
    requires Inv(s, places)
    ensures Inv(Woken(s), places) <==> s.vl == 0
  {
    assert |multiset(s.queue)| == |s.queue|;
    assert s.entered + s.queue + [] == s.arrived;
  }

  // ---- runs ----------------------------------------------------------------------------------------

  datatype Op = Down(p: int) | Up(p: int)

  /** Only who holds the semaphore gives it back. */
  ghost predicate StepsTo(s: Sem, op: Op, t: Sem) {
    match op
    case Down(p) => t == Asked(s, p)
    case Up(p) => p in s.holders && t == Given(s, p)
  }

  ghost predicate IsRun(run: seq<Sem>, ops: seq<Op>, places: nat) {
    && |run| == |ops| + 1 && run[0] == New(places)
    && forall i :: 0 <= i < |ops| ==> StepsTo(run[i], ops[i], run[i + 1])
  }

  /** At most as many hold the semaphore as it has places, and they got it first come, first served. */
  lemma {:induction false} RunInv(run: seq<Sem>, ops: seq<Op>, places: nat, i: nat)
    requires IsRun(run, ops, places) && i < |run|
    ensures Inv(run[i], places) && |run[i].holders| <= places && run[i].entered <= run[i].arrived
  {
    if i > 0 {
      var s := run[i - 1];
      RunInv(run, ops, places, i - 1);
      assert StepsTo(s, ops[i - 1], run[i]);
      match ops[i - 1] {
        case Down(p) => WaitInv(s, places, p);
        case Up(p) => SignalInv(s, places, p);
      }
    }
  }

  /** With one place, two different holders cannot be inside at once. */
  lemma MutualExclusion(run: seq<Sem>, ops: seq<Op>, i: nat, p: int, q: int)
    requires IsRun(run, ops, 1) && i < |run| && p in run[i].holders && q in run[i].holders
    ensures p == q && run[i].holders[p] == 1
  {
    RunInv(run, ops, 1, i);
    var rest := run[i].holders - multiset{p};
    assert |rest| == 0;
    assert run[i].holders == multiset{p} + rest;
  }

  // ---- in place --------------------------------------------------------------------------------------

  class Semaphore {
    const loader: L.Loader
    const q: nat
    var vl: int
    /** Who has asked, who waits and who is inside. */
    ghost var sem: Sem

    /** The value and the wait queue are those of `sem`. */
    ghost predicate Valid()
      reads this, loader.Repr()
    {
      loader.Ok() && Counts()
    }

    ghost predicate Counts()
      reads this, loader
    {
      && q < |loader.cola| && q < |loader.queues| && |loader.queues[q]| == Above(-vl)
      && sem.vl == vl && sem.queue == loader.queues[q]
    }

    /** `SEM_NEW`, with a queue of its own that nobody waits in. */
    constructor (l: L.Loader, queue: nat, places: nat)
      requires l.Ok() && queue < |l.cola| && l.queues[queue] == []
      ensures Valid() && loader == l && q == queue && vl == places && sem == New(places)
    {
      loader, q, vl, sem := l, queue, places, New(places);
    }

    /** The loader never writes to the semaphore itself. */
    lemma Apart()
      ensures (this as object) !in loader.Repr()
    {
    }

    /** `sem_wait`: the running PCB is queued exactly when no place was free. */
    method Wait()
      requires Valid() && loader.current != 0
      modifies this, loader.Repr()
      ensures Valid() && vl == old(vl) - 1 && sem == Asked(old(sem), old(loader.current))
      ensures M.KReady(old(loader.State()))
      ensures old(vl) > 0 ==> loader.State() == old(loader.State())
      ensures old(vl) <= 0 ==> loader.State() == M.Enqueue(old(loader.State()), q)
    {
      Apart();
      loader.SomeoneRuns();
      TakePlace();
      if vl < 0 {
        Block();
      }
    }

    /** One place less; the loader is not touched. */
    method TakePlace()
      requires Valid()
      modifies this`vl, this`sem
      ensures vl == old(vl) - 1 && sem == Asked(old(sem), loader.current)
      ensures loader.Ok() && loader.State() == old(loader.State())
    {
      sem := Asked(sem, loader.current);
      vl := vl - 1;
    }

    method Block()
      requires loader.Ok() && q < |loader.cola| && loader.current != 0
      modifies loader.Repr()
      ensures loader.Ok() && q < |loader.cola| && loader.queues[q] == old(loader.queues[q]) + [old(loader.current)]
      ensures M.KReady(old(loader.State())) && loader.State() == M.Enqueue(old(loader.State()), q)
    {
      loader.Enqueue(q);
    }

    /** `sem_signaln`: the first in the queue is woken, if somebody waits. */
    method Signal()
      requires Valid()
      modifies this, loader.Repr()
      ensures Valid() && vl == old(vl) + 1 && sem == Given(old(sem), old(loader.current))
      ensures old(loader.queues[q]) != [] ==> 0 <= old(loader.queues[q])[0] < |old(loader.sched.blocked)|
      ensures loader.State() == M.Unqueue(old(loader.State()), q)
    {
      Apart();
      M.QueuedAreTasks(loader.State(), q);
      if vl < 0 {
        loader.Unqueue(q);
      }
      GivePlace(old(loader.current));
    }

    /** One place more. */
    method GivePlace(ghost p: int)
      requires loader.Ok()
      modifies this`vl, this`sem
      ensures vl == old(vl) + 1 && sem == Given(old(sem), p)
      ensures loader.Ok() && loader.State() == old(loader.State())
    {
      sem := Given(sem, p);
      vl := vl + 1;
    }

    /** `sem_broadcast`. */
    method Broadcast()
      requires Valid()
      modifies this, loader.Repr()
      ensures Valid() && vl == 0 && sem == Woken(old(sem))
      ensures forall i :: 0 <= i < |old(loader.queues)[q]| ==> 0 <= old(loader.queues)[q][i] < |old(loader.sched.blocked)|
      ensures loader.State() == M.UnqueueAll(old(loader.State()), q)
    {
      Apart();
      M.QueuedAreTasks(loader.State(), q);
      M.UnqueueAllEmpties(loader.State(), q);
      loader.UnqueueAll(q);
      ClearPlaces();
    }

    method ClearPlaces()
      requires loader.Ok()
      modifies this`vl, this`sem
      ensures vl == 0 && sem == Woken(old(sem))
      ensures loader.Ok() && loader.State() == old(loader.State())
    {
      sem := Woken(sem);
      vl := 0;
    }
  }
}
