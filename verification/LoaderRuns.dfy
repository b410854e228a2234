/**
 Runs from boot in which an exit goes wrong: the failures of `LoaderModel` are reached by
 three processes, one of which waits.
 */
module LoaderRuns {
  import opened SchedModel
  import opened LoaderModel

  /** A run from boot that has come to `k` without any exit across a blocked successor. */
  ghost predicate Reaches(run: seq<Kernel>, es: seq<Event>, k: Kernel) {
    IsRun(run, es) && run[0] == Boot(1) && run[|es|] == k && KInv(k)
  }

  lemma ExtendRun(run: seq<Kernel>, es: seq<Event>, e: Event, t: Kernel) returns (run': seq<Kernel>, es': seq<Event>)
    requires IsRun(run, es) && StepsTo(run[|es|], e, t)
    ensures IsRun(run', es') && run'[0] == run[0] && run'[|es'|] == t && es' == es + [e]
    ensures forall i :: 0 <= i < |run| ==> run'[i] == run[i]
  {
    run', es' := run + [t], es + [e];
  }

  /** One more event that keeps the invariant. */
  lemma Extend(run: seq<Kernel>, es: seq<Event>, k: Kernel, e: Event) returns (run': seq<Kernel>, es': seq<Event>)
    requires Reaches(run, es, k) && Legal(k, e) && SuccessorRuns(k, e)
    ensures Defined(k, e) && Reaches(run', es', Step(k, e))
  {
    LegalDefined(k, e);
    StepInvK(k, e, Step(k, e));
    run', es' := ExtendRun(run, es, e, Step(k, e));
  }

  /** The state after the running task has used up its quantum. */
  ghost function QuantumOver(k: Kernel): Kernel
    requires KInv(k) && KReady(k)
  {
    var head := k.s.ring[0];
    var i := NextIndex(k.s);
    k.(s := k.s.(rem := k.s.rem[head := DEFAULT_QUANTUM], ring := Rotated(k.s.ring, i)), current := k.s.ring[i])
  }

  /** Ticks up to the end of the running task's quantum. */
  lemma {:induction false} TickOn(run: seq<Kernel>, es: seq<Event>, k: Kernel) returns (run': seq<Kernel>, es': seq<Event>)
    requires Reaches(run, es, k) && KReady(k)
    ensures Reaches(run', es', QuantumOver(k))
    decreases k.s.rem[k.s.ring[0]]
  {
    var head := k.s.ring[0];
    assert head in k.s.ring;
    var t := Tick(k);
    run', es' := Extend(run, es, k, TimerTick);
    if k.s.rem[head] > 1 {
      assert t.s.rem[head := DEFAULT_QUANTUM] == k.s.rem[head := DEFAULT_QUANTUM];
      run', es' := TickOn(run', es', t);
    }
  }

  // ---- the shape of the states on the way ---------------------------------------------------------

  /** The ring is `ring`, pids from `n` up are free in order, just the tasks in `waiting` wait, and task 1 has a full quantum. */
  ghost predicate At(k: Kernel, ring: seq<int>, n: nat, waiting: set<int>) {
    KInv(k) && KReady(k) && OnRing(k, ring, waiting) && FreeFrom(k, n)
  }

  ghost predicate OnRing(k: Kernel, ring: seq<int>, waiting: set<int>)
    requires KInv(k) && KReady(k)
  {
    && k.s.ring == ring && k.current == ring[0] && |k.queues| == 1
    && (forall p :: p in ring ==> (k.s.blocked[p] <==> p in waiting))
    && (1 in ring ==> k.s.rem[1] == DEFAULT_QUANTUM)
  }

  ghost predicate FreeFrom(k: Kernel, n: nat) {
    k.zombies == [] && |k.s.free| == MAX_PID - n && forall i :: 0 <= i < |k.s.free| ==> k.s.free[i] == n + i
  }

  /** Where the search for the next task ends. */
  lemma NextIs(s: Sched, i: nat)
    requires Ready(s) && 0 < i < |s.ring| && !s.blocked[s.ring[i]]
    requires forall j :: 0 < j < i ==> s.blocked[s.ring[j]]
    ensures NextIndex(s) == i
  {
    var n := NextIndex(s);
    assert forall j :: 0 < j < (if n == 0 then |s.ring| else n) ==> s.blocked[s.ring[j]];
  }

  lemma AtBoot()
    ensures At(Boot(1), [0], 1, {})
  {
    BootInv(1);
    InvReady(Boot(1).s);
  }

  /** A task is created. */
  lemma GoNew(run: seq<Kernel>, es: seq<Event>, k: Kernel, ring: seq<int>, n: nat, waiting: set<int>, ring': seq<int>)
    returns (run': seq<Kernel>, es': seq<Event>, k': Kernel)
    requires Reaches(run, es, k) && At(k, ring, n, waiting) && 0 < n < MAX_PID && n !in waiting && ring' == ring + [n]
    ensures Reaches(run', es', k') && At(k', ring', n + 1, waiting)
  {
    assert k.pcbs + k.zombies == k.pcbs;
    CreateInv(k);
    InvReady(Create(k).s);
    k' := Create(k);
    run', es' := Extend(run, es, k, New);
  }

  /** The running task is pre-empted, and the task at position `i` is the next that can run. */
  lemma GoQuantum(
    run: seq<Kernel>, es: seq<Event>, k: Kernel, ring: seq<int>, n: nat, waiting: set<int>, i: nat, ring': seq<int>)
    returns (run': seq<Kernel>, es': seq<Event>, k': Kernel)
    requires Reaches(run, es, k) && At(k, ring, n, waiting) && 0 < i < |ring| && ring[i] !in waiting
    requires ring' == Rotated(ring, i) && forall j :: 0 < j < i ==> ring[j] in waiting
    ensures Reaches(run', es', k') && At(k', ring', n, waiting)
  {
    run', es' := TickOn(run, es, k);
    k' := QuantumOver(k);
    NextIs(k.s, i);
    RotatedSame(ring, i);
    InvReady(k'.s);
  }

  lemma AtWait(k: Kernel, ring: seq<int>, n: nat, waiting: set<int>, i: nat)
    requires At(k, ring, n, waiting) && k.current != 0 && 0 < i < |ring| && ring[i] !in waiting
    requires KInv(Enqueue(k, 0)) && forall j :: 0 < j < i ==> ring[j] in waiting
    ensures At(Enqueue(k, 0), Rotated(ring, i), n, waiting + {ring[0]})
  {
    var t := Enqueue(k, 0);
    NextIs(k.s, i);
    RotatedSame(ring, i);
    InvReady(t.s);
  }

  /** The running task waits. */
  lemma GoWait(
    run: seq<Kernel>, es: seq<Event>, k: Kernel, ring: seq<int>, n: nat, waiting: set<int>, i: nat, ring': seq<int>)
    returns (run': seq<Kernel>, es': seq<Event>, k': Kernel)
    requires Reaches(run, es, k) && At(k, ring, n, waiting) && 0 < i < |ring| && ring[i] !in waiting && ring[0] != 0
    requires ring' == Rotated(ring, i) && forall j :: 0 < j < i ==> ring[j] in waiting
    ensures Reaches(run', es', k') && At(k', ring', n, waiting + {ring[0]})
  {
    run', es' := Extend(run, es, k, Wait(0));
    k' := Enqueue(k, 0);
    AtWait(k, ring, n, waiting, i);
  }

  /** Task 1 is created and runs. */
  lemma FirstRuns() returns (run: seq<Kernel>, es: seq<Event>, k: Kernel)
    ensures Reaches(run, es, k) && At(k, [1, 0], 2, {})
  {
    AtBoot();
    run, es, k := GoNew([Boot(1)], [], Boot(1), [0], 1, {}, [0, 1]);
    run, es, k := GoQuantum(run, es, k, [0, 1], 2, {}, 1, [1, 0]);
  }

  /** It creates task 2 and waits. */
  lemma FirstWaits() returns (run: seq<Kernel>, es: seq<Event>, k: Kernel)
    ensures Reaches(run, es, k) && At(k, [0, 2, 1], 3, {1})
  {
    run, es, k := FirstRuns();
    run, es, k := GoNew(run, es, k, [1, 0], 2, {}, [1, 0, 2]);
    run, es, k := GoWait(run, es, k, [1, 0, 2], 3, {}, 1, [0, 2, 1]);
    assert {} + {1} == {1};
  }

  /** Task 3 is created, and task 2 runs with the waiting task 1 behind it. */
  lemma SetupReached() returns (run: seq<Kernel>, es: seq<Event>, k: Kernel)
    ensures Reaches(run, es, k) && At(k, [2, 1, 3, 0], 4, {1})
  {
    run, es, k := FirstWaits();
    run, es, k := GoNew(run, es, k, [0, 2, 1], 3, {1}, [0, 2, 1, 3]);
    run, es, k := GoQuantum(run, es, k, [0, 2, 1, 3], 4, {1}, 1, [2, 1, 3, 0]);
  }

  // ---- the failures ------------------------------------------------------------------------------

  /** A run at whose end the running task is blocked and still waits in a queue. */
  lemma BlockedTaskRuns() returns (run: seq<Kernel>, es: seq<Event>)
    ensures IsRun(run, es) && run[0] == Boot(1)
    ensures var t := run[|es|];
      0 <= t.current < |t.s.blocked| && t.s.blocked[t.current] && exists q: nat :: WaitsIn(t, t.current, q)
  {
    var k;
    run, es, k := SetupReached();
    assert k.s.blocked[1] && !k.s.blocked[3];
    LegalDefined(k, Die);
    ExitThenTick(k);
    run, es := ExtendRun(run, es, Die, Exit(k));
    run, es := ExtendRun(run, es, TimerTick, Tick(Exit(k)));
  }

  /** A run at whose end scheduler and loader would hand out different pids. */
  lemma PidsDiffer() returns (run: seq<Kernel>, es: seq<Event>)
    ensures IsRun(run, es) && run[0] == Boot(1) && !PidsAgree(run[|es|])
  {
    var k;
    run, es, k := SetupReached();
    assert k.s.blocked[1] && !k.s.blocked[3];
    LegalDefined(k, Die);
    NextIs(k.s, 2);
    ExitTwice(k);
    run, es := ExtendRun(run, es, Die, Exit(k));
    run, es := ExtendRun(run, es, Die, Exit(Exit(k)));
  }
}
