/**
 A task that can run gets the processor within 20 ticks of every other task, whatever the
 other tasks do meanwhile.
 */
module BoundedWait {
  import opened SchedModel

  datatype Event = Load | Unblock(p: int) | Block | Exit | Tick

  /** The idle task neither blocks nor exits, and a load needs a free task. */
  ghost predicate Legal(s: Sched, e: Event) {
    match e
    case Load => s.free != []
    case Unblock(p) => 0 <= p < MAX_PID
    case Block => s.ring != [] && s.ring[0] != 0
    case Exit => s.ring != [] && s.ring[0] != 0
    case Tick => true
  }

  ghost function Step(s: Sched, e: Event): Sched
    requires SInv(s) && Legal(s, e)
  {
    InvReady(s);
    match e
    case Load => SchedLoad(s)
    case Unblock(p) => SchedUnblock(s, p)
    case Block => SchedBlock(s)
    case Exit => SchedExit(s)
    case Tick => SchedTick(s)
  }

  lemma StepInv(s: Sched, e: Event)
    requires SInv(s) && Legal(s, e)
    ensures SInv(Step(s, e))
  {
    match e
    case Load => LoadInv(s);
    case Unblock(p) => UnblockInv(s, p);
    case Block => BlockInv(s);
    case Exit => ExitInv(s);
    case Tick => TickInv(s);
  }

  // ---- how long a task runs ----------------------------------------------------------------------

  /** `n` ticks in a row. */
  ghost function TicksOn(s: Sched, n: nat): Sched {
    if n == 0 then s
    else
      var t := TicksOn(s, n - 1);
      if Ready(t) then SchedTick(t) else t
  }

  /** The head has `r` ticks left. */
  ghost function WithRem(s: Sched, r: nat): Sched
    requires s.ring != [] && 0 <= s.ring[0] < |s.rem|
  {
    s.(rem := s.rem[s.ring[0] := r])
  }

  lemma TickStep(s: Sched, r: nat)
    requires Ready(s) && r > 1
    ensures Ready(WithRem(s, r)) && SchedTick(WithRem(s, r)) == WithRem(s, r - 1)
  {
    assert s.rem[s.ring[0] := r][s.ring[0] := r - 1] == s.rem[s.ring[0] := r - 1];
  }

  lemma AsBefore(s: Sched, q: nat)
    requires Ready(s) && q == s.rem[s.ring[0]]
    ensures WithRem(s, q) == s
  {
    assert s.rem[s.ring[0] := q] == s.rem;
  }

  lemma {:induction false} HeadTicks(s: Sched, q: nat, n: nat)
    requires Ready(s) && n < q && WithRem(s, q) == s
    ensures TicksOn(s, n) == WithRem(s, q - n)
  {
    if n == 0 {
      assert TicksOn(s, n) == s;
    } else {
      HeadTicks(s, q, n - 1);
      TickedOnce(s, n, q - n);
    }
  }

  /** Until its quantum ends the head keeps the processor, and loses one tick at each tick. */
  lemma QuantumRuns(s: Sched, n: nat)
    requires Ready(s) && n < s.rem[s.ring[0]]
    ensures TicksOn(s, n) == s.(rem := s.rem[s.ring[0] := s.rem[s.ring[0]] - n])
  {
    AsBefore(s, s.rem[s.ring[0]]);
    HeadTicks(s, s.rem[s.ring[0]], n);
  }

  lemma TickedOnce(s: Sched, n: nat, r: nat)
    requires Ready(s) && n > 0 && r > 0 && TicksOn(s, n - 1) == WithRem(s, r + 1)
    ensures TicksOn(s, n) == WithRem(s, r)
  {
    TickStep(s, r + 1);
  }

  /** The state in which the head's quantum has been restarted and the task at position `i` is the head. */
  ghost function Passed(s: Sched, i: nat): Sched
    requires i < |s.ring| && 0 <= s.ring[0] < |s.rem|
  {
    s.(rem := s.rem[s.ring[0] := DEFAULT_QUANTUM], ring := s.ring[i..] + s.ring[..i])
  }

  lemma LastTick(s: Sched)
    requires Ready(s)
    ensures Ready(WithRem(s, 1)) && SchedTick(WithRem(s, 1)) == Passed(s, NextIndex(s))
  {
    var u := WithRem(s, 1);
    assert NextIndex(u) == NextIndex(s);
    assert u.rem[s.ring[0] := DEFAULT_QUANTUM] == s.rem[s.ring[0] := DEFAULT_QUANTUM];
  }

  /** The next task that can run is the first of the others that is not blocked. */
  lemma NextRuns(s: Sched)
    requires SInv(s) && Ready(s)
    ensures var i := NextIndex(s);
      && Runnable(s, s.ring[i]) && (s.ring[0] != 0 ==> s.ring[i] != s.ring[0])
      && forall j :: 0 < j < i ==> s.blocked[s.ring[j]]
  {
    NextIsRunnable(s);
    assert (s.ring + s.free)[0] == s.ring[0] && (s.ring + s.free)[NextIndex(s)] == s.ring[NextIndex(s)];
  }

  lemma QuantumOver(s: Sched, q: nat)
    requires Ready(s) && q > 0 && WithRem(s, q) == s
    ensures TicksOn(s, q) == Passed(s, NextIndex(s))
  {
    HeadTicks(s, q, q - 1);
    LastTick(s);
  }

  /** After exactly as many ticks as it had left, the next task that can run is the head, and it has a full quantum again. */
  lemma QuantumEnds(s: Sched)
    requires SInv(s) && Ready(s)
    ensures var i := NextIndex(s); TicksOn(s, s.rem[s.ring[0]]) == Passed(s, i)
    ensures Runnable(s, s.ring[NextIndex(s)])
    ensures s.ring[0] != 0 ==> s.ring[NextIndex(s)] != s.ring[0]
    ensures forall j :: 0 < j < NextIndex(s) ==> s.blocked[s.ring[j]]
  {
    assert s.ring[0] in s.ring;
    AsBefore(s, s.rem[s.ring[0]]);
    QuantumOver(s, s.rem[s.ring[0]]);
    NextRuns(s);
  }

  /** No other event, and no tick of another task, takes ticks from a task or gives it any. */
  lemma QuantumKept(s: Sched, e: Event, p: int)
    requires SInv(s) && Legal(s, e) && p in s.ring && Ready(s) && (e.Tick? ==> p != s.ring[0])
    ensures |Step(s, e).rem| == |s.rem| && Step(s, e).rem[p] == s.rem[p]
  {
    if e.Load? {
      FreeNotRing(s, p);
    }
  }

  lemma FreeNotRing(s: Sched, p: int)
    requires SInv(s) && p in s.ring && s.free != []
    ensures s.free[0] != p
  {
    InvReady(s);
    var i :| 0 <= i < |s.ring| && s.ring[i] == p;
    assert (s.ring + s.free)[i] != (s.ring + s.free)[|s.ring|];
  }

  /** A new task comes last, can run, and has a full quantum. */
  lemma LoadedLast(s: Sched)
    requires SInv(s) && s.free != [] && Ready(s)
    ensures var t := SchedLoad(s); var p := t.ring[|t.ring| - 1];
      t.ring[..|t.ring| - 1] == s.ring && p == s.free[0] && Runnable(t, p) && t.rem[p] == 20
  {
    assert SchedLoad(s).ring[..|s.ring|] == s.ring;
  }

  // ---- how long a task waits ---------------------------------------------------------------

  ghost function Position(r: seq<int>, p: int): (k: nat)
    requires p in r
    ensures k < |r| && r[k] == p
    ensures forall j :: 0 <= j < k ==> r[j] != p
  {
    if r[0] == p then 0 else 1 + Position(r[1..], p)
  }

  /** Ticks that the tasks of a list may still use. */
  ghost function Total(rem: seq<nat>, r: seq<int>): nat
    requires forall i :: 0 <= i < |r| ==> 0 <= r[i] < |rem|
  {
    if r == [] then 0 else rem[r[0]] + Total(rem, r[1..])
  }

  /** The ticks left to all tasks ahead of `p`. */
  ghost function Wait(s: Sched, p: int): nat
    requires SInv(s) && p in s.ring
  {
    InvReady(s);
    Total(s.rem, s.ring[..Position(s.ring, p)])
  }

  lemma {:induction false} TotalAppend(rem: seq<nat>, a: seq<int>, b: seq<int>)
    requires forall i :: 0 <= i < |a| ==> 0 <= a[i] < |rem|
    requires forall i :: 0 <= i < |b| ==> 0 <= b[i] < |rem|
    ensures Total(rem, a + b) == Total(rem, a) + Total(rem, b)
  {
    if a == [] {
      assert a + b == b;
    } else {
      assert (a + b)[0] == a[0] && (a + b)[1..] == a[1..] + b;
      TotalAppend(rem, a[1..], b);
    }
  }

  /** Only the listed tasks matter to a total. */
  lemma TotalSame(rem: seq<nat>, rem': seq<nat>, r: seq<int>)
    requires |rem| == |rem'|
    requires forall i :: 0 <= i < |r| ==> 0 <= r[i] < |rem| && rem[r[i]] == rem'[r[i]]
    ensures Total(rem, r) == Total(rem', r)
  {
  }

  lemma {:induction false} TotalBound(rem: seq<nat>, r: seq<int>)
    requires forall i :: 0 <= i < |r| ==> 0 <= r[i] < |rem| && rem[r[i]] <= DEFAULT_QUANTUM
    ensures Total(rem, r) <= DEFAULT_QUANTUM * |r|
  {
    if r != [] {
      TotalBound(rem, r[1..]);
    }
  }

  /** The wait is never more than a full quantum of every other task. */
  lemma WaitBound(s: Sched, p: int)
    requires SInv(s) && p in s.ring
    ensures Wait(s, p) <= DEFAULT_QUANTUM * (MAX_PID - 1)
    ensures Wait(s, p) == 0 <==> s.ring[0] == p
  {
    InvReady(s);
    var k := Position(s.ring, p);
    forall i | 0 <= i < k ensures s.rem[s.ring[i]] <= DEFAULT_QUANTUM {
      assert s.ring[i] in s.ring;
    }
    TotalBound(s.rem, s.ring[..k]);
    DistinctShort(s.ring + s.free);
    if k > 0 {
      assert s.ring[..k][0] in s.ring;
    }
  }

  lemma DistinctShort(s: seq<int>)
    requires Pids(s)
    ensures |s| <= MAX_PID
  {
    var a := set i | 0 <= i < |s| :: s[i];
    ImageSize(s, |s|);
    SubsetSize(a, Below(MAX_PID));
  }

  lemma {:induction false} ImageSize(s: seq<int>, n: nat)
    requires n <= |s| && forall i, j :: 0 <= i < j < |s| ==> s[i] != s[j]
    ensures |set i | 0 <= i < n :: s[i]| == n
  {
    if n > 0 {
      ImageSize(s, n - 1);
      assert (set i | 0 <= i < n :: s[i]) == (set i | 0 <= i < n - 1 :: s[i]) + {s[n - 1]};
    }
  }

  ghost function Below(n: nat): (r: set<int>)
    ensures |r| == n && forall x :: x in r <==> 0 <= x < n
  {
    if n == 0 then {} else Below(n - 1) + {n - 1}
  }

  lemma SubsetSize(a: set<int>, b: set<int>)
    requires a <= b
    ensures |a| <= |b|
  {
    assert b == a + (b - a);
  }

  lemma PositionUnique(r: seq<int>, p: int, k: nat)
    requires k < |r| && r[k] == p && forall j :: 0 <= j < k ==> r[j] != p
    ensures Position(r, p) == k
  {
  }

  /** After the head moves `k` places, `p` has the tasks in between ahead of it. */
  lemma RotatedAhead(s: Sched, p: int, k: nat)
    requires SInv(s) && p in s.ring && k <= Position(s.ring, p)
    ensures p in Rotated(s.ring, k)
    ensures Rotated(s.ring, k)[..Position(Rotated(s.ring, k), p)] == s.ring[k..Position(s.ring, p)]
  {
    var r := Rotated(s.ring, k);
    var m := Position(s.ring, p);
    assert r[m - k] == p;
    forall j | 0 <= j < m - k ensures r[j] != p {
      assert r[j] == s.ring[j + k];
    }
    PositionUnique(r, p, m - k);
  }

  lemma TotalSplit(rem: seq<nat>, r: seq<int>, k: nat, m: nat)
    requires k <= m <= |r| && forall i :: 0 <= i < |r| ==> 0 <= r[i] < |rem|
    ensures Total(rem, r[..k]) + Total(rem, r[k..m]) == Total(rem, r[..m])
  {
    TotalAppend(rem, r[..k], r[k..m]);
    assert r[..k] + r[k..m] == r[..m];
  }

  /** Changing the quantum of a task that is not ahead, and moving the head, leave a part of the total. */
  lemma RotatedWait(s: Sched, t: Sched, p: int, k: nat)
    requires SInv(s) && SInv(t) && Ready(s) && p in s.ring && k <= Position(s.ring, p)
    requires t.ring == Rotated(s.ring, k)
    requires forall i :: k <= i < |s.ring| ==> t.rem[s.ring[i]] == s.rem[s.ring[i]]
    ensures p in t.ring && Wait(t, p) == Total(s.rem, s.ring[k..Position(s.ring, p)])
    ensures Total(s.rem, s.ring[..k]) + Wait(t, p) == Wait(s, p)
  {
    var m := Position(s.ring, p);
    RotatedAhead(s, p, k);
    TotalSame(s.rem, t.rem, s.ring[k..m]);
    TotalSplit(s.rem, s.ring, k, m);
  }

  /** The search for the next task never passes over one that can run. */
  lemma NextBefore(s: Sched, p: int)
    requires SInv(s) && Runnable(s, p) && s.ring[0] != p
    ensures Ready(s) && 0 < NextIndex(s) <= Position(s.ring, p)
  {
    NextIsRunnable(s);
    assert !s.blocked[s.ring[Position(s.ring, p)]];
  }

  /** A tick brings every task that can run nearer to the processor. */
  lemma TickWait(s: Sched, p: int)
    requires SInv(s) && Runnable(s, p) && s.ring[0] != p
    ensures Ready(s) && SInv(SchedTick(s)) && Runnable(SchedTick(s), p)
    ensures Wait(SchedTick(s), p) < Wait(s, p)
  {
    TickInv(s);
    InvReady(s);
    var t := SchedTick(s);
    var head := s.ring[0];
    var k := NextIndex(s);
    var m := Position(s.ring, p);
    assert 1 <= s.rem[head];
    if s.rem[head] == 1 {
      NextBefore(s, p);
      RotatedWait(s, t, p, k);
      assert s.ring[..k][0] == head;
    } else {
      assert s.ring[..m] == [head] + s.ring[1..m];
      TotalSame(s.rem, t.rem, s.ring[1..m]);
    }
  }

  /** A block of the head only moves the head towards `p`. */
  lemma BlockWait(s: Sched, p: int)
    requires SInv(s) && Runnable(s, p) && s.ring[0] != p && s.ring[0] != 0
    ensures Ready(s) && SInv(SchedBlock(s)) && Runnable(SchedBlock(s), p)
    ensures Wait(SchedBlock(s), p) <= Wait(s, p)
  {
    BlockInv(s);
    InvReady(s);
    NextBefore(s, p);
    RotatedWait(s, SchedBlock(s), p, NextIndex(s));
  }

  lemma ExitWait(s: Sched, p: int)
    requires SInv(s) && Runnable(s, p) && s.ring[0] != p && s.ring[0] != 0
    ensures Ready(s) && SInv(SchedExit(s)) && Runnable(SchedExit(s), p)
    ensures Wait(SchedExit(s), p) <= Wait(s, p)
  {
    ExitInv(s);
    InvReady(s);
    var t := SchedExit(s);
    var m := Position(s.ring, p);
    PositionUnique(t.ring, p, m - 1);
    assert s.ring[..m] == [s.ring[0]] + s.ring[1..m];
    assert t.ring[..m - 1] == s.ring[1..m];
  }

  lemma LoadWait(s: Sched, p: int)
    requires SInv(s) && Runnable(s, p) && s.free != []
    ensures Ready(s) && SInv(SchedLoad(s)) && Runnable(SchedLoad(s), p)
    ensures Wait(SchedLoad(s), p) == Wait(s, p)
  {
    LoadInv(s);
    InvReady(s);
    var t := SchedLoad(s);
    var m := Position(s.ring, p);
    PositionUnique(t.ring, p, m);
    assert t.ring[..m] == s.ring[..m];
    assert s.free[0] !in s.ring;
    TotalSame(s.rem, t.rem, s.ring[..m]);
  }

  /** No event makes a task that can run wait longer, and each tick makes it wait less. */
  lemma StepWait(s: Sched, e: Event, p: int)
    requires SInv(s) && Legal(s, e) && Runnable(s, p) && s.ring[0] != p
    ensures SInv(Step(s, e)) && Runnable(Step(s, e), p)
    ensures Wait(Step(s, e), p) + (if e.Tick? then 1 else 0) <= Wait(s, p)
  {
    match e
    case Load => LoadWait(s, p);
    case Unblock(q) => UnblockInv(s, q);
    case Block => BlockWait(s, p);
    case Exit => ExitWait(s, p);
    case Tick => TickWait(s, p);
  }

  // ---- runs --------------------------------------------------------------------------------------

  ghost predicate StepsTo(s: Sched, e: Event, t: Sched) {
    SInv(s) && Legal(s, e) && t == Step(s, e)
  }

  ghost predicate IsRun(run: seq<Sched>, es: seq<Event>) {
    |run| == |es| + 1 && forall i :: 0 <= i < |es| ==> StepsTo(run[i], es[i], run[i + 1])
  }

  ghost function Ticks(es: seq<Event>): nat {
    if es == [] then 0 else Ticks(es[..|es| - 1]) + (if es[|es| - 1].Tick? then 1 else 0)
  }

  ghost predicate NeverHead(run: seq<Sched>, p: int) {
    forall i :: 0 <= i < |run| ==> run[i].ring != [] && run[i].ring[0] != p
  }

  /** As long as a task that can run has not been the head, its wait pays for every tick. */
  lemma {:induction false} WaitPays(run: seq<Sched>, es: seq<Event>, p: int, n: nat)
    requires IsRun(run, es) && SInv(run[0]) && Runnable(run[0], p) && NeverHead(run, p) && n <= |es|
    ensures SInv(run[n]) && Runnable(run[n], p)
    ensures Ticks(es[..n]) + Wait(run[n], p) <= Wait(run[0], p)
  {
    if n > 0 {
      WaitPays(run, es, p, n - 1);
      assert StepsTo(run[n - 1], es[n - 1], run[n]);
      StepWait(run[n - 1], es[n - 1], p);
      assert es[..n][..n - 1] == es[..n - 1];
    }
  }

  /**
   Bounded waiting. In a run with 20 * 31 ticks or more, a task that can run at the start is
   the head at some point, whatever loads, wake-ups, blocks and exits happen in between.
   */
  lemma BoundedWaiting(run: seq<Sched>, es: seq<Event>, p: int)
    requires IsRun(run, es) && SInv(run[0]) && Runnable(run[0], p)
    requires Ticks(es) >= DEFAULT_QUANTUM * (MAX_PID - 1)
    ensures exists i :: 0 <= i < |run| && run[i].ring != [] && run[i].ring[0] == p
  {
    forall i | 0 <= i < |run| ensures run[i].ring != [] {
      RunInv(run, es, i);
    }
    if NeverHead(run, p) {
      WaitPays(run, es, p, |es|);
      assert es[..|es|] == es;
      WaitBound(run[0], p);
      WaitBound(run[|es|], p);
    }
  }

  lemma {:induction false} RunInv(run: seq<Sched>, es: seq<Event>, i: nat)
    requires IsRun(run, es) && SInv(run[0]) && i < |run|
    ensures SInv(run[i])
  {
    if i > 0 {
      RunInv(run, es, i - 1);
      assert StepsTo(run[i - 1], es[i - 1], run[i]);
      StepInv(run[i - 1], es[i - 1]);
    }
  }
}
