/**
 Whole runs of the memory manager: from boot, through any sequence of process creation,
 allocation, user reads and writes, sharing, fork and exit.
 */
module PagingRuns {
  import opened Common
  import opened PagingModel
  import opened PagingInvariant
  import opened PagingRefinement

  datatype Op =
    | Start(pid: nat)
    | Place(pid: nat, v: nat)
    | Palloc(pid: nat)
    | Load(pid: nat, v: nat, off: nat)
    | Store(pid: nat, v: nat, off: nat, b: byte)
    | Share(pid: nat, v: nat, ok: bool)
    | DoFork(pid: nat, child: nat)
    | DoExit(pid: nat)

  /**
   Processes that exist, user addresses, offsets inside a page, a new pid for a new process;
   `ok` is whether share_page returned 0.
   */
  ghost predicate Legal(s: Mem, op: Op)
    requires Wf(s)
  {
    match op
    case Start(pid) => pid !in s.pds
    case Place(pid, v) => UserPage(s, pid, v)
    case Palloc(pid) => pid in s.pds
    case Load(pid, v, off) => UserPage(s, pid, v) && off < PAGE_SIZE
    case Store(pid, v, off, b) => UserPage(s, pid, v) && off < PAGE_SIZE
    case Share(pid, v, ok) => UserPage(s, pid, v) && (ok <==> ShareResult(s, pid, v) == Shared0)
    case DoFork(pid, child) => pid in s.pds && child !in s.pds
    case DoExit(pid) => pid in s.pds
  }

  ghost function WriteByte(s: Mem, pid: nat, v: nat, off: nat, b: byte): Mem
    requires Wf(s) && UserPage(s, pid, v) && s.pds[pid][v].Present? && off < PAGE_SIZE
  {
    assert WfPd(s, s.pds[pid]) && WfPte(s, v, s.pds[pid][v]);
    var f := s.pds[pid][v].frame;
    s.(page := s.page[f := s.page[f][off := b]])
  }

  ghost function Next(s: Mem, op: Op): Outcome
    requires Wf(s) && Legal(s, op)
  {
    match op
    case Start(pid) => Ok(Spawn(s, pid))
    case Place(pid, v) => NewUserPage(s, pid, v)
    case Palloc(pid) => RequestPage(s, pid)
    case Load(pid, v, off) => Touch(s, pid, v, false)
    case Store(pid, v, off, b) =>
      var r := Touch(s, pid, v, true);
      if r.Ok? && r.m.pds[pid][v].Present? then Ok(WriteByte(r.m, pid, v, off, b)) else r
    case Share(pid, v, _) => SharePage(s, pid, v)
    case DoFork(pid, child) => Ok(Fork(s, pid, child))
    case DoExit(pid) => Ok(Exit(s, pid))
  }

  /**
   One operation of the simple memory. `p` are the bytes of a page that had none yet, `c`
   the cell of a newly shared page, `v` the address that palloc picks.
   */
  ghost predicate ANext(a: AMem, op: Op, p: Page, c: nat, w: nat, a': AMem) {
    match op
    case Start(pid) => pid !in a.spaces && a' == ASpawn(a, pid)
    case Place(pid, v) => AUser(a, pid, v) && a' == ASet(a, pid, v, Private(p))
    case Palloc(pid) => AUser(a, pid, w) && a.spaces[pid][w] == Unmapped && a' == ASet(a, pid, w, Untouched)
    case Load(pid, v, off) => AUser(a, pid, v) && a' == ASettle(a, pid, v, p)
    case Store(pid, v, off, b) =>
      && AUser(a, pid, v) && off < PAGE_SIZE
      && var s := ASettle(a, pid, v, p);
         ARead(s, pid, v).Some? && a' == AWrite(s, pid, v, ARead(s, pid, v).value[off := b])
    case Share(pid, v, ok) =>
      && AUser(a, pid, v)
      && (ok ==> !a.spaces[pid][v].Unmapped?)
      && var s := ASettle(a, pid, v, p);
         && (s.spaces[pid][v].Private? ==> !Aliased(s, c))
         && a' == (if ok then AShare(s, pid, v, c) else s)
    case DoFork(pid, child) => pid in a.spaces && child !in a.spaces && a' == AFork(a, pid, child)
    case DoExit(pid) => pid in a.spaces && a' == AExit(a, pid)
  }

  ghost predicate AStep(a: AMem, op: Op, a': AMem) {
    exists p: Page, c: nat, w: nat :: ANext(a, op, p, c, w, a')
  }

  /** Fork passes over pages that are in the swap area, so it needs there to be none. */
  ghost predicate ForkSees(s: Mem, op: Op) {
    op.DoFork? ==> NoSwapped(s, op.pid)
  }

  lemma StepInv(s: Mem, op: Op)
    requires Inv(s) && Legal(s, op) && Next(s, op).Ok?
    ensures Inv(Next(s, op).m)
    ensures Reserve(s) ==> Reserve(Next(s, op).m)
  {
    match op
    case Start(pid) => SpawnInv(s, pid);
    case Place(pid, v) => NewUserPageInv(s, pid, v);
    case Palloc(pid) => RequestPageInv(s, pid);
    case Load(pid, v, off) => TouchInv(s, pid, v, false);
    case Store(pid, v, off, b) =>
      TouchInv(s, pid, v, true);
      ContentInv(Touch(s, pid, v, true).m, Next(s, op).m);
    case Share(pid, v, _) => SharePageInv(s, pid, v);
    case DoFork(pid, child) => ForkInv(s, pid, child);
    case DoExit(pid) => ExitInv(s, pid);
  }

  /** A step of the memory manager is a step of the simple memory exactly if it is no fork that passes over pages. */
  lemma StepRefines(s: Mem, op: Op)
    requires Inv(s) && Legal(s, op) && Next(s, op).Ok?
    ensures AStep(Abs(s), op, Abs(Next(s, op).m)) <==> ForkSees(s, op)
  {
    if ForkSees(s, op) {
      StepServes(s, op);
    } else {
      ForkAbs(s, op.pid, op.child);
    }
  }

  lemma StepServes(s: Mem, op: Op)
    requires Inv(s) && Legal(s, op) && Next(s, op).Ok? && ForkSees(s, op)
    ensures AStep(Abs(s), op, Abs(Next(s, op).m))
  {
    var t := Next(s, op).m;
    var p: Page, c: nat, w: nat := *, *, *;
    match op {
      case Start(pid) => SpawnAbs(s, pid);
      case Place(pid, v) =>
        NewUserPageAbs(s, pid, v);
        p := t.page[t.pds[pid][v].frame];
      case Palloc(pid) =>
        w := Seek(s, pid).lastUnused;
        RequestAbs(s, pid);
      case Load(pid, v, off) => p := TouchAbs(s, pid, v, false);
      case Store(pid, v, off, b) => p := StoreAbs(s, pid, v, off, b);
      case Share(pid, v, _) => p, c := SharePageAbs(s, pid, v);
      case DoFork(pid, child) => ForkAbs(s, pid, child);
      case DoExit(pid) => ExitAbs(s, pid);
    }
    assert ANext(Abs(s), op, p, c, w, Abs(t));
  }

  lemma RequestAbs(s: Mem, pid: nat)
    requires Inv(s) && pid in s.pds && RequestPage(s, pid).Ok?
    ensures var w := Seek(s, pid).lastUnused;
      && AUser(Abs(s), pid, w) && Abs(s).spaces[pid][w] == Unmapped
      && Abs(RequestPage(s, pid).m) == ASet(Abs(s), pid, w, Untouched)
  {
    var m := Seek(s, pid);
    SeekInv(s, pid);
    SeekAbs(s, pid);
    forall p: nat, x: nat, f: nat | SharedAt(m, p, x, f) ensures f < |m.page| {
      MappedNotFree(m, p, x, f);
    }
    AbsOne(m, RequestPage(s, pid).m, pid, m.lastUnused);
  }

  lemma StoreAbs(s: Mem, pid: nat, v: nat, off: nat, b: byte) returns (p: Page)
    requires Inv(s) && Legal(s, Store(pid, v, off, b)) && Next(s, Store(pid, v, off, b)).Ok?
    ensures ANext(Abs(s), Store(pid, v, off, b), p, 0, 0, Abs(Next(s, Store(pid, v, off, b)).m))
  {
    var m := Touch(s, pid, v, true).m;
    TouchInv(s, pid, v, true);
    p := TouchAbs(s, pid, v, true);
    ReadAgrees(m, pid, v);
    assert PteOk(m, m.pds[pid][v]);
    WriteAbs(m, pid, v, m.page[m.pds[pid][v].frame][off := b]);
  }

  // ---- runs -------------------------------------------------------------------------------

  /** Memory after `mm_init`: `n` user frames, all free, holding anything. */
  ghost function Boot(contents: seq<Page>): Mem {
    Mem(seq(|contents|, _ => 0), seq(|contents|, i => i), contents, map[], [], KERNEL_LIMIT)
  }

  lemma BootInv(contents: seq<Page>)
    ensures Inv(Boot(contents)) && (|contents| >= LOW_WATER - 1 ==> Reserve(Boot(contents)))
  {
    var s := Boot(contents);
    forall f | 0 <= f < |s.count| ensures s.count[f] == |Maps(s, f)| && f in s.free {
      assert Maps(s, f) == {};
      assert s.free[f] == f;
    }
  }

  ghost predicate StepsTo(s: Mem, op: Op, t: Mem) {
    Wf(s) && Legal(s, op) && Next(s, op) == Ok(t)
  }

  ghost predicate IsRun(run: seq<Mem>, ops: seq<Op>) {
    && |run| == |ops| + 1
    && (forall i :: 0 <= i < |ops| ==> StepsTo(run[i], ops[i], run[i + 1]))
  }

  /** Counts, kinds and the free list are right, and nine frames are free if nine ever were, in every reachable state. */
  lemma {:induction false} RunInv(run: seq<Mem>, ops: seq<Op>, contents: seq<Page>, i: nat)
    requires IsRun(run, ops) && run[0] == Boot(contents) && i < |run|
    ensures Inv(run[i]) && (|contents| >= LOW_WATER - 1 ==> Reserve(run[i]))
  {
    if i == 0 {
      BootInv(contents);
    } else {
      RunInv(run, ops, contents, i - 1);
      assert StepsTo(run[i - 1], ops[i - 1], run[i]);
      StepInv(run[i - 1], ops[i - 1]);
    }
  }

  /**
   Over every run, the processes see a run of the simple memory, step by step, exactly as
   long as no fork passes over pages that are in the swap area.
   */
  lemma RunRefines(run: seq<Mem>, ops: seq<Op>, contents: seq<Page>)
    requires IsRun(run, ops) && run[0] == Boot(contents)
    ensures Abs(run[0]) == AMem(map[], map[])
    ensures forall i :: 0 <= i < |ops| ==> (AStep(Abs(run[i]), ops[i], Abs(run[i + 1])) <==> ForkSees(run[i], ops[i]))
  {
    assert Cells(run[0]) == map[];
    assert Abs(run[0]).spaces == map[];
    forall i | 0 <= i < |ops| ensures AStep(Abs(run[i]), ops[i], Abs(run[i + 1])) <==> ForkSees(run[i], ops[i]) {
      RunInv(run, ops, contents, i);
      assert StepsTo(run[i], ops[i], run[i + 1]);
      StepRefines(run[i], ops[i]);
    }
  }

  /** What a load returns is what the simple memory holds there. */
  lemma LoadReturns(s: Mem, pid: nat, v: nat, off: nat)
    requires Inv(s) && Legal(s, Load(pid, v, off)) && Next(s, Load(pid, v, off)).Ok?
    ensures var t := Next(s, Load(pid, v, off)).m;
      && t.pds[pid][v].Present? && t.pds[pid][v].frame < |t.page|
      && ARead(Abs(t), pid, v) == Some(t.page[t.pds[pid][v].frame])
  {
    var p := TouchAbs(s, pid, v, false);
    TouchInv(s, pid, v, false);
    ReadAgrees(Touch(s, pid, v, false).m, pid, v);
  }

  // ---- when an access is served --------------------------------------------------------------

  /** A frame can be had: enough are free, or a page can be evicted and a swap slot is left. */
  ghost predicate RoomFor(s: Mem, pid: nat) {
    && pid in s.pds && |s.pds[pid]| == V_PAGES
    && (|| |s.free| >= LOW_WATER
        || (&& |s.disk| < SWAP_SLOTS
            && exists v :: KERNEL_LIMIT < v < STACK_PAGE && s.pds[pid][v].Present? && s.pds[pid][v].kind.Assigned?))
  }

  lemma NewUserPageServed(s: Mem, pid: nat, v: nat)
    requires Inv(s) && UserPage(s, pid, v) && !s.pds[pid][v].Present?
    ensures NewUserPage(s, pid, v).Ok? <==> RoomFor(s, pid)
    ensures NewUserPage(s, pid, v).Ok? ==>
      |NewUserPage(s, pid, v).m.disk| == |s.disk| + if |s.free| < LOW_WATER then 1 else 0
  {
    if |s.free| < LOW_WATER {
      var r := LastAssigned(s.pds[pid], STACK_PAGE);
      if MakeRoom(s, pid).Ok? {
        MakeRoomInv(s, pid);
        assert EvictedOrSame(s, MakeRoom(s, pid).m, pid, v);
      }
    }
  }

  /**
   A mapped page is reached after at most one fault, exactly when the fault that serves the
   access can have what it needs: a frame, and an address to borrow while it copies.
   */
  lemma AccessServed(s: Mem, pid: nat, v: nat, write: bool)
    requires Inv(s) && UserPage(s, pid, v)
    ensures Touch(s, pid, v, write).Ok? <==>
      match s.pds[pid][v]
      case Present(f, Cow, _) =>
        !write || s.count[f] == 1 || (RoomFor(s, pid) && FirstInvalid(s.pds[pid], s.lastUnused).Some?)
      case Present(_, _, _) => true
      case Requested => RoomFor(s, pid)
      case Swapped(_) => RoomFor(s, pid)
      case _ => false
    ensures Touch(s, pid, v, write).Ok? ==> Accessible(Touch(s, pid, v, write).m, pid, v, write)
  {
    var e := s.pds[pid][v];
    assert WfPd(s, s.pds[pid]) && WfPte(s, v, e) && PteOk(s, e);
    if Touch(s, pid, v, write).Ok? {
      var p := TouchAbs(s, pid, v, write);
    }
    if e.Present? {
      MappedNotFree(s, pid, v, e.frame);
      CopyServed(s, pid, v);
    } else {
      NewUserPageServed(s, pid, v);
    }
  }

  lemma CopyServed(s: Mem, pid: nat, v: nat)
    requires Inv(s) && UserPage(s, pid, v) && s.pds[pid][v].Present? && s.pds[pid][v].frame < |s.count|
    ensures LoadCow(s, pid, v).Ok? <==>
      s.count[s.pds[pid][v].frame] <= 1 || (RoomFor(s, pid) && FirstInvalid(s.pds[pid], s.lastUnused).Some?)
  {
    if FirstInvalid(s.pds[pid], s.lastUnused).Some? {
      var s1 := Seek(s, pid);
      SeekInv(s, pid);
      NewUserPageServed(s1, pid, s1.lastUnused);
      assert RoomFor(s, pid) <==> RoomFor(s1, pid);
    }
  }

  /**
   share_page goes through exactly when the page that it needs can be had: a frame for a
   requested page, a frame and an address to borrow for a copy-on-write page with company.
   */
  lemma SharePageServed(s: Mem, pid: nat, v: nat)
    requires Inv(s) && UserPage(s, pid, v)
    ensures SharePage(s, pid, v).Ok? <==>
      match s.pds[pid][v]
      case Requested => RoomFor(s, pid)
      case Present(f, Cow, _) => s.count[f] == 1 || (RoomFor(s, pid) && FirstInvalid(s.pds[pid], s.lastUnused).Some?)
      case _ => true
    ensures SharePage(s, pid, v).Ok? && (s.pds[pid][v].Requested? || s.pds[pid][v].Present?) ==>
      var t := SharePage(s, pid, v).m; t.pds[pid][v].Present? && t.pds[pid][v].kind.Shared?
  {
    var e := s.pds[pid][v];
    assert WfPd(s, s.pds[pid]) && WfPte(s, v, e) && PteOk(s, e);
    if e.Present? {
      MappedNotFree(s, pid, v, e.frame);
      CopyServed(s, pid, v);
    } else {
      NewUserPageServed(s, pid, v);
    }
  }

  /**
   palloc goes through exactly when an address is left, and takes the first one from the
   last on that was found; no other entry changes.
   */
  lemma PallocServed(s: Mem, pid: nat)
    requires Wf(s) && pid in s.pds
    ensures RequestPage(s, pid).Ok? <==> exists v :: s.lastUnused <= v < V_PAGES && s.pds[pid][v].Invalid?
    ensures RequestPage(s, pid).Ok? ==>
      var t := RequestPage(s, pid).m; var a := t.lastUnused;
      && s.lastUnused <= a < V_PAGES && s.pds[pid][a].Invalid? && t.pds[pid][a].Requested?
      && (forall v :: s.lastUnused <= v < a ==> !s.pds[pid][v].Invalid?)
      && t == s.(lastUnused := a, pds := s.pds[pid := s.pds[pid][a := Requested]])
  {
    var a := FirstInvalid(s.pds[pid], s.lastUnused);
    if a.None? {
      assert forall v :: s.lastUnused <= v < V_PAGES ==> !s.pds[pid][v].Invalid?;
    } else {
      assert s.pds[pid][a.value].Invalid?;
    }
  }

  /** The highest assigned page between the kernel's memory and the stack. */
  ghost predicate Victim(s: Mem, pid: nat, v: nat)
    requires pid in s.pds && |s.pds[pid]| == V_PAGES
  {
    && KERNEL_LIMIT < v < STACK_PAGE && s.pds[pid][v].Present? && s.pds[pid][v].kind.Assigned?
    && forall w :: v < w < STACK_PAGE ==> !(s.pds[pid][w].Present? && s.pds[pid][w].kind.Assigned?)
  }

  /**
   Eviction goes through exactly when there are a victim and a swap id. The victim's bytes
   go under the next id, which its entry then holds, and its frame is free; no other entry,
   frame or swapped page changes.
   */
  lemma SwapOutServed(s: Mem, pid: nat)
    requires Inv(s) && pid in s.pds
    ensures SwapOut(s, pid).Ok? <==> |s.disk| < SWAP_SLOTS && exists v: nat :: Victim(s, pid, v)
    ensures SwapOut(s, pid).Ok? ==> forall v: nat :: Victim(s, pid, v) ==>
      var t := SwapOut(s, pid).m; var f := s.pds[pid][v].frame;
      && f < |s.page| && t.disk == s.disk + [s.page[f]]
      && t.pds == s.pds[pid := s.pds[pid][v := Swapped(|s.disk|)]]
      && t.count == s.count[f := 0] && f in t.free && (forall g :: g in s.free ==> g in t.free)
      && t.page == s.page && t.lastUnused == s.lastUnused
  {
    var r := LastAssigned(s.pds[pid], STACK_PAGE);
    if r.Some? {
      var v := r.value;
      assert Victim(s, pid, v);
      assert forall w: nat :: Victim(s, pid, w) ==> w == v;
      MappedNotFree(s, pid, v, s.pds[pid][v].frame);
      assert PteOk(s, s.pds[pid][v]);
    } else {
      assert forall w: nat :: !Victim(s, pid, w);
    }
  }

  // ---- kernel writes ---------------------------------------------------------------------------

  /**
   The kernel runs with write protection off (CR0.WP is never set), so when a system call
   stores into a present user page the read-only bit does not stop it.
   */
  ghost function KernelStore(s: Mem, pid: nat, v: nat, x: Page): Mem
    requires Wf(s) && UserPage(s, pid, v) && s.pds[pid][v].Present?
  {
    assert WfPd(s, s.pds[pid]) && WfPte(s, v, s.pds[pid][v]);
    s.(page := s.page[s.pds[pid][v].frame := x])
  }

  /** Such a store stays inside the process exactly when the page is not a copy-on-write page with company. */
  lemma KernelStoreAbs(s: Mem, pid: nat, v: nat)
    requires Inv(s) && UserPage(s, pid, v) && s.pds[pid][v].Present?
    ensures (forall x: Page :: Abs(KernelStore(s, pid, v, x)) == AWrite(Abs(s), pid, v, x))
       <==> !(s.pds[pid][v].kind.Cow? && s.count[s.pds[pid][v].frame] > 1)
  {
    var f := s.pds[pid][v].frame;
    assert MapsTo(s, pid, v, f);
    MappedNotFree(s, pid, v, f);
    if s.pds[pid][v].kind.Cow? && s.count[f] > 1 {
      var x: Page := s.page[f][0 := s.page[f][0] ^ 1];
      assert x[0] != s.page[f][0];
      OtherMapping(s, pid, v, f, x);
    } else {
      forall x: Page ensures Abs(KernelStore(s, pid, v, x)) == AWrite(Abs(s), pid, v, x) {
        WriteAbs(s, pid, v, x);
      }
    }
  }

  lemma OtherMapping(s: Mem, pid: nat, v: nat, f: nat, x: Page)
    requires Inv(s) && UserPage(s, pid, v) && MapsTo(s, pid, v, f) && s.pds[pid][v].kind.Cow?
    requires f < |s.count| && s.count[f] > 1 && x != s.page[f]
    ensures Abs(KernelStore(s, pid, v, x)) != AWrite(Abs(s), pid, v, x)
  {
    var rest := Maps(s, f) - {(pid, v)};
    assert (pid, v) in Maps(s, f);
    assert |rest| > 0;
    var m :| m in rest;
    assert MapsTo(s, m.0, m.1, f);
    var t := KernelStore(s, pid, v, x);
    assert Abs(t).spaces[m.0][m.1] == Private(x);
    assert Abs(s).spaces[m.0][m.1] == Private(s.page[f]);
    assert AWrite(Abs(s), pid, v, x).spaces[m.0][m.1] == Private(s.page[f]);
  }
}
