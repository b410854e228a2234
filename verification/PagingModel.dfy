/**
 The user half of the memory manager: page frames with reference counts, the free list,
 page table entries, the swap area, and the fault handler that drives them.

 `Mem` is the state that `mm.c` keeps, as a value. Every function below is one routine of
 the kernel; `MemoryManager` proves the imperative routines against them, `PagingInvariant`
 and `PagingRefinement` prove what they are for.
 */
module PagingModel {
  import opened Common

  /** Page numbers: kernel memory ends at page 0x400, user stacks start at page 0xC0000. */
  const KERNEL_LIMIT: nat := 0x400
  const STACK_PAGE: nat := 0xC0000
  const V_PAGES: nat := 0x100000

  /** A page is swapped out when fewer frames than this are free. */
  const LOW_WATER: nat := 10

  /** 512 swap files of three pages. */
  const SWAP_SLOTS: nat := 1536

  /** What the AVL bits say about a present page. */
  datatype Kind = Assigned | Shared | Cow

  /** `Kernel` is an identity-mapped page of kernel memory; `Swapped` holds a swap id. */
  datatype Pte =
    | Invalid
    | Kernel
    | Requested
    | Swapped(id: nat)
    | Present(frame: nat, kind: Kind, writable: bool)

  type Pd = seq<Pte>

  /** `disk[i]` is the page unloaded under swap id `i`, so `|disk|` is the next id. */
  datatype Mem = Mem(
    count: seq<nat>,
    free: seq<nat>,
    page: seq<Page>,
    pds: map<nat, Pd>,
    disk: seq<Page>,
    lastUnused: nat)

  /** Why the kernel stops: it panics, or it runs on without a victim, a slot or an address. */
  datatype Halt = NoVictim | SwapFull | AlreadyMapped | NoAddress | BadFault

  datatype Outcome = Ok(m: Mem) | Stop(why: Halt)

  /** Sizes and ranges that every routine relies on. */
  ghost predicate Wf(s: Mem) {
    && |s.page| == |s.count|
    && (forall i :: 0 <= i < |s.free| ==> s.free[i] < |s.count|)
    && (forall p :: p in s.pds ==> WfPd(s, s.pds[p]))
    && KERNEL_LIMIT <= s.lastUnused < V_PAGES
  }

  ghost predicate WfPd(s: Mem, pd: Pd) {
    && |pd| == V_PAGES
    && (forall v :: 0 <= v < V_PAGES ==> WfPte(s, v, pd[v]))
  }

  ghost predicate WfPte(s: Mem, v: nat, e: Pte) {
    && (e.Kernel? <==> v < KERNEL_LIMIT)
    && (e.Present? ==> e.frame < |s.count|)
    && (e.Swapped? ==> e.id < |s.disk|)
  }

  /** User pages of a process that exists. */
  predicate UserPage(s: Mem, pid: nat, v: nat) {
    pid in s.pds && KERNEL_LIMIT <= v < V_PAGES && |s.pds[pid]| == V_PAGES
  }

  function SetPte(s: Mem, pid: nat, v: nat, e: Pte): (s': Mem)
    requires UserPage(s, pid, v)
    ensures Wf(s) && WfPte(s, v, e) ==> Wf(s')
  {
    s.(pds := s.pds[pid := s.pds[pid][v := e]])
  }

  // ---- frames -------------------------------------------------------------------------

  /** `add_page_to_list`: a returned frame goes right behind the head. */
  function InsertAfterHead(free: seq<nat>, f: nat): seq<nat> {
    if free == [] then [f] else [free[0], f] + free[1..]
  }

  function ReturnPage(s: Mem, f: nat): (s': Mem)
    requires f < |s.count|
    ensures Wf(s) ==> Wf(s')
  {
    if s.count[f] == 0 then s
    else if s.count[f] == 1 then s.(count := s.count[f := 0], free := InsertAfterHead(s.free, f))
    else s.(count := s.count[f := s.count[f] - 1])
  }

  /** `reserve_page` on the head of the free list. */
  function TakeFree(s: Mem): (s': Mem)
    requires s.free != [] && s.free[0] < |s.count|
    ensures Wf(s) ==> Wf(s')
  {
    s.(count := s.count[s.free[0] := s.count[s.free[0]] + 1], free := s.free[1..])
  }

  // ---- searches -----------------------------------------------------------------------

  /** The first page from `v` up whose entry is zero. */
  function FirstInvalid(pd: Pd, v: nat): (r: Option<nat>)
    requires |pd| == V_PAGES
    ensures r.Some? ==> v <= r.value < V_PAGES && pd[r.value].Invalid?
    ensures forall w :: v <= w < (if r.Some? then r.value else V_PAGES) ==> !pd[w].Invalid?
    decreases V_PAGES - v
  {
    if v >= V_PAGES then None
    else if pd[v].Invalid? then Some(v)
    else FirstInvalid(pd, v + 1)
  }

  /** The last assigned page strictly between the first user page and `v`. */
  function LastAssigned(pd: Pd, v: nat): (r: Option<nat>)
    requires |pd| == V_PAGES && v <= V_PAGES
    ensures r.Some? ==> KERNEL_LIMIT < r.value < v && pd[r.value].Present? && pd[r.value].kind.Assigned?
    ensures forall w :: (if r.Some? then r.value + 1 else KERNEL_LIMIT + 1) <= w < v ==>
      !(pd[w].Present? && pd[w].kind.Assigned?)
  {
    if v <= KERNEL_LIMIT + 1 then None
    else if pd[v - 1].Present? && pd[v - 1].kind.Assigned? then Some(v - 1)
    else LastAssigned(pd, v - 1)
  }

  // ---- routines -----------------------------------------------------------------------

  /** What every routine keeps: sizes and ranges, the processes, earlier swap slots. */
  ghost predicate Extends(s: Mem, r: Outcome) {
    r.Ok? ==>
      && Wf(r.m)
      && r.m.pds.Keys == s.pds.Keys
      && s.disk <= r.m.disk
      && |r.m.count| == |s.count|
  }

  /** `mm_swap_page_out`. */
  function SwapOut(s: Mem, pid: nat): (r: Outcome)
    requires Wf(s) && pid in s.pds
    ensures Extends(s, r)
    ensures r.Ok? ==> r.m.lastUnused == s.lastUnused
    ensures r.Ok? ==> forall v :: 0 <= v < V_PAGES ==>
      (r.m.pds[pid][v].Present? ==> s.pds[pid][v].Present?) && (r.m.pds[pid][v].Invalid? <==> s.pds[pid][v].Invalid?)
  {
    match LastAssigned(s.pds[pid], STACK_PAGE)
    case None => Stop(NoVictim)
    case Some(v) =>
      if |s.disk| >= SWAP_SLOTS then Stop(SwapFull)
      else
        var f := s.pds[pid][v].frame;
        var s1 := s.(disk := s.disk + [s.page[f]]);
        Ok(SetPte(ReturnPage(s1, f), pid, v, Swapped(|s.disk|)))
  }

  /** The eviction at the start of `new_user_page`. */
  function MakeRoom(s: Mem, pid: nat): (r: Outcome)
    requires Wf(s) && pid in s.pds
    ensures Extends(s, r)
  {
    if |s.free| < LOW_WATER then SwapOut(s, pid) else Ok(s)
  }

  /** The process has the page to itself: assigned and writable. */
  predicate OwnPage(s: Mem, pid: nat, v: nat) {
    && UserPage(s, pid, v)
    && s.pds[pid][v].Present? && s.pds[pid][v].kind.Assigned? && s.pds[pid][v].writable
    && s.pds[pid][v].frame < |s.page|
  }

  /** `new_user_page`. The frame keeps whatever bytes it held before. */
  function NewUserPage(s: Mem, pid: nat, v: nat): (r: Outcome)
    requires Wf(s) && UserPage(s, pid, v)
    ensures Extends(s, r)
    ensures r.Ok? ==> OwnPage(r.m, pid, v)
    ensures r.Ok? ==> r.m.lastUnused == s.lastUnused
  {
    var r := MakeRoom(s, pid);
    if r.Stop? then r
    else if r.m.free == [] then Stop(NoVictim)
    else if r.m.pds[pid][v].Present? then Stop(AlreadyMapped)
    else Ok(SetPte(TakeFree(r.m), pid, v, Present(r.m.free[0], Assigned, true)))
  }

  /** `seek_unused_vaddr` remembers where it found the address. */
  function Seek(s: Mem, pid: nat): (s': Mem)
    requires Wf(s) && pid in s.pds
    ensures Wf(s') && s' == s.(lastUnused := s'.lastUnused)
    ensures FirstInvalid(s.pds[pid], s.lastUnused).Some? ==>
      s'.lastUnused == FirstInvalid(s.pds[pid], s.lastUnused).value
  {
    match FirstInvalid(s.pds[pid], s.lastUnused)
    case None => s
    case Some(a) => s.(lastUnused := a)
  }

  /** `mm_request_mem_alloc`, the system call palloc. */
  function RequestPage(s: Mem, pid: nat): (r: Outcome)
    requires Wf(s) && pid in s.pds
    ensures Extends(s, r)
  {
    match FirstInvalid(s.pds[pid], s.lastUnused)
    case None => Stop(NoAddress)
    case Some(a) => Ok(SetPte(Seek(s, pid), pid, a, Requested))
  }

  /** `clone_pte`: a private copy of frame `f` under a borrowed address, which is given back. */
  function ClonePage(s: Mem, pid: nat, a: nat, f: nat): (r: Outcome)
    requires Wf(s) && UserPage(s, pid, a) && f < |s.count|
    ensures Extends(s, r)
    ensures r.Ok? ==> OwnPage(r.m, pid, a)
  {
    var r := NewUserPage(s, pid, a);
    if r.Stop? then r else
    Ok(r.m.(page := r.m.page[r.m.pds[pid][a].frame := r.m.page[f]]))
  }

  /** The copy under address `a` becomes the page at `v`; the frame `v` had is returned. */
  function MovePage(s: Mem, pid: nat, a: nat, v: nat, f: nat): (s': Mem)
    requires Wf(s) && UserPage(s, pid, a) && UserPage(s, pid, v) && f < |s.count|
    ensures Extends(s, Ok(s'))
    ensures OwnPage(s, pid, a) ==> OwnPage(s', pid, v)
  {
    var e := s.pds[pid][a];
    var s1 := SetPte(s, pid, a, Invalid);
    ReturnPage(SetPte(s1, pid, v, e), f)
  }

  /** `mm_load_cow_page` on an entry that is copy-on-write. */
  function LoadCow(s: Mem, pid: nat, v: nat): (r: Outcome)
    requires Wf(s) && UserPage(s, pid, v)
    requires s.pds[pid][v].Present?
    ensures Extends(s, r)
    ensures r.Ok? ==> OwnPage(r.m, pid, v)
  {
    var f := s.pds[pid][v].frame;
    var a := FirstInvalid(s.pds[pid], s.lastUnused);
    var s1 := Seek(s, pid);
    if s.count[f] <= 1 then Ok(SetPte(s1, pid, v, Present(f, Assigned, true)))
    else if a.None? then Stop(NoAddress)
    else
      var r := ClonePage(s1, pid, a.value, f);
      if r.Stop? then r else Ok(MovePage(r.m, pid, a.value, v, f))
  }

  /** `mm_swap_page_in`. */
  function SwapIn(s: Mem, pid: nat, v: nat): (r: Outcome)
    requires Wf(s) && UserPage(s, pid, v)
    requires s.pds[pid][v].Swapped?
    ensures Extends(s, r)
    ensures r.Ok? ==> OwnPage(r.m, pid, v)
  {
    var id := s.pds[pid][v].id;
    var r := NewUserPage(s, pid, v);
    if r.Stop? then r else
    Ok(r.m.(page := r.m.page[r.m.pds[pid][v].frame := r.m.disk[id]]))
  }

  /** Whether the processor lets a user access through; user mode never sees kernel pages. */
  predicate Accessible(s: Mem, pid: nat, v: nat, write: bool)
    requires UserPage(s, pid, v)
  {
    s.pds[pid][v].Present? && (write ==> s.pds[pid][v].writable)
  }

  predicate IsCow(e: Pte) {
    e.Present? && e.kind.Cow? && !e.writable
  }

  /** `page_fault_isr`: which fault leads to which step. */
  function Fault(s: Mem, pid: nat, v: nat, write: bool): (r: Outcome)
    requires Wf(s) && UserPage(s, pid, v)
    ensures Extends(s, r)
  {
    var e := s.pds[pid][v];
    if e.Swapped? then SwapIn(s, pid, v)
    else if e.Requested? then NewUserPage(s, pid, v)
    else if write && IsCow(e) then LoadCow(s, pid, v)
    else Stop(BadFault)
  }

  /** A user access: it faults at most once before it is let through. */
  function Touch(s: Mem, pid: nat, v: nat, write: bool): (r: Outcome)
    requires Wf(s) && UserPage(s, pid, v)
    ensures Extends(s, r)
  {
    if Accessible(s, pid, v, write) then Ok(s) else Fault(s, pid, v, write)
  }

  /** Return codes of `mm_share_page`. */
  datatype ShareCode = Shared0 | EINVALID

  /** `mm_share_page` on a user address: first materialise the page, then mark it. */
  function PrepareShare(s: Mem, pid: nat, v: nat): (r: Outcome)
    requires Wf(s) && UserPage(s, pid, v)
    ensures Extends(s, r)
  {
    var e := s.pds[pid][v];
    if e.Requested? then NewUserPage(s, pid, v)
    else if IsCow(e) then LoadCow(s, pid, v)
    else Ok(s)
  }

  function SharePage(s: Mem, pid: nat, v: nat): (r: Outcome)
    requires Wf(s) && UserPage(s, pid, v)
    ensures Extends(s, r)
  {
    var r := PrepareShare(s, pid, v);
    if r.Stop? then r
    else
      var e := r.m.pds[pid][v];
      if e.Present? then Ok(SetPte(r.m, pid, v, e.(kind := Kind.Shared))) else r
  }

  function ShareResult(s: Mem, pid: nat, v: nat): ShareCode
    requires Wf(s) && UserPage(s, pid, v)
  {
    var r := PrepareShare(s, pid, v);
    if r.Ok? && r.m.pds[pid][v].Present? then Shared0 else EINVALID
  }

  // ---- fork, spawn and exit -----------------------------------------------------------

  /** `mm_dir_new`: kernel memory and nothing else. */
  function EmptyPd(): (pd: Pd)
    ensures |pd| == V_PAGES
    ensures forall v :: 0 <= v < V_PAGES ==> pd[v] == if v < KERNEL_LIMIT then Kernel else Invalid
  {
    seq(V_PAGES, v => if v < KERNEL_LIMIT then Kernel else Invalid)
  }

  function Spawn(s: Mem, pid: nat): (s': Mem)
    requires Wf(s)
    ensures Wf(s')
  {
    s.(pds := s.pds[pid := EmptyPd()])
  }

  /** Entries that `mm_clone_pd` passes over. */
  predicate Skipped(e: Pte) {
    e.Invalid? || e.Swapped? || e.Kernel?
  }

  /** The entry both sides hold after `mm_clone_pd` has passed. */
  function CloneEntry(e: Pte): Pte {
    if e.Present? && e.kind.Assigned? then Present(e.frame, Cow, false) else e
  }

  /** One turn of the loop of `mm_clone_pd`. */
  function ForkStep(s: Mem, parent: nat, child: nat, v: nat): (s': Mem)
    requires Wf(s) && UserPage(s, parent, v) && UserPage(s, child, v)
    ensures Extends(s, Ok(s'))
  {
    var e := s.pds[parent][v];
    if Skipped(e) then s
    else
      var s1 := SetPte(SetPte(s, child, v, CloneEntry(e)), parent, v, CloneEntry(e));
      if e.Present? then s1.(count := s1.count[e.frame := s1.count[e.frame] + 1]) else s1
  }

  function ForkUpTo(s: Mem, parent: nat, child: nat, n: nat): (s': Mem)
    requires Wf(s) && parent in s.pds && child in s.pds && KERNEL_LIMIT <= n <= V_PAGES
    ensures Extends(s, Ok(s'))
  {
    if n == KERNEL_LIMIT then s
    else ForkStep(ForkUpTo(s, parent, child, n - 1), parent, child, n - 1)
  }

  /** `mm_clone_pd`. */
  function Fork(s: Mem, parent: nat, child: nat): (s': Mem)
    requires Wf(s) && parent in s.pds && child !in s.pds
    ensures Wf(s') && s'.pds.Keys == s.pds.Keys + {child}
  {
    ForkUpTo(Spawn(s, child), parent, child, V_PAGES)
  }

  /** One turn of the loop of `mm_dir_free`. */
  function FreeStep(s: Mem, pid: nat, v: nat): (s': Mem)
    requires Wf(s) && UserPage(s, pid, v)
    ensures Extends(s, Ok(s'))
  {
    var e := s.pds[pid][v];
    if e.Present? then SetPte(ReturnPage(s, e.frame), pid, v, Invalid) else s
  }

  function FreeUpTo(s: Mem, pid: nat, n: nat): (s': Mem)
    requires Wf(s) && pid in s.pds && KERNEL_LIMIT <= n <= V_PAGES
    ensures Extends(s, Ok(s'))
  {
    if n == KERNEL_LIMIT then s else FreeStep(FreeUpTo(s, pid, n - 1), pid, n - 1)
  }

  /** `mm_dir_free` of a process that has exited. */
  function Exit(s: Mem, pid: nat): (s': Mem)
    requires Wf(s) && pid in s.pds
    ensures Wf(s') && s'.pds.Keys == s.pds.Keys - {pid}
  {
    var s1 := FreeUpTo(s, pid, V_PAGES);
    s1.(pds := s1.pds - {pid})
  }
}
