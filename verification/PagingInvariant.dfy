/**
 What every step of the memory manager keeps: a frame's count is the number of entries
 that map it, it is free exactly when nothing maps it, and all its mappings agree.
 */
module PagingInvariant {
  import opened Common
  import opened PagingModel

  /** Entry `v` of process `p` maps frame `f`. */
  ghost predicate MapsTo(s: Mem, p: nat, v: nat, f: nat) {
    p in s.pds && v < |s.pds[p]| && s.pds[p][v].Present? && s.pds[p][v].frame == f
  }

  /** All mappings of a frame, over all page directories. */
  ghost function Maps(s: Mem, f: nat): set<(nat, nat)> {
    set p, v | p in s.pds && 0 <= v < |s.pds[p]| && MapsTo(s, p, v, f) :: (p, v)
  }

  ghost predicate CountOk(s: Mem) {
    forall f :: 0 <= f < |s.count| ==> s.count[f] == |Maps(s, f)|
  }

  ghost predicate FreeOk(s: Mem) {
    && (forall i, j :: 0 <= i < j < |s.free| ==> s.free[i] != s.free[j])
    && (forall f :: 0 <= f < |s.count| ==> (f in s.free <==> s.count[f] == 0))
  }

  /** Only copy-on-write pages are read-only, and an assigned page has a single mapping. */
  ghost predicate PteOk(s: Mem, e: Pte) {
    e.Present? ==>
      && (e.writable <==> !e.kind.Cow?)
      && (e.kind.Assigned? ==> e.frame < |s.count| && s.count[e.frame] == 1)
  }

  ghost predicate KindOk(s: Mem) {
    && (forall p, v :: p in s.pds && 0 <= v < |s.pds[p]| ==> PteOk(s, s.pds[p][v]))
    && (forall p: nat, v: nat, q: nat, w: nat, f: nat :: MapsTo(s, p, v, f) && MapsTo(s, q, w, f) ==> s.pds[p][v].kind == s.pds[q][w].kind)
  }

  ghost predicate Inv(s: Mem) {
    Wf(s) && CountOk(s) && FreeOk(s) && KindOk(s)
  }

  // ---- one entry at a time --------------------------------------------------------------

  /** How the mappings of each frame change when one entry is rewritten. */
  lemma MapsSetPte(s: Mem, pid: nat, v: nat, e: Pte, f: nat)
    requires UserPage(s, pid, v)
    ensures Maps(SetPte(s, pid, v, e), f)
         == Maps(s, f) - {(pid, v)} + (if e.Present? && e.frame == f then {(pid, v)} else {})
  {
    var t := SetPte(s, pid, v, e);
    forall p, w ensures MapsTo(t, p, w, f) <==>
      (if p == pid && w == v then e.Present? && e.frame == f else MapsTo(s, p, w, f))
    {
    }
  }

  /** Only page directories matter to `Maps`. */
  lemma MapsFrame(s: Mem, t: Mem, f: nat)
    requires s.pds == t.pds
    ensures Maps(s, f) == Maps(t, f)
  {
    forall p, w ensures MapsTo(t, p, w, f) <==> MapsTo(s, p, w, f) {}
  }

  /** A mapped frame counts at least its mapping, and exactly it when assigned. */
  lemma MappedOnce(s: Mem, p: nat, v: nat, q: nat, w: nat, f: nat)
    requires Inv(s) && MapsTo(s, p, v, f) && MapsTo(s, q, w, f)
    requires s.count[f] == 1
    ensures p == q && v == w
  {
    assert (p, v) in Maps(s, f) && (q, w) in Maps(s, f);
    if (p, v) != (q, w) {
      assert {(p, v), (q, w)} <= Maps(s, f);
      SubsetSize({(p, v), (q, w)}, Maps(s, f));
    }
  }

  lemma SubsetSize<T>(a: set<T>, b: set<T>)
    requires a <= b
    ensures |a| <= |b|
  {
    assert b == a + (b - a);
  }

  lemma MappedNotFree(s: Mem, p: nat, v: nat, f: nat)
    requires Inv(s) && MapsTo(s, p, v, f)
    ensures f < |s.count| && s.count[f] >= 1 && f !in s.free
  {
    assert (p, v) in Maps(s, f);
    assert WfPd(s, s.pds[p]) && WfPte(s, v, s.pds[p][v]);
    SubsetSize({(p, v)}, Maps(s, f));
  }

  ghost predicate Hits(e: Pte, f: nat) {
    e.Present? && e.frame == f
  }

  /** The number of mappings of each frame after one entry is rewritten. */
  lemma CountSetPte(s: Mem, t: Mem, pid: nat, v: nat, e: Pte, f: nat)
    requires UserPage(s, pid, v) && t.pds == SetPte(s, pid, v, e).pds
    ensures |Maps(t, f)|
         == |Maps(s, f)| - (if Hits(s.pds[pid][v], f) then 1 else 0) + (if Hits(e, f) then 1 else 0)
  {
    MapsSetPte(s, pid, v, e, f);
    MapsFrame(t, SetPte(s, pid, v, e), f);
    assert Hits(s.pds[pid][v], f) <==> (pid, v) in Maps(s, f);
  }

  /** A fresh frame mapped at an address that had none. */
  ghost function MapFresh(s: Mem, pid: nat, v: nat): Mem
    requires Wf(s) && UserPage(s, pid, v) && s.free != []
  {
    SetPte(TakeFree(s), pid, v, Present(s.free[0], Assigned, true))
  }

  lemma MapFreshInv(s: Mem, pid: nat, v: nat)
    requires Inv(s) && UserPage(s, pid, v) && s.free != [] && !s.pds[pid][v].Present?
    ensures Inv(MapFresh(s, pid, v))
  {
    var t := MapFresh(s, pid, v);
    var g := s.free[0];
    var e := Present(g, Assigned, true);
    assert s.count[g] == 0;
    forall f | 0 <= f < |t.count| ensures t.count[f] == |Maps(t, f)| {
      CountSetPte(s, t, pid, v, e, f);
    }
    forall p: nat, w: nat | p in t.pds && w < |t.pds[p]| ensures PteOk(t, t.pds[p][w]) {
      if !(p == pid && w == v) && t.pds[p][w].Present? {
        assert PteOk(s, s.pds[p][w]);
        MappedNotFree(s, p, w, s.pds[p][w].frame);
      }
    }
    forall p: nat, w: nat | MapsTo(s, p, w, g) ensures false {
      MappedNotFree(s, p, w, g);
    }
    FreshKinds(s, t, pid, v, e);
  }

  /** Mappings still agree when an entry is rewritten to map a frame nothing else maps. */
  lemma FreshKinds(s: Mem, t: Mem, pid: nat, v: nat, e: Pte)
    requires Inv(s) && UserPage(s, pid, v) && t.pds == SetPte(s, pid, v, e).pds
    requires forall p: nat, w: nat :: e.Present? && MapsTo(s, p, w, e.frame) ==> p == pid && w == v
    ensures forall p: nat, w: nat, q: nat, x: nat, f: nat ::
      MapsTo(t, p, w, f) && MapsTo(t, q, x, f) ==> t.pds[p][w].kind == t.pds[q][x].kind
  {
    forall p: nat, w: nat, q: nat, x: nat, f: nat | MapsTo(t, p, w, f) && MapsTo(t, q, x, f)
      ensures t.pds[p][w].kind == t.pds[q][x].kind
    {
      assert !(p == pid && w == v) ==> MapsTo(s, p, w, f);
      assert !(q == pid && x == v) ==> MapsTo(s, q, x, f);
    }
  }

  /** An entry cleared or swapped, and its frame returned. */
  lemma UnmapInv(s: Mem, pid: nat, v: nat, e: Pte)
    requires Inv(s) && UserPage(s, pid, v) && s.pds[pid][v].Present?
    requires !e.Present? && WfPte(s, v, e)
    ensures Inv(SetPte(ReturnPage(s, s.pds[pid][v].frame), pid, v, e))
  {
    var g := s.pds[pid][v].frame;
    var t := SetPte(ReturnPage(s, g), pid, v, e);
    MappedNotFree(s, pid, v, g);
    forall f | 0 <= f < |t.count| ensures t.count[f] == |Maps(t, f)| {
      CountSetPte(s, t, pid, v, e, f);
    }
    ReturnKeepsFree(s, g);
    forall p: nat, w: nat | p in t.pds && w < |t.pds[p]| ensures PteOk(t, t.pds[p][w]) {
      if !(p == pid && w == v) && t.pds[p][w].Present? {
        assert PteOk(s, s.pds[p][w]);
        if t.pds[p][w].kind.Assigned? && t.pds[p][w].frame == g {
          MappedOnce(s, p, w, pid, v, g);
        }
      }
    }
    FreshKinds(s, t, pid, v, e);
  }

  lemma ReturnKeepsFree(s: Mem, g: nat)
    requires Wf(s) && FreeOk(s) && g < |s.count| && s.count[g] >= 1
    ensures FreeOk(ReturnPage(s, g))
  {
    var t := ReturnPage(s, g);
    if s.count[g] == 1 {
      assert g !in s.free;
      assert forall f :: f in t.free <==> f == g || f in s.free;
      assert forall i :: 0 <= i < |t.free| ==>
        t.free[i] == if s.free == [] then g else if i == 0 then s.free[0] else if i == 1 then g else s.free[i - 1];
    }
  }

  /** An entry without a frame replaced by another without a frame. */
  lemma PlainInv(s: Mem, pid: nat, v: nat, e: Pte)
    requires Inv(s) && UserPage(s, pid, v) && !s.pds[pid][v].Present?
    requires !e.Present? && WfPte(s, v, e)
    ensures Inv(SetPte(s, pid, v, e))
  {
    var t := SetPte(s, pid, v, e);
    forall f | 0 <= f < |t.count| ensures t.count[f] == |Maps(t, f)| {
      CountSetPte(s, t, pid, v, e, f);
    }
    FreshKinds(s, t, pid, v, e);
  }

  /** A page with a single mapping changes kind. */
  lemma RekindInv(s: Mem, pid: nat, v: nat, e: Pte)
    requires Inv(s) && UserPage(s, pid, v) && s.pds[pid][v].Present?
    requires e.Present? && e.frame == s.pds[pid][v].frame && (e.writable <==> !e.kind.Cow?)
    requires e.kind == s.pds[pid][v].kind || s.count[e.frame] == 1
    ensures Inv(SetPte(s, pid, v, e))
  {
    var t := SetPte(s, pid, v, e);
    var g := e.frame;
    assert MapsTo(s, pid, v, g);
    MappedNotFree(s, pid, v, g);
    forall f | 0 <= f < |t.count| ensures t.count[f] == |Maps(t, f)| {
      CountSetPte(s, t, pid, v, e, f);
    }
    assert WfPte(s, v, s.pds[pid][v]) && PteOk(s, s.pds[pid][v]);
    if s.count[g] == 1 {
      forall p: nat, w: nat | MapsTo(s, p, w, g) ensures p == pid && w == v {
        MappedOnce(s, p, w, pid, v, g);
      }
      FreshKinds(s, t, pid, v, e);
    } else {
      assert t.pds[pid] == s.pds[pid];
      assert t.pds == s.pds;
    }
  }

  /** Contents, swap slots and the search hint are not part of the invariant. */
  lemma ContentInv(s: Mem, t: Mem)
    requires Inv(s) && Wf(t) && t.pds == s.pds && t.count == s.count && t.free == s.free
    ensures Inv(t)
  {
    forall f | 0 <= f < |t.count| ensures t.count[f] == |Maps(t, f)| {
      MapsFrame(s, t, f);
    }
    assert forall p: nat, w: nat, f: nat :: MapsTo(t, p, w, f) <==> MapsTo(s, p, w, f);
    forall p: nat, w: nat | p in t.pds && w < |t.pds[p]| ensures PteOk(t, t.pds[p][w]) {
      assert PteOk(s, s.pds[p][w]);
    }
  }

  // ---- the routines ---------------------------------------------------------------------

  /** Enough frames stay free for the next page to be loaded. */
  ghost predicate Reserve(s: Mem) {
    |s.free| >= LOW_WATER - 1
  }

  lemma SwapOutInv(s: Mem, pid: nat)
    requires Inv(s) && pid in s.pds && SwapOut(s, pid).Ok?
    ensures Inv(SwapOut(s, pid).m)
    ensures |SwapOut(s, pid).m.free| == |s.free| + 1
  {
    var v := LastAssigned(s.pds[pid], STACK_PAGE).value;
    var e := s.pds[pid][v];
    assert PteOk(s, e);
    var s1 := s.(disk := s.disk + [s.page[e.frame]]);
    ContentInv(s, s1);
    UnmapInv(s1, pid, v, Swapped(|s.disk|));
  }

  /** Eviction leaves at least one frame, and evicts only assigned pages of the process. */
  lemma MakeRoomInv(s: Mem, pid: nat)
    requires Inv(s) && pid in s.pds && MakeRoom(s, pid).Ok?
    ensures Inv(MakeRoom(s, pid).m)
    ensures MakeRoom(s, pid).m.free != []
    ensures |MakeRoom(s, pid).m.free| >= LOW_WATER || |MakeRoom(s, pid).m.free| == |s.free| + 1
    ensures MakeRoom(s, pid).m.page == s.page
    ensures forall p, v :: p in s.pds && 0 <= v < V_PAGES ==>
      EvictedOrSame(s, MakeRoom(s, pid).m, p, v)
  {
    if |s.free| < LOW_WATER {
      SwapOutInv(s, pid);
      var v := LastAssigned(s.pds[pid], STACK_PAGE).value;
      assert WfPte(s, v, s.pds[pid][v]);
    }
  }

  /** Entry `v` of `p` is as before, or the assigned page it held is now in the swap area. */
  ghost predicate EvictedOrSame(s: Mem, t: Mem, p: nat, v: nat) {
    && p in s.pds && v < |s.pds[p]| && p in t.pds && v < |t.pds[p]|
    && (|| t.pds[p][v] == s.pds[p][v]
        || (&& s.pds[p][v].Present? && s.pds[p][v].kind.Assigned? && s.pds[p][v].frame < |s.page|
            && t.pds[p][v].Swapped? && t.pds[p][v].id < |t.disk|
            && t.disk[t.pds[p][v].id] == s.page[s.pds[p][v].frame]))
  }

  lemma NewUserPageInv(s: Mem, pid: nat, v: nat)
    requires Inv(s) && UserPage(s, pid, v) && NewUserPage(s, pid, v).Ok?
    ensures Inv(NewUserPage(s, pid, v).m)
    ensures Reserve(s) ==> Reserve(NewUserPage(s, pid, v).m)
  {
    MakeRoomInv(s, pid);
    MapFreshInv(MakeRoom(s, pid).m, pid, v);
  }

  lemma MovePageInv(s: Mem, pid: nat, a: nat, v: nat, f: nat)
    requires Inv(s) && UserPage(s, pid, a) && UserPage(s, pid, v) && f < |s.count| && a != v
    requires s.pds[pid][a].Present? && s.pds[pid][a].kind.Assigned?
    requires s.pds[pid][v].Present? && s.pds[pid][v].frame == f
    ensures Inv(MovePage(s, pid, a, v, f))
    ensures |MovePage(s, pid, a, v, f).free| >= |s.free|
  {
    UnmapInv(s, pid, v, Invalid);
    MoveEntryInv(SetPte(ReturnPage(s, f), pid, v, Invalid), pid, a, v);
    MovePageSplit(s, pid, a, v, f);
  }

  /** Returning the old frame first makes no difference. */
  lemma MovePageSplit(s: Mem, pid: nat, a: nat, v: nat, f: nat)
    requires Wf(s) && UserPage(s, pid, a) && UserPage(s, pid, v) && f < |s.count| && a != v
    ensures var t := SetPte(ReturnPage(s, f), pid, v, Invalid);
      MovePage(s, pid, a, v, f) == SetPte(SetPte(t, pid, a, Invalid), pid, v, s.pds[pid][a])
  {
    var pd := s.pds[pid];
    var e := pd[a];
    assert pd[v := Invalid][a := Invalid][v := e] == pd[a := Invalid][v := e];
    assert s.pds[pid := pd[v := Invalid]][pid := pd[v := Invalid][a := Invalid]][pid := pd[v := Invalid][a := Invalid][v := e]]
        == s.pds[pid := pd[a := Invalid]][pid := pd[a := Invalid][v := e]];
  }

  lemma MoveEntryInv(s: Mem, pid: nat, a: nat, v: nat)
    requires Inv(s) && UserPage(s, pid, a) && UserPage(s, pid, v) && a != v
    requires s.pds[pid][a].Present? && s.pds[pid][a].kind.Assigned? && !s.pds[pid][v].Present?
    ensures Inv(SetPte(SetPte(s, pid, a, Invalid), pid, v, s.pds[pid][a]))
  {
    var e := s.pds[pid][a];
    var u := SetPte(s, pid, a, Invalid);
    var t := SetPte(u, pid, v, e);
    assert PteOk(s, e) && WfPte(s, a, e);
    forall f | 0 <= f < |t.count| ensures t.count[f] == |Maps(t, f)| {
      CountSetPte(s, u, pid, a, Invalid, f);
      CountSetPte(u, t, pid, v, e, f);
    }
    forall p: nat, w: nat | p in t.pds && w < |t.pds[p]| ensures PteOk(t, t.pds[p][w]) {
      assert PteOk(s, s.pds[p][w]);
    }
    forall p: nat, w: nat | MapsTo(s, p, w, e.frame) ensures p == pid && w == a {
      MappedOnce(s, p, w, pid, a, e.frame);
    }
    forall p: nat, w: nat, q: nat, x: nat, f: nat | MapsTo(t, p, w, f) && MapsTo(t, q, x, f)
      ensures t.pds[p][w].kind == t.pds[q][x].kind
    {
      assert !(p == pid && w == v) ==> MapsTo(s, p, w, f);
      assert !(q == pid && x == v) ==> MapsTo(s, q, x, f);
    }
  }

  lemma SeekInv(s: Mem, pid: nat)
    requires Inv(s) && pid in s.pds
    ensures Inv(Seek(s, pid))
  {
    ContentInv(s, Seek(s, pid));
  }

  lemma LoadCowInv(s: Mem, pid: nat, v: nat)
    requires Inv(s) && UserPage(s, pid, v) && IsCow(s.pds[pid][v]) && LoadCow(s, pid, v).Ok?
    ensures Inv(LoadCow(s, pid, v).m)
    ensures Reserve(s) ==> Reserve(LoadCow(s, pid, v).m)
  {
    var f := s.pds[pid][v].frame;
    var s1 := Seek(s, pid);
    SeekInv(s, pid);
    MappedNotFree(s, pid, v, f);
    if s.count[f] <= 1 {
      RekindInv(s1, pid, v, Present(f, Assigned, true));
    } else {
      var a := s1.lastUnused;
      NewUserPageInv(s1, pid, a);
      MakeRoomInv(s1, pid);
      var r := NewUserPage(s1, pid, a).m;
      var c := ClonePage(s1, pid, a, f).m;
      assert EvictedOrSame(s1, MakeRoom(s1, pid).m, pid, v);
      ContentInv(r, c);
      MovePageInv(c, pid, a, v, f);
    }
  }

  lemma SwapInInv(s: Mem, pid: nat, v: nat)
    requires Inv(s) && UserPage(s, pid, v) && s.pds[pid][v].Swapped? && SwapIn(s, pid, v).Ok?
    ensures Inv(SwapIn(s, pid, v).m)
    ensures Reserve(s) ==> Reserve(SwapIn(s, pid, v).m)
  {
    NewUserPageInv(s, pid, v);
    ContentInv(NewUserPage(s, pid, v).m, SwapIn(s, pid, v).m);
  }

  lemma TouchInv(s: Mem, pid: nat, v: nat, write: bool)
    requires Inv(s) && UserPage(s, pid, v) && Touch(s, pid, v, write).Ok?
    ensures Inv(Touch(s, pid, v, write).m)
    ensures Reserve(s) ==> Reserve(Touch(s, pid, v, write).m)
  {
    if !Accessible(s, pid, v, write) {
      var e := s.pds[pid][v];
      if e.Swapped? {
        SwapInInv(s, pid, v);
      } else if e.Requested? {
        NewUserPageInv(s, pid, v);
      } else {
        LoadCowInv(s, pid, v);
      }
    }
  }

  lemma RequestPageInv(s: Mem, pid: nat)
    requires Inv(s) && pid in s.pds && RequestPage(s, pid).Ok?
    ensures Inv(RequestPage(s, pid).m)
    ensures RequestPage(s, pid).m.free == s.free
  {
    SeekInv(s, pid);
    PlainInv(Seek(s, pid), pid, Seek(s, pid).lastUnused, Requested);
  }

  lemma PrepareShareInv(s: Mem, pid: nat, v: nat)
    requires Inv(s) && UserPage(s, pid, v) && PrepareShare(s, pid, v).Ok?
    ensures Inv(PrepareShare(s, pid, v).m)
    ensures Reserve(s) ==> Reserve(PrepareShare(s, pid, v).m)
  {
    var e := s.pds[pid][v];
    if e.Requested? {
      NewUserPageInv(s, pid, v);
    } else if IsCow(e) {
      LoadCowInv(s, pid, v);
    }
  }

  lemma SharePageInv(s: Mem, pid: nat, v: nat)
    requires Inv(s) && UserPage(s, pid, v) && SharePage(s, pid, v).Ok?
    ensures Inv(SharePage(s, pid, v).m)
    ensures Reserve(s) ==> Reserve(SharePage(s, pid, v).m)
  {
    var r := PrepareShare(s, pid, v).m;
    PrepareShareInv(s, pid, v);
    var e := r.pds[pid][v];
    if e.Present? {
      assert PteOk(s, s.pds[pid][v]) && PteOk(r, e);
      PreparedKind(s, pid, v);
      RekindInv(r, pid, v, e.(kind := Kind.Shared));
    }
  }

  /** A page about to be shared is never copy-on-write. */
  lemma PreparedKind(s: Mem, pid: nat, v: nat)
    requires Inv(s) && UserPage(s, pid, v) && PrepareShare(s, pid, v).Ok?
    ensures var e := PrepareShare(s, pid, v).m.pds[pid][v]; e.Present? ==> !e.kind.Cow?
  {
    assert PteOk(s, s.pds[pid][v]);
  }

  lemma SpawnInv(s: Mem, pid: nat)
    requires Inv(s) && pid !in s.pds
    ensures Inv(Spawn(s, pid))
  {
    var t := Spawn(s, pid);
    assert forall p: nat, w: nat, f: nat :: MapsTo(t, p, w, f) <==> MapsTo(s, p, w, f);
    forall f | 0 <= f < |t.count| ensures t.count[f] == |Maps(t, f)| {
      assert Maps(t, f) == Maps(s, f);
    }
    forall p: nat, w: nat | p in t.pds && w < |t.pds[p]| ensures PteOk(t, t.pds[p][w]) {
      if p != pid {
        assert PteOk(s, s.pds[p][w]);
      }
    }
  }

  // ---- fork and exit --------------------------------------------------------------------

  /** One turn of `mm_clone_pd`, for a child entry that is still empty. */
  lemma ForkStepInv(s: Mem, parent: nat, child: nat, v: nat)
    requires Inv(s) && UserPage(s, parent, v) && UserPage(s, child, v) && parent != child
    requires s.pds[child][v].Invalid?
    ensures Inv(ForkStep(s, parent, child, v))
    ensures ForkStep(s, parent, child, v).free == s.free
  {
    var e := s.pds[parent][v];
    if e.Requested? {
      PlainInv(s, child, v, e);
      PlainInv(SetPte(s, child, v, e), parent, v, e);
    } else if e.Present? {
      ShareFrameInv(s, parent, child, v);
    }
  }

  lemma ShareFrameInv(s: Mem, parent: nat, child: nat, v: nat)
    requires Inv(s) && UserPage(s, parent, v) && UserPage(s, child, v) && parent != child
    requires s.pds[child][v].Invalid? && s.pds[parent][v].Present?
    ensures Inv(ForkStep(s, parent, child, v))
    ensures ForkStep(s, parent, child, v).free == s.free
  {
    var e := s.pds[parent][v];
    var c := CloneEntry(e);
    var g := e.frame;
    var u := SetPte(s, child, v, c);
    var t := ForkStep(s, parent, child, v);
    assert PteOk(s, e) && WfPte(s, v, e);
    MappedNotFree(s, parent, v, g);
    forall f | 0 <= f < |t.count| ensures t.count[f] == |Maps(t, f)| {
      CountSetPte(s, u, child, v, c, f);
      CountSetPte(u, t, parent, v, c, f);
    }
    assert forall f :: 0 <= f < |t.count| ==> (t.count[f] == 0 <==> s.count[f] == 0);
    ForkKinds(s, parent, child, v);
  }

  /** Parent and child entry agree with every other mapping of the frame. */
  lemma ForkKinds(s: Mem, parent: nat, child: nat, v: nat)
    requires Inv(s) && UserPage(s, parent, v) && UserPage(s, child, v) && parent != child
    requires s.pds[child][v].Invalid? && s.pds[parent][v].Present?
    ensures KindOk(ForkStep(s, parent, child, v))
  {
    var e := s.pds[parent][v];
    var g := e.frame;
    var t := ForkStep(s, parent, child, v);
    assert PteOk(s, e) && WfPte(s, v, e);
    MappedNotFree(s, parent, v, g);
    forall p: nat, w: nat | MapsTo(s, p, w, g) ensures s.pds[p][w].kind == e.kind {
      assert MapsTo(s, parent, v, g);
    }
    if e.kind.Assigned? {
      forall p: nat, w: nat | MapsTo(s, p, w, g) ensures p == parent && w == v {
        MappedOnce(s, p, w, parent, v, g);
      }
    }
    forall p: nat, w: nat | p in t.pds && w < |t.pds[p]| ensures PteOk(t, t.pds[p][w]) {
      if w != v || (p != parent && p != child) {
        assert PteOk(s, s.pds[p][w]);
        assert t.pds[p][w].Present? && t.pds[p][w].frame == g ==> MapsTo(s, p, w, g);
      }
    }
    ForkAgree(s, parent, child, v);
  }

  lemma ForkAgree(s: Mem, parent: nat, child: nat, v: nat)
    requires Wf(s) && UserPage(s, parent, v) && UserPage(s, child, v) && parent != child
    requires s.pds[parent][v].Present?
    requires forall p: nat, w: nat, q: nat, x: nat, f: nat ::
      MapsTo(s, p, w, f) && MapsTo(s, q, x, f) ==> s.pds[p][w].kind == s.pds[q][x].kind
    requires s.pds[parent][v].kind.Assigned? ==>
      forall p: nat, w: nat :: MapsTo(s, p, w, s.pds[parent][v].frame) ==> p == parent && w == v
    ensures var t := ForkStep(s, parent, child, v);
      forall p: nat, w: nat, q: nat, x: nat, f: nat ::
        MapsTo(t, p, w, f) && MapsTo(t, q, x, f) ==> t.pds[p][w].kind == t.pds[q][x].kind
  {
    var t := ForkStep(s, parent, child, v);
    assert MapsTo(s, parent, v, s.pds[parent][v].frame);
    forall p: nat, w: nat, q: nat, x: nat, f: nat | MapsTo(t, p, w, f) && MapsTo(t, q, x, f)
      ensures t.pds[p][w].kind == t.pds[q][x].kind
    {
      assert (w == v && (p == parent || p == child)) || MapsTo(s, p, w, f);
      assert (x == v && (q == parent || q == child)) || MapsTo(s, q, x, f);
    }
  }

  /** The child's entries from `n` up are still empty, and the parent's untouched. */
  lemma ForkAhead(s: Mem, parent: nat, child: nat, n: nat)
    requires Wf(s) && parent in s.pds && child in s.pds && KERNEL_LIMIT <= n <= V_PAGES && parent != child
    ensures forall v :: n <= v < V_PAGES ==>
      && ForkUpTo(s, parent, child, n).pds[child][v] == s.pds[child][v]
      && ForkUpTo(s, parent, child, n).pds[parent][v] == s.pds[parent][v]
  {
    if n > KERNEL_LIMIT {
      ForkAhead(s, parent, child, n - 1);
    }
  }

  lemma ForkUpToTurn(s: Mem, parent: nat, child: nat, n: nat)
    requires Wf(s) && parent in s.pds && child in s.pds && KERNEL_LIMIT < n <= V_PAGES && parent != child
    ensures ForkUpTo(s, parent, child, n) == ForkStep(ForkUpTo(s, parent, child, n - 1), parent, child, n - 1)
  {
  }

  /** One more turn, if the turns before it have kept the invariant. */
  lemma ForkUpToNext(s: Mem, parent: nat, child: nat, n: nat)
    requires Wf(s) && parent in s.pds && child in s.pds && KERNEL_LIMIT < n <= V_PAGES && parent != child
    requires s.pds[child][n - 1].Invalid?
    requires Inv(ForkUpTo(s, parent, child, n - 1))
    ensures Inv(ForkUpTo(s, parent, child, n))
    ensures ForkUpTo(s, parent, child, n).free == ForkUpTo(s, parent, child, n - 1).free
  {
    ForkAhead(s, parent, child, n - 1);
    ForkStepInv(ForkUpTo(s, parent, child, n - 1), parent, child, n - 1);
    ForkUpToTurn(s, parent, child, n);
  }

  lemma {:induction false} ForkUpToInv(s: Mem, parent: nat, child: nat, n: nat)
    requires Inv(s) && parent in s.pds && child in s.pds && KERNEL_LIMIT <= n <= V_PAGES && parent != child
    requires forall v :: KERNEL_LIMIT <= v < V_PAGES ==> s.pds[child][v].Invalid?
    ensures Inv(ForkUpTo(s, parent, child, n))
    ensures ForkUpTo(s, parent, child, n).free == s.free
  {
    if n > KERNEL_LIMIT {
      ForkUpToInv(s, parent, child, n - 1);
      ForkUpToNext(s, parent, child, n);
    } else {
      assert ForkUpTo(s, parent, child, n) == s;
    }
  }

  lemma ForkInv(s: Mem, parent: nat, child: nat)
    requires Inv(s) && parent in s.pds && child !in s.pds
    ensures Inv(Fork(s, parent, child))
    ensures Fork(s, parent, child).free == s.free
  {
    SpawnInv(s, child);
    ForkUpToInv(Spawn(s, child), parent, child, V_PAGES);
  }

  /** The entries that `mm_dir_free` has cleared once it has passed `n` pages, and what it leaves alone. */
  ghost predicate Freed(s: Mem, t: Mem, pid: nat, n: nat) {
    FreedOnly(s, t, pid) && FreedPages(s, t, pid, n)
  }

  /** Nothing but counts, the free list and this directory has changed. */
  ghost predicate FreedOnly(s: Mem, t: Mem, pid: nat) {
    && pid in s.pds && t.pds.Keys == s.pds.Keys
    && t == s.(count := t.count, free := t.free, pds := t.pds)
    && (forall p :: p in s.pds && p != pid ==> t.pds[p] == s.pds[p])
  }

  ghost predicate FreedPages(s: Mem, t: Mem, pid: nat, n: nat)
    requires pid in s.pds && pid in t.pds
  {
    && |s.pds[pid]| == |t.pds[pid]| == V_PAGES
    && (forall v :: 0 <= v < V_PAGES ==> t.pds[pid][v] == FreedEntry(s.pds[pid][v], v, n))
  }

  ghost function FreedEntry(e: Pte, v: nat, n: nat): Pte {
    if KERNEL_LIMIT <= v < n && e.Present? then Invalid else e
  }

  /** The last turn of a loop that has passed `n` pages. */
  lemma FreeUpToTurn(s: Mem, pid: nat, n: nat)
    requires Wf(s) && pid in s.pds && KERNEL_LIMIT < n <= V_PAGES
    ensures FreeUpTo(s, pid, n) == FreeStep(FreeUpTo(s, pid, n - 1), pid, n - 1)
  {
  }

  lemma FreedNothing(s: Mem, pid: nat)
    requires Wf(s) && pid in s.pds
    ensures FreeUpTo(s, pid, KERNEL_LIMIT) == s && Freed(s, s, pid, KERNEL_LIMIT)
  {
  }

  ghost predicate FreedUpTo(s: Mem, pid: nat, n: nat)
    requires Wf(s) && pid in s.pds && KERNEL_LIMIT <= n <= V_PAGES
  {
    Freed(s, FreeUpTo(s, pid, n), pid, n)
  }

  lemma FreedNext(s: Mem, pid: nat, n: nat)
    requires Wf(s) && pid in s.pds && KERNEL_LIMIT < n <= V_PAGES && FreedUpTo(s, pid, n - 1)
    ensures FreedUpTo(s, pid, n)
  {
    var t := FreeUpTo(s, pid, n - 1);
    FreedTurn(s, t, pid, n - 1);
  }

  lemma FreedTurn(s: Mem, t: Mem, pid: nat, v: nat)
    requires Wf(t) && Freed(s, t, pid, v) && KERNEL_LIMIT <= v < V_PAGES
    ensures Freed(s, FreeStep(t, pid, v), pid, v + 1)
  {
  }

  lemma {:induction false} FreedAll(s: Mem, pid: nat, n: nat)
    requires Wf(s) && pid in s.pds && KERNEL_LIMIT <= n <= V_PAGES
    ensures FreedUpTo(s, pid, n)
  {
    if n > KERNEL_LIMIT {
      FreedAll(s, pid, n - 1);
      FreedNext(s, pid, n);
    } else {
      FreedNothing(s, pid);
    }
  }

  lemma FreedEntries(s: Mem, pid: nat, n: nat)
    requires Wf(s) && pid in s.pds && KERNEL_LIMIT <= n <= V_PAGES
    ensures Freed(s, FreeUpTo(s, pid, n), pid, n)
  {
    FreedAll(s, pid, n);
  }

  lemma FreeStepInv(s: Mem, pid: nat, v: nat)
    requires Inv(s) && UserPage(s, pid, v)
    ensures Inv(FreeStep(s, pid, v)) && |FreeStep(s, pid, v).free| >= |s.free|
  {
    if s.pds[pid][v].Present? {
      UnmapInv(s, pid, v, Invalid);
    }
  }

  /** `n` pages into a directory that is being freed, the invariant holds and no free frame has been lost. */
  ghost predicate FreesUpTo(s: Mem, pid: nat, n: nat)
    requires Wf(s) && pid in s.pds && KERNEL_LIMIT <= n <= V_PAGES
  {
    Inv(FreeUpTo(s, pid, n)) && |FreeUpTo(s, pid, n).free| >= |s.free|
  }

  lemma FreeUpToNext(s: Mem, pid: nat, n: nat)
    requires Wf(s) && pid in s.pds && KERNEL_LIMIT < n <= V_PAGES && FreesUpTo(s, pid, n - 1)
    ensures FreesUpTo(s, pid, n)
  {
    FreeUpToTurn(s, pid, n);
    FreeStepInv(FreeUpTo(s, pid, n - 1), pid, n - 1);
  }

  lemma {:induction false} FreeUpToInv(s: Mem, pid: nat, n: nat)
    requires Inv(s) && pid in s.pds && KERNEL_LIMIT <= n <= V_PAGES
    ensures FreesUpTo(s, pid, n)
  {
    if n > KERNEL_LIMIT {
      FreeUpToInv(s, pid, n - 1);
      FreeUpToNext(s, pid, n);
    } else {
      FreedNothing(s, pid);
    }
  }

  lemma ExitInv(s: Mem, pid: nat)
    requires Inv(s) && pid in s.pds
    ensures Inv(Exit(s, pid))
    ensures |Exit(s, pid).free| >= |s.free|
  {
    var t := FreeUpTo(s, pid, V_PAGES);
    FreeUpToInv(s, pid, V_PAGES);
    FreedEntries(s, pid, V_PAGES);
    var u := Exit(s, pid);
    assert forall v :: 0 <= v < V_PAGES ==> !t.pds[pid][v].Present?;
    assert forall p: nat, w: nat, f: nat :: MapsTo(u, p, w, f) <==> MapsTo(t, p, w, f);
    forall f | 0 <= f < |u.count| ensures u.count[f] == |Maps(u, f)| {
      assert Maps(u, f) == Maps(t, f);
    }
    forall p: nat, w: nat | p in u.pds && w < |u.pds[p]| ensures PteOk(u, u.pds[p][w]) {
      assert PteOk(t, t.pds[p][w]);
    }
  }
}
