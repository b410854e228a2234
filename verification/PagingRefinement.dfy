/**
 The simple memory that a process believes in, and the proof that the memory manager
 implements it. In the simple memory every process owns its pages, fork copies every
 private page at once, and shared pages alias one cell.
 */
module PagingRefinement {
  import opened Common
  import opened PagingModel
  import opened PagingInvariant

  /** `Untouched` is a page that was requested and whose bytes are not chosen yet. */
  datatype APage = Unmapped | Untouched | Private(p: Page) | Alias(cell: nat)

  datatype AMem = AMem(spaces: map<nat, seq<APage>>, cells: map<nat, Page>)

  // ---- the simple memory ----------------------------------------------------------------

  ghost predicate AUser(a: AMem, pid: nat, v: nat) {
    pid in a.spaces && v < |a.spaces[pid]|
  }

  ghost function ASet(a: AMem, pid: nat, v: nat, x: APage): AMem
    requires AUser(a, pid, v)
  {
    a.(spaces := a.spaces[pid := a.spaces[pid][v := x]])
  }

  /** The first access to a requested page fixes its bytes. */
  ghost function ASettle(a: AMem, pid: nat, v: nat, p: Page): AMem
    requires AUser(a, pid, v)
  {
    if a.spaces[pid][v].Untouched? then ASet(a, pid, v, Private(p)) else a
  }

  /** The bytes that a process reads at a page. */
  ghost function ARead(a: AMem, pid: nat, v: nat): Option<Page> {
    if !AUser(a, pid, v) then None
    else match a.spaces[pid][v]
      case Private(p) => Some(p)
      case Alias(c) => if c in a.cells then Some(a.cells[c]) else None
      case _ => None
  }

  ghost function AWrite(a: AMem, pid: nat, v: nat, p: Page): AMem
    requires AUser(a, pid, v)
  {
    match a.spaces[pid][v]
    case Alias(c) => a.(cells := a.cells[c := p])
    case _ => ASet(a, pid, v, Private(p))
  }

  /** Sharing moves a private page to a cell of its own; an alias stays one. */
  ghost function AShare(a: AMem, pid: nat, v: nat, c: nat): AMem
    requires AUser(a, pid, v)
  {
    match a.spaces[pid][v]
    case Private(p) => ASet(a, pid, v, Alias(c)).(cells := a.cells[c := p])
    case _ => a
  }

  /** Fork copies the whole address space at once. */
  ghost function AFork(a: AMem, parent: nat, child: nat): AMem
    requires parent in a.spaces
  {
    a.(spaces := a.spaces[child := a.spaces[parent]])
  }

  ghost predicate Aliased(a: AMem, c: nat) {
    exists p: nat, v: nat :: AUser(a, p, v) && a.spaces[p][v] == Alias(c)
  }

  /** Exit drops the address space, and the cells that nobody aliases any more. */
  ghost function AExit(a: AMem, pid: nat): AMem {
    var b := a.(spaces := a.spaces - {pid});
    b.(cells := map c | c in a.cells && Aliased(b, c) :: a.cells[c])
  }

  ghost function ASpawn(a: AMem, pid: nat): AMem {
    a.(spaces := a.spaces[pid := seq(V_PAGES, _ => Unmapped)])
  }

  // ---- what a state of the memory manager stands for ------------------------------------

  ghost function View(s: Mem, e: Pte): APage {
    match e
    case Invalid => Unmapped
    case Kernel => Unmapped
    case Requested => Untouched
    case Swapped(id) => if id < |s.disk| then Private(s.disk[id]) else Unmapped
    case Present(f, Shared, _) => Alias(f)
    case Present(f, _, _) => if f < |s.page| then Private(s.page[f]) else Unmapped
  }

  ghost predicate SharedAt(s: Mem, p: nat, v: nat, f: nat) {
    MapsTo(s, p, v, f) && s.pds[p][v].kind.Shared?
  }

  ghost function ViewPd(s: Mem, pd: Pd): (r: seq<APage>)
    ensures |r| == |pd|
    ensures forall v :: 0 <= v < |pd| ==> r[v] == View(s, pd[v])
  {
    seq(|pd|, v requires 0 <= v < |pd| => View(s, pd[v]))
  }

  ghost function Cells(s: Mem): map<nat, Page> {
    map f: nat | f < |s.page| && (exists p: nat, v: nat :: SharedAt(s, p, v, f)) :: s.page[f]
  }

  ghost function Abs(s: Mem): AMem {
    AMem(map p | p in s.pds :: ViewPd(s, s.pds[p]), Cells(s))
  }

  /** A page is shared exactly when it looks like an alias. */
  lemma SharedByView(s: Mem, p: nat, v: nat, f: nat)
    requires Wf(s)
    ensures SharedAt(s, p, v, f) <==> p in s.pds && v < V_PAGES && |s.pds[p]| == V_PAGES && View(s, s.pds[p][v]) == Alias(f)
  {
    if p in s.pds {
      assert WfPd(s, s.pds[p]);
    }
  }

  lemma CellsSame(s: Mem, t: Mem)
    requires forall p: nat, v: nat, f: nat :: SharedAt(t, p, v, f) <==> SharedAt(s, p, v, f)
    requires forall p: nat, v: nat, f: nat :: SharedAt(s, p, v, f) ==> f < |s.page| && f < |t.page| && t.page[f] == s.page[f]
    ensures Cells(t) == Cells(s)
  {
  }

  /** Frames that a process shares exist and are not free. */
  lemma SharedFrames(s: Mem)
    requires Inv(s)
    ensures forall p: nat, v: nat, f: nat :: SharedAt(s, p, v, f) ==> f < |s.page| && f !in s.free
  {
    forall p: nat, v: nat, f: nat | SharedAt(s, p, v, f) ensures f < |s.page| && f !in s.free {
      MappedNotFree(s, p, v, f);
    }
  }

  /** States with the same views and the same shared contents stand for the same memory. */
  lemma AbsSame(s: Mem, t: Mem)
    requires Wf(s) && Wf(t) && s.pds.Keys == t.pds.Keys
    requires forall p, v :: p in s.pds && 0 <= v < V_PAGES ==> View(t, t.pds[p][v]) == View(s, s.pds[p][v])
    requires forall p: nat, v: nat, f: nat :: SharedAt(s, p, v, f) ==> f < |s.page| && f < |t.page| && t.page[f] == s.page[f]
    ensures Abs(t) == Abs(s)
  {
    forall p | p in s.pds ensures ViewPd(t, t.pds[p]) == ViewPd(s, s.pds[p]) {
      assert WfPd(s, s.pds[p]) && WfPd(t, t.pds[p]);
    }
    forall p: nat, v: nat, f: nat ensures SharedAt(t, p, v, f) <==> SharedAt(s, p, v, f) {
      SharedByView(s, p, v, f);
      SharedByView(t, p, v, f);
      assert p in s.pds ==> WfPd(s, s.pds[p]) && WfPd(t, t.pds[p]);
    }
    CellsSame(s, t);
  }

  /** Views that differ at one page only. */
  ghost predicate SameViewsBut(s: Mem, t: Mem, pid: nat, v: nat) {
    && s.pds.Keys == t.pds.Keys
    && (forall p :: p in s.pds ==> |s.pds[p]| == |t.pds[p]| == V_PAGES)
    && (forall p, w :: p in s.pds && 0 <= w < V_PAGES && !(p == pid && w == v) ==>
         View(t, t.pds[p][w]) == View(s, s.pds[p][w]))
  }

  lemma ViewsOne(s: Mem, t: Mem, pid: nat, v: nat)
    requires SameViewsBut(s, t, pid, v) && pid in s.pds && v < V_PAGES
    ensures Abs(t).spaces == ASet(Abs(s), pid, v, View(t, t.pds[pid][v])).spaces
  {
    forall p | p in s.pds ensures
      ViewPd(t, t.pds[p]) == if p == pid then ViewPd(s, s.pds[p])[v := View(t, t.pds[pid][v])] else ViewPd(s, s.pds[p])
    {
    }
  }

  /** One entry changes its view, and nothing shared changes. */
  lemma AbsOne(s: Mem, t: Mem, pid: nat, v: nat)
    requires Wf(s) && Wf(t) && UserPage(s, pid, v) && SameViewsBut(s, t, pid, v)
    requires !View(s, s.pds[pid][v]).Alias? && !View(t, t.pds[pid][v]).Alias?
    requires forall p: nat, w: nat, f: nat :: SharedAt(s, p, w, f) ==> f < |s.page| && f < |t.page| && t.page[f] == s.page[f]
    ensures Abs(t) == ASet(Abs(s), pid, v, View(t, t.pds[pid][v]))
  {
    ViewsOne(s, t, pid, v);
    forall p: nat, w: nat, f: nat ensures SharedAt(t, p, w, f) <==> SharedAt(s, p, w, f) {
      SharedByView(s, p, w, f);
      SharedByView(t, p, w, f);
    }
    CellsSame(s, t);
  }

  // ---- the routines ---------------------------------------------------------------------

  /** Eviction is invisible. */
  lemma MakeRoomAbs(s: Mem, pid: nat)
    requires Inv(s) && pid in s.pds && MakeRoom(s, pid).Ok?
    ensures Abs(MakeRoom(s, pid).m) == Abs(s)
  {
    var t := MakeRoom(s, pid).m;
    MakeRoomInv(s, pid);
    forall p, v | p in s.pds && 0 <= v < V_PAGES ensures View(t, t.pds[p][v]) == View(s, s.pds[p][v]) {
      assert EvictedOrSame(s, t, p, v);
      assert WfPd(s, s.pds[p]) && WfPte(s, v, s.pds[p][v]);
    }
    forall p: nat, v: nat, f: nat | SharedAt(s, p, v, f) ensures f < |s.page| && t.page[f] == s.page[f] {
      assert WfPd(s, s.pds[p]) && WfPte(s, v, s.pds[p][v]);
    }
    AbsSame(s, t);
  }

  /** A fresh page is private, with whatever bytes its frame held. */
  lemma NewUserPageAbs(s: Mem, pid: nat, v: nat)
    requires Inv(s) && UserPage(s, pid, v) && NewUserPage(s, pid, v).Ok?
    ensures var t := NewUserPage(s, pid, v).m;
      Abs(t) == ASet(Abs(s), pid, v, Private(t.page[t.pds[pid][v].frame]))
  {
    var m := MakeRoom(s, pid).m;
    MakeRoomInv(s, pid);
    MakeRoomAbs(s, pid);
    MapFreshAbs(m, pid, v);
  }

  lemma MapFreshAbs(s: Mem, pid: nat, v: nat)
    requires Inv(s) && UserPage(s, pid, v) && s.free != [] && !s.pds[pid][v].Present?
    ensures Abs(MapFresh(s, pid, v)) == ASet(Abs(s), pid, v, Private(s.page[s.free[0]]))
  {
    var t := MapFresh(s, pid, v);
    SharedFrames(s);
    assert WfPte(s, v, s.pds[pid][v]);
    forall p | p in s.pds ensures |s.pds[p]| == |t.pds[p]| == V_PAGES {
      assert WfPd(s, s.pds[p]);
    }
    assert SameViewsBut(s, t, pid, v);
    AbsOne(s, t, pid, v);
  }

  /** Bytes written to a frame that one process has to itself. */
  lemma OwnWriteAbs(s: Mem, pid: nat, v: nat, x: Page)
    requires Inv(s) && OwnPage(s, pid, v)
    ensures var t := s.(page := s.page[s.pds[pid][v].frame := x]);
      Inv(t) && Abs(t) == ASet(Abs(s), pid, v, Private(x))
  {
    var g := s.pds[pid][v].frame;
    var t := s.(page := s.page[g := x]);
    ContentInv(s, t);
    assert PteOk(s, s.pds[pid][v]) && MapsTo(s, pid, v, g);
    forall p, w | p in s.pds && 0 <= w < V_PAGES && !(p == pid && w == v)
      ensures View(t, t.pds[p][w]) == View(s, s.pds[p][w])
    {
      if MapsTo(s, p, w, g) {
        MappedOnce(s, p, w, pid, v, g);
      }
    }
    forall p: nat, w: nat, f: nat | SharedAt(s, p, w, f) ensures f < |s.page| && t.page[f] == s.page[f] {
      MappedNotFree(s, p, w, f);
      if f == g {
        MappedOnce(s, p, w, pid, v, g);
      }
    }
    AbsOne(s, t, pid, v);
  }

  lemma SeekAbs(s: Mem, pid: nat)
    requires Inv(s) && pid in s.pds
    ensures Abs(Seek(s, pid)) == Abs(s)
  {
    SharedFrames(s);
    AbsSame(s, Seek(s, pid));
  }

  lemma MovedEntries(s: Mem, pid: nat, a: nat, v: nat, f: nat)
    requires Wf(s) && UserPage(s, pid, a) && UserPage(s, pid, v) && f < |s.count|
    ensures var t := MovePage(s, pid, a, v, f);
      && t.pds == s.pds[pid := s.pds[pid][a := Invalid][v := s.pds[pid][a]]]
      && t.page == s.page && t.disk == s.disk
  {
  }

  lemma MovedViews(s: Mem, pid: nat, a: nat, v: nat, f: nat)
    requires Wf(s) && OwnPage(s, pid, a) && UserPage(s, pid, v) && a != v
    requires s.pds[pid][v].Present? && s.pds[pid][v].frame == f < |s.page| && s.pds[pid][v].kind.Cow?
    requires s.page[f] == s.page[s.pds[pid][a].frame]
    ensures var t := MovePage(s, pid, a, v, f);
      SameViewsBut(s, t, pid, a) && t.page == s.page && t.pds[pid][a] == Invalid
  {
    var t := MovePage(s, pid, a, v, f);
    MovedEntries(s, pid, a, v, f);
    forall p | p in s.pds ensures |s.pds[p]| == V_PAGES {
      assert WfPd(s, s.pds[p]);
    }
    forall p, w | p in s.pds && 0 <= w < V_PAGES && !(p == pid && w == a) ensures
      View(t, t.pds[p][w]) == View(s, s.pds[p][w])
    {
    }
  }

  /** Moving a private page to another address. */
  lemma MovePageAbs(s: Mem, pid: nat, a: nat, v: nat, f: nat)
    requires Inv(s) && OwnPage(s, pid, a) && UserPage(s, pid, v) && a != v
    requires s.pds[pid][v].Present? && s.pds[pid][v].frame == f && s.pds[pid][v].kind.Cow?
    requires s.page[f] == s.page[s.pds[pid][a].frame]
    ensures Abs(MovePage(s, pid, a, v, f)) == ASet(Abs(s), pid, a, Unmapped)
  {
    var t := MovePage(s, pid, a, v, f);
    assert WfPte(s, v, s.pds[pid][v]);
    SharedFrames(s);
    MovedViews(s, pid, a, v, f);
    AbsOne(s, t, pid, a);
  }

  /** The copy made by copy-on-write is invisible. */
  lemma LoadCowAbs(s: Mem, pid: nat, v: nat)
    requires Inv(s) && UserPage(s, pid, v) && IsCow(s.pds[pid][v]) && LoadCow(s, pid, v).Ok?
    ensures Abs(LoadCow(s, pid, v).m) == Abs(s)
  {
    var f := s.pds[pid][v].frame;
    var s1 := Seek(s, pid);
    SeekInv(s, pid);
    SeekAbs(s, pid);
    MappedNotFree(s, pid, v, f);
    if s.count[f] <= 1 {
      var t := SetPte(s1, pid, v, Present(f, Assigned, true));
      SharedFrames(s1);
      AbsSame(s1, t);
    } else {
      CloneAndMoveAbs(s1, pid, s1.lastUnused, v, f);
    }
  }

  lemma CloneAndMoveAbs(s: Mem, pid: nat, a: nat, v: nat, f: nat)
    requires Inv(s) && UserPage(s, pid, a) && UserPage(s, pid, v)
    requires s.pds[pid][a].Invalid? && IsCow(s.pds[pid][v]) && s.pds[pid][v].frame == f < |s.page|
    requires ClonePage(s, pid, a, f).Ok?
    ensures Abs(MovePage(ClonePage(s, pid, a, f).m, pid, a, v, f)) == Abs(s)
  {
    var r := NewUserPage(s, pid, a).m;
    var c := ClonePage(s, pid, a, f).m;
    NewUserPageInv(s, pid, a);
    NewUserPageAbs(s, pid, a);
    ClonedContents(s, pid, a, v, f);
    OwnWriteAbs(r, pid, a, r.page[f]);
    MovePageAbs(c, pid, a, v, f);
    AUndo(Abs(s), pid, a, Private(r.page[r.pds[pid][a].frame]), Private(r.page[f]));
  }

  /** After cloning, both addresses hold the same bytes and the old entry is as before. */
  lemma ClonedContents(s: Mem, pid: nat, a: nat, v: nat, f: nat)
    requires Inv(s) && UserPage(s, pid, a) && UserPage(s, pid, v)
    requires s.pds[pid][a].Invalid? && IsCow(s.pds[pid][v]) && s.pds[pid][v].frame == f < |s.page|
    requires ClonePage(s, pid, a, f).Ok?
    ensures var c := ClonePage(s, pid, a, f).m;
      c.pds[pid][v] == s.pds[pid][v] && c.page[f] == c.page[c.pds[pid][a].frame]
  {
    var m := MakeRoom(s, pid).m;
    MakeRoomInv(s, pid);
    assert EvictedOrSame(s, m, pid, v);
  }

  /** Writing an unmapped page twice and unmapping it again changes nothing. */
  lemma AUndo(a: AMem, pid: nat, v: nat, x: APage, y: APage)
    requires AUser(a, pid, v) && a.spaces[pid][v] == Unmapped
    ensures ASet(ASet(ASet(a, pid, v, x), pid, v, y), pid, v, Unmapped) == a
  {
    assert a.spaces[pid][v := x][v := y][v := Unmapped] == a.spaces[pid];
    assert a.spaces[pid := a.spaces[pid]] == a.spaces;
  }

  /** A page read back from the swap area is the page that was there. */
  lemma SwapInAbs(s: Mem, pid: nat, v: nat)
    requires Inv(s) && UserPage(s, pid, v) && s.pds[pid][v].Swapped? && SwapIn(s, pid, v).Ok?
    ensures Abs(SwapIn(s, pid, v).m) == Abs(s)
  {
    var r := NewUserPage(s, pid, v).m;
    var id := s.pds[pid][v].id;
    SwappedPage(s, pid, v);
    NewUserPageInv(s, pid, v);
    NewUserPageAbs(s, pid, v);
    OwnWriteAbs(r, pid, v, r.disk[id]);
    ARestore(Abs(s), pid, v, Private(r.page[r.pds[pid][v].frame]));
  }

  lemma SwappedPage(s: Mem, pid: nat, v: nat)
    requires Wf(s) && UserPage(s, pid, v) && s.pds[pid][v].Swapped?
    ensures s.pds[pid][v].id < |s.disk|
    ensures AUser(Abs(s), pid, v) && Abs(s).spaces[pid][v] == Private(s.disk[s.pds[pid][v].id])
  {
    assert WfPd(s, s.pds[pid]) && WfPte(s, v, s.pds[pid][v]);
  }

  lemma ARestore(a: AMem, pid: nat, v: nat, x: APage)
    requires AUser(a, pid, v)
    ensures ASet(ASet(a, pid, v, x), pid, v, a.spaces[pid][v]) == a
  {
    assert a.spaces[pid][v := x][v := a.spaces[pid][v]] == a.spaces[pid];
    assert a.spaces[pid := a.spaces[pid]] == a.spaces;
  }

  /** A user access only fixes the bytes of a requested page, and is then let through. */
  lemma TouchAbs(s: Mem, pid: nat, v: nat, write: bool) returns (p: Page)
    requires Inv(s) && UserPage(s, pid, v) && Touch(s, pid, v, write).Ok?
    ensures Abs(Touch(s, pid, v, write).m) == ASettle(Abs(s), pid, v, p)
    ensures Accessible(Touch(s, pid, v, write).m, pid, v, write)
  {
    var t := Touch(s, pid, v, write).m;
    var e := s.pds[pid][v];
    TouchInv(s, pid, v, write);
    p := *;
    if !Accessible(s, pid, v, write) {
      if e.Swapped? {
        SwapInAbs(s, pid, v);
      } else if e.Requested? {
        NewUserPageAbs(s, pid, v);
        p := t.page[t.pds[pid][v].frame];
      } else {
        LoadCowAbs(s, pid, v);
      }
    }
  }

  /** The bytes behind a present page are what the process reads in the simple memory. */
  lemma ReadAgrees(s: Mem, pid: nat, v: nat)
    requires Inv(s) && UserPage(s, pid, v) && s.pds[pid][v].Present?
    ensures s.pds[pid][v].frame < |s.page|
    ensures ARead(Abs(s), pid, v) == Some(s.page[s.pds[pid][v].frame])
  {
    var f := s.pds[pid][v].frame;
    assert WfPd(s, s.pds[pid]) && WfPte(s, v, s.pds[pid][v]);
    assert MapsTo(s, pid, v, f);
    if s.pds[pid][v].kind.Shared? {
      assert SharedAt(s, pid, v, f);
    }
  }

  /** A write through any entry but a copy-on-write one with company is a write of the simple memory. */
  lemma WriteAbs(s: Mem, pid: nat, v: nat, x: Page)
    requires Inv(s) && UserPage(s, pid, v) && s.pds[pid][v].Present?
    requires s.pds[pid][v].kind.Cow? ==> s.count[s.pds[pid][v].frame] == 1
    ensures var t := s.(page := s.page[s.pds[pid][v].frame := x]);
      Inv(t) && Abs(t) == AWrite(Abs(s), pid, v, x)
  {
    var g := s.pds[pid][v].frame;
    var t := s.(page := s.page[g := x]);
    assert WfPd(s, s.pds[pid]) && WfPte(s, v, s.pds[pid][v]) && PteOk(s, s.pds[pid][v]);
    assert MapsTo(s, pid, v, g);
    match s.pds[pid][v].kind {
      case Assigned =>
        OwnWriteAbs(s, pid, v, x);
      case Cow =>
        var u := SetPte(s, pid, v, Present(g, Assigned, true));
        var w := u.(page := u.page[g := x]);
        RekindInv(s, pid, v, Present(g, Assigned, true));
        AbsRekind(s, pid, v);
        OwnWriteAbs(u, pid, v, x);
        ContentInv(s, t);
        AbsRekind(t, pid, v);
      case Shared =>
        ContentInv(s, t);
        SharedWriteAbs(s, pid, v, x);
    }
  }

  /** Private is private, whether assigned or copy-on-write. */
  lemma AbsRekind(s: Mem, pid: nat, v: nat)
    requires Inv(s) && UserPage(s, pid, v) && s.pds[pid][v].Present? && s.pds[pid][v].kind.Cow?
    ensures Abs(SetPte(s, pid, v, Present(s.pds[pid][v].frame, Assigned, true))) == Abs(s)
  {
    var t := SetPte(s, pid, v, Present(s.pds[pid][v].frame, Assigned, true));
    assert WfPd(s, s.pds[pid]) && WfPte(s, v, s.pds[pid][v]);
    SharedFrames(s);
    AbsSame(s, t);
  }

  /** A write through a shared entry reaches every process that shares it, and no other. */
  lemma SharedWriteAbs(s: Mem, pid: nat, v: nat, x: Page)
    requires Inv(s) && UserPage(s, pid, v) && s.pds[pid][v].Present? && s.pds[pid][v].kind.Shared?
    requires s.pds[pid][v].frame < |s.page|
    ensures Abs(s.(page := s.page[s.pds[pid][v].frame := x])) == AWrite(Abs(s), pid, v, x)
  {
    var g := s.pds[pid][v].frame;
    var t := s.(page := s.page[g := x]);
    assert MapsTo(s, pid, v, g) && SharedAt(s, pid, v, g);
    forall p | p in s.pds ensures ViewPd(t, s.pds[p]) == ViewPd(s, s.pds[p]) {
      forall w | 0 <= w < |s.pds[p]| ensures View(t, s.pds[p][w]) == View(s, s.pds[p][w]) {
        assert s.pds[p][w].Present? ==> MapsTo(s, p, w, s.pds[p][w].frame);
      }
    }
    assert forall p: nat, w: nat, f: nat :: SharedAt(t, p, w, f) <==> SharedAt(s, p, w, f);
    assert Cells(t) == Cells(s)[g := x];
  }

  /** Sharing a page turns it into an alias of a cell that no other page aliases. */
  lemma MarkSharedAbs(s: Mem, pid: nat, v: nat)
    requires Inv(s) && UserPage(s, pid, v) && s.pds[pid][v].Present? && !s.pds[pid][v].kind.Cow?
    ensures var e := s.pds[pid][v];
      Abs(SetPte(s, pid, v, e.(kind := Kind.Shared))) == AShare(Abs(s), pid, v, e.frame)
    ensures s.pds[pid][v].kind.Assigned? ==> !Aliased(Abs(s), s.pds[pid][v].frame)
  {
    var e := s.pds[pid][v];
    var g := e.frame;
    var t := SetPte(s, pid, v, e.(kind := Kind.Shared));
    assert WfPd(s, s.pds[pid]) && WfPte(s, v, e) && PteOk(s, e);
    assert MapsTo(s, pid, v, g);
    if e.kind.Shared? {
      assert s.pds[pid][v := e] == s.pds[pid] && s.pds[pid := s.pds[pid]] == s.pds;
    } else {
      forall p: nat, w: nat | MapsTo(s, p, w, g) ensures p == pid && w == v {
        MappedOnce(s, p, w, pid, v, g);
      }
      NewCellAbs(s, pid, v);
    }
  }

  lemma NewCellAbs(s: Mem, pid: nat, v: nat)
    requires Wf(s) && UserPage(s, pid, v) && s.pds[pid][v].Present? && s.pds[pid][v].kind.Assigned?
    requires forall p: nat, w: nat :: MapsTo(s, p, w, s.pds[pid][v].frame) ==> p == pid && w == v
    ensures var e := s.pds[pid][v];
      Abs(SetPte(s, pid, v, e.(kind := Kind.Shared))) == AShare(Abs(s), pid, v, e.frame)
    ensures !Aliased(Abs(s), s.pds[pid][v].frame)
  {
    var e := s.pds[pid][v];
    var g := e.frame;
    var t := SetPte(s, pid, v, e.(kind := Kind.Shared));
    assert WfPd(s, s.pds[pid]) && WfPte(s, v, e);
    assert SameViewsBut(s, t, pid, v) by {
      assert forall p :: p in s.pds ==> WfPd(s, s.pds[p]) && WfPd(t, t.pds[p]);
    }
    ViewsOne(s, t, pid, v);
    NewCell(s, pid, v);
    forall p: nat, w: nat | AUser(Abs(s), p, w) ensures Abs(s).spaces[p][w] != Alias(g) {
      assert s.pds[p][w].Present? ==> MapsTo(s, p, w, s.pds[p][w].frame);
    }
  }

  lemma NewCell(s: Mem, pid: nat, v: nat)
    requires Wf(s) && UserPage(s, pid, v) && s.pds[pid][v].Present?
    requires s.pds[pid][v].frame < |s.page| && s.pds[pid][v].kind.Assigned?
    ensures var e := s.pds[pid][v];
      Cells(SetPte(s, pid, v, e.(kind := Kind.Shared))) == Cells(s)[e.frame := s.page[e.frame]]
  {
    var e := s.pds[pid][v];
    var g := e.frame;
    var t := SetPte(s, pid, v, e.(kind := Kind.Shared));
    assert SharedAt(t, pid, v, g);
    forall p: nat, w: nat, f: nat ensures
      SharedAt(t, p, w, f) <==> SharedAt(s, p, w, f) || (p == pid && w == v && f == g)
    {
    }
  }

  /** `mm_share_page` as a step of the simple memory, with its return code. */
  lemma SharePageAbs(s: Mem, pid: nat, v: nat) returns (p: Page, c: nat)
    requires Inv(s) && UserPage(s, pid, v) && SharePage(s, pid, v).Ok?
    ensures var a := ASettle(Abs(s), pid, v, p);
      Abs(SharePage(s, pid, v).m) == (if ShareResult(s, pid, v) == Shared0 then AShare(a, pid, v, c) else a)
    ensures var a := ASettle(Abs(s), pid, v, p); a.spaces[pid][v].Private? ==> !Aliased(a, c)
    ensures ShareResult(s, pid, v) == Shared0 <==> !s.pds[pid][v].Invalid? && !s.pds[pid][v].Swapped?
    ensures ShareResult(s, pid, v) == Shared0 ==> !Abs(s).spaces[pid][v].Unmapped?
  {
    var r := PrepareShare(s, pid, v).m;
    var e := s.pds[pid][v];
    PrepareShareInv(s, pid, v);
    PreparedKind(s, pid, v);
    assert WfPd(s, s.pds[pid]) && WfPte(s, v, e);
    p, c := *, *;
    if e.Requested? {
      NewUserPageAbs(s, pid, v);
      p := r.page[r.pds[pid][v].frame];
    } else if IsCow(e) {
      LoadCowAbs(s, pid, v);
    }
    if r.pds[pid][v].Present? {
      MarkSharedAbs(r, pid, v);
      c := r.pds[pid][v].frame;
    } else {
      c := UnusedCell(s);
    }
  }

  /** Some cell that nothing aliases, for the steps that do not need one. */
  lemma UnusedCell(s: Mem) returns (c: nat)
    requires Inv(s)
    ensures forall p: Page, pid: nat, v: nat :: AUser(Abs(s), pid, v) ==> !Aliased(ASettle(Abs(s), pid, v, p), c)
  {
    c := |s.count|;
    forall p: nat, w: nat | AUser(Abs(s), p, w) ensures Abs(s).spaces[p][w] != Alias(c) {
      assert WfPd(s, s.pds[p]) && WfPte(s, w, s.pds[p][w]);
    }
  }

  // ---- processes --------------------------------------------------------------------------

  lemma SpawnAbs(s: Mem, pid: nat)
    requires Inv(s) && pid !in s.pds
    ensures Abs(Spawn(s, pid)) == ASpawn(Abs(s), pid)
  {
    var t := Spawn(s, pid);
    assert ViewPd(t, EmptyPd()) == seq(V_PAGES, _ => Unmapped);
    forall p | p in s.pds ensures ViewPd(t, t.pds[p]) == ViewPd(s, s.pds[p]) {
    }
    assert forall p: nat, w: nat, f: nat :: SharedAt(t, p, w, f) <==> SharedAt(s, p, w, f);
    assert Cells(t) == Cells(s);
  }

  /** What `mm_clone_pd` leaves in both directories once it has passed `n` pages. */
  ghost predicate Forked(s: Mem, t: Mem, parent: nat, child: nat, n: nat)
    requires Wf(s) && Wf(t) && parent in s.pds && child in s.pds && s.pds.Keys == t.pds.Keys
  {
    && t == s.(count := t.count, pds := t.pds)
    && (forall p :: p in s.pds && p != parent && p != child ==> t.pds[p] == s.pds[p])
    && (forall v :: 0 <= v < V_PAGES ==> ForkedEntry(s.pds[parent][v], s.pds[child][v], t.pds[parent][v], t.pds[child][v], v, n))
  }

  ghost predicate ForkedEntry(p: Pte, c: Pte, p': Pte, c': Pte, v: nat, n: nat) {
    && p' == (if v < n then CloneEntry(p) else p)
    && c' == (if KERNEL_LIMIT <= v < n && !Skipped(p) then CloneEntry(p) else c)
  }

  lemma {:induction false} ForkEntries(s: Mem, parent: nat, child: nat, n: nat)
    requires Wf(s) && parent in s.pds && child in s.pds && parent != child && KERNEL_LIMIT <= n <= V_PAGES
    ensures Forked(s, ForkUpTo(s, parent, child, n), parent, child, n)
  {
    if n == KERNEL_LIMIT {
      ForkEntriesStart(s, parent, child);
      assert ForkUpTo(s, parent, child, n) == s;
    } else {
      var t := ForkUpTo(s, parent, child, n - 1);
      ForkEntries(s, parent, child, n - 1);
      ForkEntryStep(s, t, parent, child, n - 1);
      assert ForkUpTo(s, parent, child, n) == ForkStep(t, parent, child, n - 1);
    }
  }

  lemma ForkEntriesStart(s: Mem, parent: nat, child: nat)
    requires Wf(s) && parent in s.pds && child in s.pds && parent != child
    ensures Forked(s, s, parent, child, KERNEL_LIMIT)
  {
    forall v | 0 <= v < V_PAGES ensures
      ForkedEntry(s.pds[parent][v], s.pds[child][v], s.pds[parent][v], s.pds[child][v], v, KERNEL_LIMIT)
    {
      assert WfPd(s, s.pds[parent]) && WfPte(s, v, s.pds[parent][v]);
    }
  }

  lemma ForkEntryStep(s: Mem, t: Mem, parent: nat, child: nat, v: nat)
    requires Wf(s) && Wf(t) && parent in s.pds && child in s.pds && s.pds.Keys == t.pds.Keys && parent != child
    requires KERNEL_LIMIT <= v < V_PAGES && Forked(s, t, parent, child, v)
    ensures Forked(s, ForkStep(t, parent, child, v), parent, child, v + 1)
  {
    assert ForkedEntry(s.pds[parent][v], s.pds[child][v], t.pds[parent][v], t.pds[child][v], v, v);
    var u := ForkStep(t, parent, child, v);
    forall w | 0 <= w < V_PAGES ensures
      ForkedEntry(s.pds[parent][w], s.pds[child][w], u.pds[parent][w], u.pds[child][w], w, v + 1)
    {
      assert ForkedEntry(s.pds[parent][w], s.pds[child][w], t.pds[parent][w], t.pds[child][w], w, v);
    }
  }

  ghost predicate NoSwapped(s: Mem, pid: nat) {
    pid in s.pds && forall v :: 0 <= v < |s.pds[pid]| ==> !s.pds[pid][v].Swapped?
  }

  /** The same for a whole fork, starting from a child with an empty directory. */
  lemma ForkAll(s: Mem, parent: nat, child: nat)
    requires Wf(s) && parent in s.pds && child !in s.pds
    ensures var t := Fork(s, parent, child);
      && t == s.(count := t.count, pds := t.pds)
      && (forall p :: p in s.pds && p != parent ==> t.pds[p] == s.pds[p])
      && (forall v :: 0 <= v < V_PAGES ==> t.pds[parent][v] == CloneEntry(s.pds[parent][v]))
      && (forall v :: 0 <= v < V_PAGES ==>
           (t.pds[child][v] == if s.pds[parent][v].Swapped? then Invalid else CloneEntry(s.pds[parent][v])))
  {
    var e := Spawn(s, child);
    var t := Fork(s, parent, child);
    ForkEntries(e, parent, child, V_PAGES);
    assert WfPd(s, s.pds[parent]);
    forall v | 0 <= v < V_PAGES ensures t.pds[parent][v] == CloneEntry(s.pds[parent][v])
      && t.pds[child][v] == if s.pds[parent][v].Swapped? then Invalid else CloneEntry(s.pds[parent][v])
    {
      assert ForkedEntry(s.pds[parent][v], e.pds[child][v], t.pds[parent][v], t.pds[child][v], v, V_PAGES);
      assert WfPte(s, v, s.pds[parent][v]);
      assert e.pds[child][v] == if v < KERNEL_LIMIT then Kernel else Invalid;
    }
  }

  /** Turning an assigned page copy-on-write is invisible. */
  lemma CloneView(s: Mem, t: Mem, e: Pte)
    requires t.page == s.page && t.disk == s.disk
    ensures View(t, CloneEntry(e)) == View(s, e)
  {
  }

  /** What parent and child of a fork see. */
  lemma ForkViews(s: Mem, parent: nat, child: nat)
    requires Wf(s) && parent in s.pds && child !in s.pds
    ensures var t := Fork(s, parent, child);
      && t.page == s.page && t.disk == s.disk
      && (forall p, v :: p in s.pds && 0 <= v < V_PAGES ==> View(t, t.pds[p][v]) == View(s, s.pds[p][v]))
      && (forall v :: 0 <= v < V_PAGES ==>
           (View(t, t.pds[child][v]) == if s.pds[parent][v].Swapped? then Unmapped else View(s, s.pds[parent][v])))
  {
    var t := Fork(s, parent, child);
    ForkAll(s, parent, child);
    forall p, v | p in s.pds && 0 <= v < V_PAGES ensures View(t, t.pds[p][v]) == View(s, s.pds[p][v]) {
      CloneView(s, t, s.pds[p][v]);
    }
    forall v | 0 <= v < V_PAGES ensures
      View(t, t.pds[child][v]) == if s.pds[parent][v].Swapped? then Unmapped else View(s, s.pds[parent][v])
    {
      CloneView(s, t, s.pds[parent][v]);
    }
  }

  /** Fork is the eager copy exactly when no page of the parent is in the swap area. */
  lemma ForkAbs(s: Mem, parent: nat, child: nat)
    requires Inv(s) && parent in s.pds && child !in s.pds
    ensures Abs(Fork(s, parent, child)) == AFork(Abs(s), parent, child) <==> NoSwapped(s, parent)
  {
    if NoSwapped(s, parent) {
      ForkInv(s, parent, child);
      ForkSpaces(s, parent, child);
      ForkCells(s, parent, child);
    } else {
      var v :| 0 <= v < |s.pds[parent]| && s.pds[parent][v].Swapped?;
      ForkDropsSwapped(s, parent, child, v);
    }
  }

  lemma ForkSpaces(s: Mem, parent: nat, child: nat)
    requires Wf(s) && parent in s.pds && child !in s.pds && NoSwapped(s, parent)
    ensures Abs(Fork(s, parent, child)).spaces == AFork(Abs(s), parent, child).spaces
  {
    var t := Fork(s, parent, child);
    ForkViews(s, parent, child);
    forall p | p in t.pds ensures ViewPd(t, t.pds[p]) == ViewPd(s, s.pds[if p == child then parent else p]) {
      assert WfPd(t, t.pds[p]) && WfPd(s, s.pds[if p == child then parent else p]);
    }
  }

  lemma ForkDropsSwapped(s: Mem, parent: nat, child: nat, v: nat)
    requires Wf(s) && parent in s.pds && child !in s.pds && v < |s.pds[parent]| && s.pds[parent][v].Swapped?
    ensures AUser(Abs(Fork(s, parent, child)), child, v)
    ensures Abs(Fork(s, parent, child)).spaces[child][v] == Unmapped
    ensures AFork(Abs(s), parent, child).spaces[child][v].Private?
  {
    var t := Fork(s, parent, child);
    ForkViews(s, parent, child);
    assert WfPd(s, s.pds[parent]) && WfPte(s, v, s.pds[parent][v]) && WfPd(t, t.pds[child]);
  }

  lemma ForkCells(s: Mem, parent: nat, child: nat)
    requires Inv(s) && parent in s.pds && child !in s.pds && Inv(Fork(s, parent, child))
    ensures Cells(Fork(s, parent, child)) == Cells(s)
  {
    var t := Fork(s, parent, child);
    ForkViews(s, parent, child);
    forall p: nat, v: nat, f: nat | SharedAt(t, p, v, f) ensures SharedAt(s, if p == child then parent else p, v, f) {
      var q := if p == child then parent else p;
      assert WfPd(t, t.pds[p]) && WfPte(t, v, t.pds[p][v]);
      assert WfPd(s, s.pds[q]) && WfPte(s, v, s.pds[q][v]);
      assert View(t, t.pds[p][v]) == Alias(f);
    }
    forall p: nat, v: nat, f: nat | SharedAt(s, p, v, f) ensures SharedAt(t, p, v, f) {
      assert WfPd(s, s.pds[p]) && WfPte(s, v, s.pds[p][v]);
      assert WfPd(t, t.pds[p]) && WfPte(t, v, t.pds[p][v]);
      assert View(t, t.pds[p][v]) == Alias(f);
    }
  }

  lemma ExitAbs(s: Mem, pid: nat)
    requires Inv(s) && pid in s.pds
    ensures Abs(Exit(s, pid)) == AExit(Abs(s), pid)
  {
    var t := Exit(s, pid);
    FreedEntries(s, pid, V_PAGES);
    forall p | p in t.pds ensures ViewPd(t, t.pds[p]) == ViewPd(s, s.pds[p]) {
    }
    var b := Abs(s).(spaces := Abs(s).spaces - {pid});
    assert Abs(t).spaces == b.spaces;
    ExitCells(s, t, pid);
  }

  lemma ExitCells(s: Mem, t: Mem, pid: nat)
    requires Wf(s) && pid in s.pds && t.pds == s.pds - {pid} && t.page == s.page && t.disk == s.disk
    ensures Cells(t) == AExit(Abs(s), pid).cells
  {
    var b := Abs(s).(spaces := Abs(s).spaces - {pid});
    forall c: nat ensures c in Cells(t) <==> c in Cells(s) && Aliased(b, c) {
      if c in Cells(t) {
        var p: nat, v: nat :| SharedAt(t, p, v, c);
        assert SharedAt(s, p, v, c) && b.spaces[p][v] == Alias(c);
      }
      if c in Cells(s) && Aliased(b, c) {
        var p: nat, v: nat :| AUser(b, p, v) && b.spaces[p][v] == Alias(c);
        assert SharedAt(t, p, v, c);
      }
    }
  }

  /** The directories after a fork followed by the child's exit. */
  lemma ForkExitEntries(s: Mem, parent: nat, child: nat)
    requires Wf(s) && parent in s.pds && child !in s.pds
    ensures var t := Exit(Fork(s, parent, child), child);
      && t.pds.Keys == s.pds.Keys && t.page == s.page && t.disk == s.disk
      && (forall p :: p in s.pds && p != parent ==> t.pds[p] == s.pds[p])
      && (forall v :: 0 <= v < V_PAGES ==> t.pds[parent][v] == CloneEntry(s.pds[parent][v]))
  {
    ForkAll(s, parent, child);
    FreedEntries(Fork(s, parent, child), child, V_PAGES);
  }

  /**
   Forking and then exiting in the child gives back what fork took: every count and the
   set of free frames; the parent only finds its assigned pages marked copy-on-write.
   */
  lemma ForkThenExit(s: Mem, parent: nat, child: nat)
    requires Inv(s) && parent in s.pds && child !in s.pds
    ensures var t := Exit(Fork(s, parent, child), child);
      && t.count == s.count
      && (forall f: nat :: f < |s.count| ==> (f in t.free <==> f in s.free))
      && Abs(t) == Abs(s)
  {
    var u := Fork(s, parent, child);
    var t := Exit(u, child);
    ForkInv(s, parent, child);
    ExitInv(u, child);
    ForkExitEntries(s, parent, child);
    ClonedCounts(s, t, parent);
    forall p, v | p in s.pds && 0 <= v < V_PAGES ensures View(t, t.pds[p][v]) == View(s, s.pds[p][v]) {
      CloneView(s, t, s.pds[p][v]);
    }
    SharedFrames(s);
    AbsSame(s, t);
  }

  /** Marking a directory copy-on-write changes no count. */
  lemma ClonedCounts(s: Mem, t: Mem, parent: nat)
    requires Inv(s) && Inv(t) && s.pds.Keys == t.pds.Keys && parent in s.pds && |t.page| == |s.page|
    requires forall p :: p in s.pds && p != parent ==> t.pds[p] == s.pds[p]
    requires forall v :: 0 <= v < V_PAGES ==> t.pds[parent][v] == CloneEntry(s.pds[parent][v])
    ensures t.count == s.count
    ensures forall f: nat :: f < |s.count| ==> (f in t.free <==> f in s.free)
  {
    forall p: nat, v: nat, f: nat ensures MapsTo(t, p, v, f) <==> MapsTo(s, p, v, f) {
    }
    forall f | 0 <= f < |s.count| ensures t.count[f] == s.count[f] {
      assert Maps(t, f) == Maps(s, f);
    }
  }
}
