/**
 The `page_t` table of `mm.c`: a reference count per frame and a free list threaded
 through the table. The model on values is `Frames`; the class works on the pointers.
 */
module FrameTable {
  import opened Links
  import P = PagingModel

  datatype Frames = Frames(count: seq<int>, free: seq<int>)

  ghost predicate Sound(s: Frames) {
    && Distinct(s.free)
    && (forall i :: 0 <= i < |s.free| ==> 0 <= s.free[i] < |s.count|)
    && (forall f :: 0 <= f < |s.count| ==> s.count[f] >= 0 && (s.count[f] == 0 <==> f in s.free))
  }

  ghost function IndexOf(s: seq<int>, f: int): (k: nat)
    requires f in s
    ensures k < |s| && s[k] == f
  {
    if s[0] == f then 0 else 1 + IndexOf(s[1..], f)
  }

  /** `return_page`. */
  ghost function Return(s: Frames, f: int): Frames
    requires 0 <= f < |s.count|
  {
    if s.count[f] <= 0 then s
    else if s.count[f] > 1 then s.(count := s.count[f := s.count[f] - 1])
    else Frames(s.count[f := 0], if s.free == [] then [f] else [s.free[0], f] + s.free[1..])
  }

  /** `reserve_page`, wherever on the free list the frame is, if it is there at all. */
  ghost function Reserve(s: Frames, f: int): Frames
    requires 0 <= f < |s.count|
  {
    Frames(s.count[f := s.count[f] + 1], if f in s.free then Without(s.free, IndexOf(s.free, f)) else s.free)
  }

  /** A frame that becomes free is taken again after the one that was next before. */
  lemma ReturnedSecond(s: Frames, f: int)
    requires Sound(s) && 0 <= f < |s.count| && s.count[f] == 1
    ensures var t := Return(s, f);
      && |t.free| == |s.free| + 1 && t.count[f] == 0
      && (s.free == [] ==> t.free[0] == f)
      && (s.free != [] ==> t.free[0] == s.free[0] && t.free[1] == f && t.free[2..] == s.free[1..])
  {
  }

  lemma ReturnSound(s: Frames, f: int)
    requires Sound(s) && 0 <= f < |s.count|
    ensures Sound(Return(s, f))
  {
    if s.count[f] == 1 && s.free != [] {
      InsertedDistinct(s.free, f);
      var t := [s.free[0], f] + s.free[1..];
      assert forall g :: g in t <==> g == f || g in s.free;
    }
  }

  lemma ReserveSound(s: Frames, f: int)
    requires Sound(s) && 0 <= f < |s.count|
    ensures Sound(Reserve(s, f))
  {
    if f in s.free {
      var k := IndexOf(s.free, f);
      WithoutDistinct(s.free, k);
      assert forall g :: g in s.free <==> g == f || g in Without(s.free, k);
    }
  }

  /** Reserving a free frame and returning it frees the same frames as before. */
  lemma ReserveThenReturn(s: Frames, f: int)
    requires Sound(s) && 0 <= f < |s.count|
    ensures Return(Reserve(s, f), f).count == s.count
    ensures forall g :: g in Return(Reserve(s, f), f).free <==> g in s.free
  {
    var r := Reserve(s, f);
    ReserveSound(s, f);
    ReturnSound(r, f);
    var t := Return(r, f);
    assert t.count == s.count;
    forall g ensures g in t.free <==> g in s.free {
      if 0 <= g < |s.count| {
        assert s.count[g] == 0 <==> g in s.free;
        assert t.count[g] == 0 <==> g in t.free;
      }
    }
  }

  /** The memory manager's model of user frames moves counts and free list the same way. */
  lemma UserFramesAgree(s: P.Mem, f: nat)
    requires f < |s.count|
    ensures var t := P.ReturnPage(s, f); Frames(t.count, t.free) == Return(Frames(s.count, s.free), f)
    ensures s.free != [] && s.free[0] == f ==>
      var t := P.TakeFree(s); Frames(t.count, t.free) == Reserve(Frames(s.count, s.free), f)
  {
    if s.free != [] && s.free[0] == f {
      assert IndexOf(s.free, f) == 0 && Without(s.free, 0) == s.free[1..];
    }
  }

  /** So does fork, which reserves frames that are mapped and so on no list. */
  lemma ForkFramesAgree(s: P.Mem, parent: nat, child: nat, v: nat)
    requires P.Wf(s) && P.UserPage(s, parent, v) && P.UserPage(s, child, v)
    requires s.pds[parent][v].Present? && s.pds[parent][v].frame < |s.count| && s.pds[parent][v].frame !in s.free
    ensures var t := P.ForkStep(s, parent, child, v);
      Frames(t.count, t.free) == Reserve(Frames(s.count, s.free), s.pds[parent][v].frame)
  {
    var free: seq<int> := s.free;
    assert s.pds[parent][v].frame !in free;
  }

  // ---- the page tables of a directory ---------------------------------------------------------

  ghost predicate InRange(s: Frames, fs: seq<int>) {
    forall i :: 0 <= i < |fs| ==> fs[i] == NIL || 0 <= fs[i] < |s.count|
  }

  /** Frames that are there get returned, in order; `NIL` marks an absent table. */
  ghost function ReturnAll(s: Frames, fs: seq<int>): (t: Frames)
    requires InRange(s, fs)
    ensures |t.count| == |s.count|
  {
    if fs == [] then s
    else
      var last := fs[|fs| - 1];
      var r := ReturnAll(s, fs[..|fs| - 1]);
      if last == NIL then r else Return(r, last)
  }

  lemma ReturnAllStep(s: Frames, fs: seq<int>, i: nat)
    requires InRange(s, fs) && i < |fs|
    ensures InRange(s, fs[..i]) && InRange(s, fs[..i + 1])
    ensures ReturnAll(s, fs[..i + 1]) == if fs[i] == NIL then ReturnAll(s, fs[..i]) else Return(ReturnAll(s, fs[..i]), fs[i])
    ensures i == 0 ==> ReturnAll(s, fs[..i]) == s
  {
    assert fs[..i + 1][..i] == fs[..i];
  }

  ghost predicate TablesOk(s: Frames, fs: seq<int>) {
    && (forall i :: 0 <= i < |fs| ==> fs[i] == NIL || (0 <= fs[i] < |s.count| && s.count[fs[i]] == 1))
    && (forall i, j :: 0 <= i < j < |fs| && fs[i] != NIL ==> fs[i] != fs[j])
  }

  /** Frames held once are freed, each of them once, and no other count changes. */
  lemma {:induction false} ReturnAllFrees(s: Frames, fs: seq<int>)
    requires Sound(s) && TablesOk(s, fs)
    ensures Sound(ReturnAll(s, fs))
    ensures forall f :: 0 <= f < |s.count| ==> ReturnAll(s, fs).count[f] == if f in fs then 0 else s.count[f]
  {
    if fs != [] {
      var front := fs[..|fs| - 1];
      var last := fs[|fs| - 1];
      assert TablesOk(s, front);
      ReturnAllFrees(s, front);
      assert fs == front + [last];
      if last != NIL {
        assert last !in front;
        ReturnSound(ReturnAll(s, front), last);
      }
    }
  }

  /** Frames whose count is zero already are returned to no effect. */
  lemma {:induction false} ReturnAllIdle(s: Frames, fs: seq<int>)
    requires forall i :: 0 <= i < |fs| ==> fs[i] == NIL || (0 <= fs[i] < |s.count| && s.count[fs[i]] == 0)
    ensures ReturnAll(s, fs) == s
  {
    if fs != [] {
      ReturnAllIdle(s, fs[..|fs| - 1]);
    }
  }

  /**
   `mm_dir_free` returns every table twice, because its second loop repeats the first, and
   then the directory. The repetition is harmless: all are freed, once.
   */
  lemma DirFreeOnce(s: Frames, tables: seq<int>, dir: int)
    requires Sound(s) && TablesOk(s, tables + [dir]) && dir != NIL
    ensures TablesOk(s, tables)
    ensures var t := ReturnAll(ReturnAll(s, tables), tables + [dir]);
      && t == ReturnAll(s, tables + [dir])
      && Sound(t)
      && (forall f :: 0 <= f < |s.count| ==> t.count[f] == if f in tables || f == dir then 0 else s.count[f])
  {
    var all := tables + [dir];
    assert forall i :: 0 <= i < |tables| ==> all[i] == tables[i];
    assert TablesOk(s, tables);
    var once := ReturnAll(s, tables);
    ReturnAllFrees(s, tables);
    ReturnAllIdle(once, tables);
    assert all[..|all| - 1] == tables && all[|all| - 1] == dir;
    ReturnAllFrees(s, all);
    assert forall f :: f in all <==> f in tables || f == dir;
  }

  // ---- what fork takes and exit gives back ---------------------------------------------------------

  /** `take_free_page` on a list that is not empty. */
  ghost function TakeHead(s: Frames): Frames
    requires s.free != [] && 0 <= s.free[0] < |s.count|
  {
    Frames(s.count[s.free[0] := s.count[s.free[0]] + 1], s.free[1..])
  }

  lemma TakeHeadReserves(s: Frames)
    requires Sound(s) && s.free != []
    ensures TakeHead(s) == Reserve(s, s.free[0]) && Sound(TakeHead(s))
  {
    ReserveSound(s, s.free[0]);
    assert IndexOf(s.free, s.free[0]) == 0 && Without(s.free, 0) == s.free[1..];
  }

  /** The same, `m` times. */
  ghost function TakeHeads(s: Frames, m: nat): (t: Frames)
    requires InRange(s, s.free) && NIL !in s.free && m <= |s.free|
    ensures t.free == s.free[m..] && |t.count| == |s.count|
  {
    if m == 0 then s
    else
      var r := TakeHeads(s, m - 1);
      assert r.free[0] == s.free[m - 1] && s.free[m - 1] in s.free;
      TakeHead(r)
  }

  lemma SoundFree(s: Frames)
    requires Sound(s)
    ensures InRange(s, s.free) && NIL !in s.free
  {
  }

  lemma {:induction false} TakeHeadsSound(s: Frames, m: nat)
    requires Sound(s) && InRange(s, s.free) && NIL !in s.free && m <= |s.free|
    ensures Sound(TakeHeads(s, m))
  {
    if m > 0 {
      TakeHeadsSound(s, m - 1);
      TakeHeadReserves(TakeHeads(s, m - 1));
    }
  }

  lemma TakeNext(s: Frames, m: nat)
    requires InRange(s, s.free) && NIL !in s.free && 0 < m <= |s.free|
    ensures var r, x := TakeHeads(s, m - 1), s.free[m - 1];
      0 <= x < |s.count| && TakeHeads(s, m).count == r.count[x := r.count[x] + 1]
  {
    assert s.free[m - 1] in s.free && TakeHeads(s, m - 1).free[0] == s.free[m - 1];
  }

  lemma InFront(a: seq<int>, m: nat, f: int)
    requires Distinct(a) && 0 < m <= |a|
    ensures f in a[..m] <==> f in a[..m - 1] || f == a[m - 1]
    ensures a[m - 1] !in a[..m - 1]
  {
    assert a[..m] == a[..m - 1] + [a[m - 1]];
  }

  /** The frames taken are held once more than before, and no other count has changed. */
  lemma {:induction false} TakenCount(s: Frames, m: nat, f: int)
    requires Sound(s) && InRange(s, s.free) && NIL !in s.free && m <= |s.free| && 0 <= f < |s.count|
    ensures TakeHeads(s, m).count[f] == s.count[f] + if f in s.free[..m] then 1 else 0
  {
    if m > 0 {
      TakenCount(s, m - 1, f);
      TakeNext(s, m);
      InFront(s.free, m, f);
    }
  }

  lemma TakenCounts(s: Frames, m: nat)
    requires Sound(s) && InRange(s, s.free) && NIL !in s.free && m <= |s.free|
    ensures forall f :: 0 <= f < |s.count| ==>
      TakeHeads(s, m).count[f] == s.count[f] + if f in s.free[..m] then 1 else 0
  {
    forall f | 0 <= f < |s.count|
      ensures TakeHeads(s, m).count[f] == s.count[f] + if f in s.free[..m] then 1 else 0
    {
      TakenCount(s, m, f);
    }
  }

  /** The pages of a process, of which absent tables are `NIL`, are the frames of `taken`, each once. */
  ghost predicate Holds(pages: seq<int>, taken: seq<int>) {
    && (forall f :: f in pages && f != NIL <==> f in taken)
    && (forall i, j :: 0 <= i < j < |pages| && pages[i] != NIL ==> pages[i] != pages[j])
  }

  lemma HeldTables(s: Frames, m: nat, pages: seq<int>)
    requires Sound(s) && InRange(s, s.free) && NIL !in s.free && m <= |s.free| && Holds(pages, s.free[..m])
    ensures TablesOk(TakeHeads(s, m), pages)
  {
    TakenCounts(s, m);
    forall i | 0 <= i < |pages| && pages[i] != NIL
      ensures 0 <= pages[i] < |s.count| && TakeHeads(s, m).count[pages[i]] == 1
    {
      assert pages[i] in s.free[..m];
      assert pages[i] in s.free;
    }
  }

  /**
   The kernel pages of a process come back. Its creation takes `m` frames off the free list,
   for a directory, its tables wherever they go, and a kernel stack; the passes of
   `mm_dir_free` and the return of the stack leave every count and the set of free frames as
   they were.
   */
  lemma KernelPagesComeBack(s: Frames, m: nat, tables: seq<int>, dir: int, stack: int)
    requires Sound(s) && m <= |s.free| && dir != NIL && stack != NIL
    requires Holds(tables + [dir, stack], s.free[..m])
    ensures InRange(s, s.free) && NIL !in s.free
    ensures var u := TakeHeads(s, m);
      && InRange(u, tables) && InRange(u, tables + [dir]) && 0 <= stack < |u.count|
      && var v := Return(ReturnAll(ReturnAll(u, tables), tables + [dir]), stack);
         v.count == s.count && (forall f :: f in v.free <==> f in s.free)
  {
    SoundFree(s);
    TakeHeadsSound(s, m);
    var u, pages := TakeHeads(s, m), tables + [dir, stack];
    HeldTables(s, m, pages);
    assert forall i :: 0 <= i <= |tables| ==> (tables + [dir])[i] == pages[i];
    assert TablesOk(u, tables + [dir]);
    DirFreeOnce(u, tables, dir);
    assert pages[..|pages| - 1] == tables + [dir] && pages[|pages| - 1] == stack;
    ReturnAllFrees(u, pages);
    TakenCounts(s, m);
    SameFree(s, ReturnAll(u, pages), pages, m);
  }

  lemma SameFree(s: Frames, v: Frames, pages: seq<int>, m: nat)
    requires Sound(s) && Sound(v) && |v.count| == |s.count| && m <= |s.free| && Holds(pages, s.free[..m])
    requires forall f :: 0 <= f < |s.count| ==>
      v.count[f] == if f in pages then 0 else s.count[f] + if f in s.free[..m] then 1 else 0
    ensures v.count == s.count && forall f :: f in v.free <==> f in s.free
  {
    forall f | 0 <= f < |s.count| ensures v.count[f] == s.count[f] {
      assert f in s.free[..m] ==> f in s.free;
    }
  }

  // ---- in place -----------------------------------------------------------------------------------

  class FrameTable {
    const links: Links
    const count: array<int>
    var head: int
    ghost var free: seq<int>

    ghost predicate Valid()
      reads this, links.next, links.prev, count
    {
      && links.Valid() && links.next.Length == count.Length && count != links.next && count != links.prev
      && links.Is(head, free)
      && Sound(State())
      && (forall f :: 0 <= f < count.Length && f !in free ==> links.next[f] == NIL && links.prev[f] == NIL)
    }

    ghost function State(): Frames
      reads this, count
    {
      Frames(count[..], free)
    }

    /** A frame is on the free list exactly when it has neighbours. */
    lemma HasNeighbours(f: int)
      requires Valid() && 0 <= f < count.Length
      ensures f in free <==> links.next[f] != NIL && links.prev[f] != NIL
    {
      if f in free {
        NeighboursOnList(links.next[..], links.prev[..], head, free, IndexOf(free, f));
      }
    }

    /** All frames free, appended in order (`user_pages_list_setup`). */
    constructor (n: nat)
      ensures Valid() && fresh(links.next) && fresh(links.prev) && fresh(count)
      ensures State() == Frames(seq(n, _ => 0), seq(n, i => i))
    {
      var l := new Links(n);
      links := l;
      count := new int[n](_ => 0);
      head := NIL;
      free := seq(n, i => i);
      new;
      head := links.AllNodes();
      assert count[..] == seq(n, _ => 0);
      forall f | 0 <= f < n ensures f in free {
        assert free[f] == f;
      }
    }

    /** `reserve_page`. Its first `if` is taken to guard both stores of `LINK_NODES`. */
    method ReservePage(f: int)
      requires Valid() && 0 <= f < count.Length
      modifies this, links.next, links.prev, count
      ensures Valid() && State() == Reserve(old(State()), f)
    {
      ghost var s := State();
      ReserveSound(s, f);
      HasNeighbours(f);
      if links.next[f] != NIL && links.prev[f] != NIL {
        ghost var k := IndexOf(free, f);
        head := links.Unlink(head, f, free, k);
        free := Without(free, k);
        WithoutDistinct(s.free, k);
      }
      count[f] := count[f] + 1;
      assert count[..] == s.count[f := s.count[f] + 1];
    }

    /** A frame whose count has just become zero joins the free list behind its head. */
    method AddFree(f: int)
      requires 0 <= f < count.Length && links.Valid() && links.next.Length == count.Length
      requires links.Is(head, free) && f !in free
      modifies this, links.next, links.prev
      ensures links.Is(head, free)
      ensures Outside(old(links.next[..]), links.next[..], old(free) + [f])
      ensures Outside(old(links.prev[..]), links.prev[..], old(free) + [f])
      ensures free == if old(free) == [] then [f] else [old(free)[0], f] + old(free)[1..]
    {
      if head == NIL {
        assert free + [f] == [f];
        head := links.Append(head, f, free);
        free := [f];
      } else {
        links.AddBehindHead(head, f, free);
        free := [free[0], f] + free[1..];
      }
    }

    /** `return_page`. */
    method ReturnPage(f: int)
      requires Valid() && 0 <= f < count.Length
      modifies this, links.next, links.prev, count
      ensures Valid() && State() == Return(old(State()), f)
    {
      ghost var s := State();
      ReturnSound(s, f);
      if count[f] > 0 {
        count[f] := count[f] - 1;
        assert count[..] == s.count[f := s.count[f] - 1];
        if count[f] == 0 {
          AddFree(f);
          assert forall g :: g in free <==> g == f || g in s.free;
          assert forall g :: 0 <= g < count.Length && g !in s.free + [f] ==> links.next[..][g] == NIL && links.prev[..][g] == NIL;
        }
      }
    }

    /** `take_free_page`: the head of the free list, if there is one. */
    method TakeFreePage() returns (f: int)
      requires Valid()
      modifies this, links.next, links.prev, count
      ensures Valid()
      ensures old(free) == [] ==> f == NIL && State() == old(State())
      ensures old(free) != [] ==> f == old(free)[0] && State() == Reserve(old(State()), f)
    {
      f := head;
      if head != NIL {
        ReservePage(head);
      }
    }

    /** A pass over the tables, from position `from` on. */
    method ReturnTables(tables: seq<int>, from: nat, ghost s: Frames)
      requires Valid() && from <= |tables| && InRange(s, tables)
      requires |s.count| == count.Length && State() == ReturnAll(s, tables[..from])
      modifies this, links.next, links.prev, count
      ensures Valid() && State() == ReturnAll(s, tables)
    {
      var i := from;
      while i < |tables|
        invariant from <= i <= |tables| && Valid()
        invariant State() == ReturnAll(s, tables[..i])
      {
        if tables[i] != NIL {
          ReturnPage(tables[i]);
        }
        ReturnAllStep(s, tables, i);
        i := i + 1;
      }
      assert tables[..i] == tables;
    }

    /** The kernel pages of a directory, as `mm_dir_free` gives them back. */
    method DirFree(tables: seq<int>, dir: int)
      requires Valid() && TablesOk(State(), tables + [dir]) && dir != NIL && tables != [] && tables[0] != NIL
      modifies this, links.next, links.prev, count
      ensures Valid() && State() == ReturnAll(old(State()), tables + [dir])
    {
      ghost var s := State();
      DirFreeOnce(s, tables, dir);
      ReturnAllStep(s, tables, 0);
      ReturnPage(tables[0]);
      ReturnTables(tables, 1, s);
      ghost var once := State();
      assert tables[..0] == [];
      ReturnTables(tables, 0, once);
      ReturnPage(dir);
      ReturnAllStep(once, tables + [dir], |tables|);
      assert (tables + [dir])[..|tables|] == tables && (tables + [dir])[..|tables| + 1] == tables + [dir];
    }
  }
}
