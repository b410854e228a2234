/**
 The circular doubly linked lists of `utils.h`, threaded through the nodes of a table.
 A pointer is the index of a node, and `NIL` is NULL; a list is the index of its head.
 */
module Links {

  const NIL: int := -1

  /** The node after position `i` of a circular list. */
  ghost function After(s: seq<int>, i: int): int
    requires 0 <= i < |s|
  {
    if i + 1 < |s| then s[i + 1] else s[0]
  }

  ghost function Before(s: seq<int>, i: int): int
    requires 0 <= i < |s|
  {
    if i > 0 then s[i - 1] else s[|s| - 1]
  }

  ghost predicate Distinct(s: seq<int>) {
    forall i, j :: 0 <= i < j < |s| ==> s[i] != s[j]
  }

  /** Starting at `head`, the pointers visit exactly the nodes of `s`, both ways round. */
  ghost predicate ListOf(next: seq<int>, prev: seq<int>, head: int, s: seq<int>) {
    && |next| == |prev|
    && head == (if s == [] then NIL else s[0])
    && Distinct(s)
    && (forall i :: 0 <= i < |s| ==> 0 <= s[i] < |next|)
    && (forall i {:trigger After(s, i)} :: 0 <= i < |s| ==> next[s[i]] == After(s, i))
    && (forall i {:trigger Before(s, i)} :: 0 <= i < |s| ==> prev[s[i]] == Before(s, i))
  }

  ghost predicate Disjoint(s: seq<int>, t: seq<int>) {
    forall i, j :: 0 <= i < |s| && 0 <= j < |t| ==> s[i] != t[j]
  }

  ghost predicate SameAt(a: seq<int>, b: seq<int>, i: int) {
    0 <= i < |a| && 0 <= i < |b| && a[i] == b[i]
  }

  /** A list does not notice changes to nodes that are not on it. */
  lemma ListFrame(n: seq<int>, p: seq<int>, n': seq<int>, p': seq<int>, head: int, s: seq<int>)
    requires ListOf(n, p, head, s) && |n'| == |p'| == |n|
    requires forall i :: 0 <= i < |s| ==> SameAt(n, n', s[i]) && SameAt(p, p', s[i])
    ensures ListOf(n', p', head, s)
  {
  }

  /** Nodes outside `t` have kept their pointers. */
  ghost predicate Outside(a: seq<int>, b: seq<int>, t: seq<int>) {
    |a| == |b| && forall i :: 0 <= i < |a| && i !in t ==> a[i] == b[i]
  }

  lemma ListUntouched(n: seq<int>, p: seq<int>, n': seq<int>, p': seq<int>, head: int, s: seq<int>, t: seq<int>)
    requires ListOf(n, p, head, s) && Outside(n, n', t) && Outside(p, p', t) && Disjoint(s, t)
    ensures ListOf(n', p', head, s)
  {
    forall i | 0 <= i < |s| ensures SameAt(n, n', s[i]) && SameAt(p, p', s[i]) {
      assert s[i] !in t;
    }
    ListFrame(n, p, n', p', head, s);
  }

  /** Nor do several lists, of which one may be in the middle of a change. */
  lemma ListsFrame(
    n: seq<int>, p: seq<int>, n': seq<int>, p': seq<int>,
    heads: seq<int>, lists: seq<seq<int>>, t: seq<int>, skip: int)
    requires |p| == |n| && |heads| == |lists| && Outside(n, n', t) && Outside(p, p', t)
    requires forall q :: 0 <= q < |lists| && q != skip ==> ListOf(n, p, heads[q], lists[q]) && Disjoint(lists[q], t)
    ensures forall q :: 0 <= q < |lists| && q != skip ==> ListOf(n', p', heads[q], lists[q])
  {
    forall q | 0 <= q < |lists| && q != skip ensures ListOf(n', p', heads[q], lists[q]) {
      ListUntouched(n, p, n', p', heads[q], lists[q], t);
    }
  }

  /** Where the node at position `i` of a rotated list was, and that its neighbours are the same. */
  lemma RotatedNeighbours(s: seq<int>, k: nat, i: nat) returns (j: nat)
    requires k < |s| && i < |s|
    ensures j < |s| && (s[k..] + s[..k])[i] == s[j]
    ensures After(s[k..] + s[..k], i) == After(s, j)
    ensures Before(s[k..] + s[..k], i) == Before(s, j)
  {
    j := if i + k < |s| then i + k else i + k - |s|;
  }

  lemma RotatedDistinct(s: seq<int>, k: nat)
    requires Distinct(s) && k < |s|
    ensures Distinct(s[k..] + s[..k])
  {
  }

  /** Moving the head along the ring rotates the list. */
  lemma Rotate(n: seq<int>, p: seq<int>, s: seq<int>, k: nat)
    requires s != [] && ListOf(n, p, s[0], s) && k < |s|
    ensures ListOf(n, p, s[k], s[k..] + s[..k])
  {
    var r := s[k..] + s[..k];
    RotatedDistinct(s, k);
    assert r[0] == s[k];
    forall i | 0 <= i < |r| ensures 0 <= r[i] < |n| && n[r[i]] == After(r, i) && p[r[i]] == Before(r, i) {
      var j := RotatedNeighbours(s, k, i);
    }
  }

  // ---- what relinking does, on the pointer fields as values -------------------------------

  ghost function Without(s: seq<int>, k: nat): seq<int>
    requires k < |s|
  {
    s[..k] + s[k + 1..]
  }

  /** Neighbours in a list that lost its node `k`: the same, except across the gap. */
  lemma GapNeighbours(s: seq<int>, k: nat, i: nat) returns (j: nat)
    requires k < |s| && |s| > 1 && i < |s| - 1
    ensures j < |s| && j != k && Without(s, k)[i] == s[j]
    ensures After(Without(s, k), i) == if After(s, j) == s[k] && j == (if k > 0 then k - 1 else |s| - 1) then After(s, k) else After(s, j)
    ensures Before(Without(s, k), i) == if j == (if k + 1 < |s| then k + 1 else 0) then Before(s, k) else Before(s, j)
  {
    j := if i < k then i else i + 1;
  }

  lemma WithoutDistinct(s: seq<int>, k: nat)
    requires Distinct(s) && k < |s|
    ensures Distinct(Without(s, k))
    ensures s[k] !in Without(s, k)
  {
  }

  lemma UnlinkValue(n: seq<int>, p: seq<int>, n': seq<int>, p': seq<int>, s: seq<int>, k: nat)
    requires s != [] && ListOf(n, p, s[0], s) && k < |s| && |s| > 1 && |n'| == |p'| == |n|
    requires n' == n[Before(s, k) := After(s, k)][s[k] := NIL]
    requires p' == p[After(s, k) := Before(s, k)][s[k] := NIL]
    ensures ListOf(n', p', if k == 0 then After(s, 0) else s[0], Without(s, k))
  {
    var t := Without(s, k);
    WithoutDistinct(s, k);
    forall i | 0 <= i < |t| ensures 0 <= t[i] < |n'| && n'[t[i]] == After(t, i) && p'[t[i]] == Before(t, i) {
      var j := GapNeighbours(s, k, i);
      assert n[s[j]] == After(s, j) && p[s[j]] == Before(s, j);
    }
  }

  lemma AppendValue(n: seq<int>, p: seq<int>, n': seq<int>, p': seq<int>, s: seq<int>, x: int)
    requires s != [] && ListOf(n, p, s[0], s) && 0 <= x < |n| && x !in s && |n'| == |p'| == |n|
    requires n' == n[Before(s, 0) := x][x := s[0]]
    requires p' == p[x := Before(s, 0)][s[0] := x]
    ensures ListOf(n', p', s[0], s + [x])
  {
    var t := s + [x];
    forall i | 0 <= i < |t| ensures 0 <= t[i] < |n'| && n'[t[i]] == After(t, i) && p'[t[i]] == Before(t, i) {
      if i < |s| {
        assert n[s[i]] == After(s, i) && p[s[i]] == Before(s, i);
      }
    }
  }

  /** Neighbours in a list that gained a node behind its head. */
  lemma InsertedNeighbours(s: seq<int>, x: int, i: nat) returns (j: nat)
    requires s != [] && i <= |s| && i != 1
    ensures j < |s| && ([s[0], x] + s[1..])[i] == s[j] && (j == 0 <==> i == 0)
    ensures After([s[0], x] + s[1..], i) == if j == 0 then x else After(s, j)
    ensures Before([s[0], x] + s[1..], i) == if j == (if |s| > 1 then 1 else 0) then x else Before(s, j)
  {
    j := if i == 0 then 0 else i - 1;
  }

  lemma InsertedDistinct(s: seq<int>, x: int)
    requires s != [] && Distinct(s) && x !in s
    ensures Distinct([s[0], x] + s[1..])
  {
    var t := [s[0], x] + s[1..];
    assert forall i :: 0 <= i < |t| ==> t[i] == if i == 0 then s[0] else if i == 1 then x else s[i - 1];
  }

  lemma InsertValue(n: seq<int>, p: seq<int>, n': seq<int>, p': seq<int>, s: seq<int>, x: int)
    requires s != [] && ListOf(n, p, s[0], s) && 0 <= x < |n| && x !in s && |n'| == |p'| == |n|
    requires n' == n[x := After(s, 0)][s[0] := x]
    requires p' == p[After(s, 0) := x][x := s[0]]
    ensures ListOf(n', p', s[0], [s[0], x] + s[1..])
  {
    var t := [s[0], x] + s[1..];
    InsertedDistinct(s, x);
    forall i | 0 <= i < |t| ensures 0 <= t[i] < |n'| && n'[t[i]] == After(t, i) && p'[t[i]] == Before(t, i) {
      if i != 1 {
        var j := InsertedNeighbours(s, x, i);
        assert n[s[j]] == After(s, j) && p[s[j]] == Before(s, j);
      }
    }
  }

  /** A node that follows itself is alone. */
  lemma SingleNode(n: seq<int>, p: seq<int>, head: int, s: seq<int>, k: nat)
    requires ListOf(n, p, head, s) && k < |s|
    ensures n[s[k]] == s[k] <==> |s| == 1
  {
    assert n[s[k]] == After(s, k);
  }

  lemma NeighboursOnList(n: seq<int>, p: seq<int>, head: int, s: seq<int>, k: nat)
    requires ListOf(n, p, head, s) && k < |s|
    ensures n[s[k]] == After(s, k) && p[s[k]] == Before(s, k)
    ensures n[s[k]] in s && p[s[k]] in s
    ensures |s| > 1 ==> n[s[k]] != s[k] && p[s[k]] != s[k]
    ensures head == s[k] <==> k == 0
  {
  }

  class Links {
    const next: array<int>
    const prev: array<int>

    ghost predicate Valid()
    {
      next != prev && next.Length == prev.Length
    }

    ghost predicate Is(head: int, s: seq<int>)
      reads next, prev
    {
      ListOf(next[..], prev[..], head, s)
    }

    constructor (n: nat)
      ensures Valid() && next.Length == n && fresh(next) && fresh(prev)
      ensures forall i :: 0 <= i < n ==> next[i] == NIL && prev[i] == NIL
    {
      next := new int[n](_ => NIL);
      prev := new int[n](_ => NIL);
    }

    /** `LINK_NODES`. */
    method LinkNodes(fst: int, sec: int)
      requires Valid() && 0 <= fst < next.Length && 0 <= sec < next.Length
      modifies next, prev
      ensures next[..] == old(next[..])[fst := sec] && prev[..] == old(prev[..])[sec := fst]
    {
      next[fst] := sec;
      prev[sec] := fst;
    }

    /** The two `LINK_NODES` of `APPEND`. */
    method LinkBefore(head: int, node: int)
      requires Valid() && 0 <= head < next.Length && 0 <= node < next.Length && 0 <= prev[head] < next.Length
      requires head != node && prev[head] != node
      modifies next, prev
      ensures next[..] == old(next[..])[old(prev[head]) := node][node := head]
      ensures prev[..] == old(prev[..])[node := old(prev[head])][head := node]
    {
      LinkNodes(prev[head], node);
      LinkNodes(node, head);
    }

    /** `APPEND`: the new node goes before the head, which is the end of the list. */
    method Append(head: int, node: int, ghost s: seq<int>) returns (head': int)
      requires Valid() && Is(head, s) && 0 <= node < next.Length && node !in s
      modifies next, prev
      ensures Is(head', s + [node])
      ensures head' == if head == NIL then node else head
      ensures Outside(old(next[..]), next[..], s + [node]) && Outside(old(prev[..]), prev[..], s + [node])
    {
      if head == NIL {
        head' := node;
        next[node] := node;
        prev[node] := node;
      } else {
        head' := head;
        NeighboursOnList(next[..], prev[..], head, s, 0);
        ghost var n, p := next[..], prev[..];
        LinkBefore(head, node);
        AppendValue(n, p, next[..], prev[..], s, node);
      }
    }

    /** The pointer updates of `UNLINK_NODE` on a node that is not alone. */
    method CutOut(node: int)
      requires Valid() && 0 <= node < next.Length && 0 <= next[node] < next.Length && 0 <= prev[node] < next.Length
      requires next[node] != node && prev[node] != node
      modifies next, prev
      ensures next[..] == old(next[..])[old(prev[node]) := old(next[node])][node := NIL]
      ensures prev[..] == old(prev[..])[old(next[node]) := old(prev[node])][node := NIL]
    {
      prev[next[node]] := prev[node];
      next[prev[node]] := next[node];
      next[node] := NIL;
      prev[node] := NIL;
    }

    method UnlinkAlone(node: int, ghost s: seq<int>)
      requires Valid() && s == [node] && Is(node, s)
      modifies next, prev
      ensures Is(NIL, []) && next[node] == NIL && prev[node] == NIL
      ensures Outside(old(next[..]), next[..], s) && Outside(old(prev[..]), prev[..], s)
    {
      next[node] := NIL;
      prev[node] := NIL;
    }

    method UnlinkOther(head: int, node: int, ghost s: seq<int>, ghost k: nat) returns (head': int)
      requires Valid() && Is(head, s) && k < |s| && s[k] == node && |s| > 1
      modifies next, prev
      ensures Is(head', Without(s, k))
      ensures next[node] == NIL && prev[node] == NIL
      ensures Outside(old(next[..]), next[..], s) && Outside(old(prev[..]), prev[..], s)
    {
      ghost var n, p := next[..], prev[..];
      NeighboursOnList(n, p, head, s, k);
      head' := if head == node then next[node] else head;
      CutOut(node);
      UnlinkValue(n, p, next[..], prev[..], s, k);
    }

    /** `UNLINK_NODE` on a node of the list. */
    method Unlink(head: int, node: int, ghost s: seq<int>, ghost k: nat) returns (head': int)
      requires Valid() && Is(head, s) && k < |s| && s[k] == node
      modifies next, prev
      ensures Is(head', Without(s, k))
      ensures next[node] == NIL && prev[node] == NIL
      ensures Outside(old(next[..]), next[..], s) && Outside(old(prev[..]), prev[..], s)
    {
      SingleNode(next[..], prev[..], head, s, k);
      if next[node] == node {
        assert s == [node] && Without(s, k) == [];
        UnlinkAlone(node, s);
        head' := NIL;
      } else {
        head' := UnlinkOther(head, node, s, k);
      }
    }

    /** `POP` takes the head; on an empty list it yields NULL. */
    method Pop(head: int, ghost s: seq<int>) returns (head': int, node: int)
      requires Valid() && Is(head, s)
      modifies next, prev
      ensures s == [] ==> head' == NIL && node == NIL && Is(head', s)
      ensures s != [] ==> node == s[0] && Is(head', s[1..]) && next[node] == NIL && prev[node] == NIL
      ensures Outside(old(next[..]), next[..], s) && Outside(old(prev[..]), prev[..], s)
    {
      node := head;
      if head == NIL {
        head' := NIL;
      } else {
        head' := Unlink(head, node, s, 0);
        assert Without(s, 0) == s[1..];
      }
    }

    /** The head of one list becomes the end of another: `POP` or `UNLINK_NODE`, then `APPEND`. */
    method Transfer(a: int, b: int, ghost s: seq<int>, ghost t: seq<int>) returns (a': int, b': int, node: int)
      requires Valid() && Is(a, s) && Is(b, t) && s != [] && Disjoint(s, t)
      modifies next, prev
      ensures node == s[0] && Is(a', s[1..]) && Is(b', t + [s[0]])
      ensures Outside(old(next[..]), next[..], s + t) && Outside(old(prev[..]), prev[..], s + t)
      ensures Disjoint(s[1..], t + [s[0]])
    {
      ghost var n0, p0 := next[..], prev[..];
      a', node := Pop(a, s);
      ghost var n1, p1 := next[..], prev[..];
      ListFrame(n0, p0, n1, p1, b, t);
      assert node !in s[1..];
      b' := Append(b, node, t);
      ListFrame(n1, p1, next[..], prev[..], a', s[1..]);
    }

    /** `SIZE` of a list that is not empty. */
    method Size(head: int, ghost s: seq<int>) returns (n: nat)
      requires Valid() && Is(head, s) && s != []
      ensures n == |s|
    {
      NeighboursOnList(next[..], prev[..], head, s, 0);
      var node := next[head];
      n := 1;
      while node != head
        invariant 1 <= n <= |s|
        invariant node == if n < |s| then s[n] else s[0]
        decreases |s| - n
      {
        NeighboursOnList(next[..], prev[..], head, s, n);
        node := next[node];
        n := n + 1;
      }
    }

    /** `add_page_to_list`: the new node goes right behind the head. */
    method AddBehindHead(head: int, node: int, ghost s: seq<int>)
      requires Valid() && Is(head, s) && s != [] && 0 <= node < next.Length && node !in s
      modifies next, prev
      ensures Is(head, [s[0], node] + s[1..])
      ensures Outside(old(next[..]), next[..], s + [node]) && Outside(old(prev[..]), prev[..], s + [node])
    {
      ghost var n, p := next[..], prev[..];
      NeighboursOnList(n, p, head, s, 0);
      LinkNodes(node, next[head]);
      LinkNodes(head, node);
      InsertValue(n, p, next[..], prev[..], s, node);
    }

    /** `NODES_ARRAY_TO_LIST`: every node of the table, in order. */
    method AllNodes() returns (head: int)
      requires Valid()
      modifies next, prev
      ensures Is(head, seq(next.Length, i => i))
    {
      head := NIL;
      var i := 0;
      ghost var s: seq<int> := [];
      while i < next.Length
        invariant 0 <= i <= next.Length
        invariant s == seq(i, j => j) && Is(head, s)
      {
        head := Append(head, i, s);
        s := s + [i];
        i := i + 1;
      }
    }
  }
}
