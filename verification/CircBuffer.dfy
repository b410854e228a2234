/**
 The circular buffer of `utils.c` over an array, with its 32-bit index arithmetic. What it
 holds, oldest first, is a window of the array that ends at `offset` and may wrap around.
 */
module CircBuffer {
  import opened Common
  import opened Arith

  const TWO_32: nat := 0x1_0000_0000
  const INT_MAX: nat := 0x7fff_ffff

  /** A `uint32_t` result. */
  function U32(x: int): nat {
    x % TWO_32
  }

  // ---- arithmetic around the buffer -----------------------------------------------------------------

  /** Positions less than one round apart are different. */
  lemma ModDiffers(x: int, d: nat, c: nat)
    requires 0 < d < c
    ensures (x + d) % c != x % c
  {
    var q, r := x / c, x % c;
    assert x == q * c + r;
    if r + d < c {
      DivModUnique(x + d, c, q, r + d);
    } else {
      assert (q + 1) * c == q * c + c;
      DivModUnique(x + d, c, q + 1, r + d - c);
    }
  }

  /** Position `x` of a buffer of `c` bytes, counted around. */
  function Around(x: int, c: nat): (r: nat)
    requires c > 0
    ensures r < c
    decreases if x < 0 then c - x else x
  {
    if x < 0 then Around(x + c, c) else if x < c then x else Around(x - c, c)
  }

  lemma {:induction false} AroundIsMod(x: int, c: nat)
    requires c > 0
    ensures Around(x, c) == x % c
    decreases if x < 0 then c - x else x
  {
    if x < 0 {
      AroundIsMod(x + c, c);
      ModShift(x, c);
    } else if x < c {
      DivModUnique(x, c, 0, x);
    } else {
      AroundIsMod(x - c, c);
      ModShift(x - c, c);
    }
  }

  lemma ModShift(x: int, c: nat)
    requires c > 0
    ensures (x + c) % c == x % c
  {
    assert (x / c + 1) * c == (x / c) * c + c;
    DivModUnique(x + c, c, x / c + 1, x % c);
  }

  lemma AroundDiffers(x: int, y: int, c: nat)
    requires x < y < x + c
    ensures Around(x, c) != Around(y, c)
  {
    AroundIsMod(x, c);
    AroundIsMod(y, c);
    ModDiffers(x, y - x, c);
  }

  lemma AroundAdd(x: int, k: int, c: nat)
    requires c > 0
    ensures Around(x % c + k, c) == Around(x + k, c)
  {
    AroundIsMod(x % c + k, c);
    AroundIsMod(x + k, c);
    ModAdd(x, k, c);
  }

  // ---- windows -----------------------------------------------------------------------------------

  /** `n` bytes from position `start` on, counted around the buffer. */
  function Window<T>(b: seq<T>, start: int, n: nat): (w: seq<T>)
    requires b != []
    ensures |w| == n
  {
    seq(n, k requires 0 <= k < n => b[Around(start + k, |b|)])
  }

  /** The last `n` elements. */
  function Last<T>(n: nat, s: seq<T>): (t: seq<T>)
    ensures |t| == if |s| < n then |s| else n
  {
    if |s| <= n then s else s[|s| - n..]
  }

  lemma LastIsEnd<T>(n: nat, s: seq<T>)
    ensures s == s[..|s| - |Last(n, s)|] + Last(n, s)
  {
  }

  lemma WindowAt<T>(b: seq<T>, start: int, n: nat, k: nat)
    requires b != [] && k < n
    ensures Window(b, start, n)[k] == b[Around(start + k, |b|)]
  {
  }

  /** A window before `p` is found from the reduced position `q` too. */
  lemma WindowMoved<T>(b: seq<T>, p: nat, q: nat, n: nat)
    requires b != [] && q == p % |b|
    ensures Window(b, q - n, n) == Window(b, p - n, n)
  {
    var v, w := Window(b, q - n, n), Window(b, p - n, n);
    forall k: nat | k < n ensures v[k] == w[k] {
      WindowMovedAt(b, p, q, n, k);
    }
  }

  lemma WindowMovedAt<T>(b: seq<T>, p: nat, q: nat, n: nat, k: nat)
    requires b != [] && q == p % |b| && k < n
    ensures Window(b, q - n, n)[k] == Window(b, p - n, n)[k]
  {
    WindowAt(b, q - n, n, k);
    WindowAt(b, p - n, n, k);
    AroundAdd(p, k - n, |b|);
    assert q + (k - n) == q - n + k && p + (k - n) == p - n + k;
  }

  lemma WindowRest<T>(b: seq<T>, start: int, n: nat, k: nat)
    requires b != [] && k <= n
    ensures Window(b, start + k, n - k) == Window(b, start, n)[k..]
  {
    var v, w := Window(b, start + k, n - k), Window(b, start, n);
    forall j: nat | j < n - k ensures v[j] == w[k..][j] {
      assert start + k + j == start + (k + j);
    }
  }

  function Fill(cap: nat, n: nat): nat {
    if n < cap then n else cap
  }

  /** Storing one more byte behind a window keeps the last of what was there. */
  lemma WindowPut<T>(b: seq<T>, p: int, m: nat, x: T)
    requires b != [] && m <= |b|
    ensures var m' := Fill(|b|, m + 1);
      Window(b[Around(p, |b|) := x], p + 1 - m', m') == Last(|b|, Window(b, p - m, m) + [x])
  {
    var m' := Fill(|b|, m + 1);
    var v, w := Window(b[Around(p, |b|) := x], p + 1 - m', m'), Last(|b|, Window(b, p - m, m) + [x]);
    forall k: nat | k < m' ensures v[k] == w[k] {
      WindowPutAt(b, p, m, x, k);
    }
  }

  lemma WindowPutAt<T>(b: seq<T>, p: int, m: nat, x: T, k: nat)
    requires b != [] && m <= |b| && k < Fill(|b|, m + 1)
    ensures var m' := Fill(|b|, m + 1);
      Window(b[Around(p, |b|) := x], p + 1 - m', m')[k] == Last(|b|, Window(b, p - m, m) + [x])[k]
  {
    if k == Fill(|b|, m + 1) - 1 {
      WindowPutNew(b, p, m, x);
    } else {
      WindowPutOld(b, p, m, x, k);
      LastAt(|b|, Window(b, p - m, m), x, k);
    }
  }

  lemma WindowPutNew<T>(b: seq<T>, p: int, m: nat, x: T)
    requires b != [] && m <= |b|
    ensures var m' := Fill(|b|, m + 1); Window(b[Around(p, |b|) := x], p + 1 - m', m')[m' - 1] == x
  {
    var m' := Fill(|b|, m + 1);
    WindowAt(b[Around(p, |b|) := x], p + 1 - m', m', m' - 1);
    assert p + 1 - m' + m' - 1 == p;
  }

  lemma WindowPutOld<T>(b: seq<T>, p: int, m: nat, x: T, k: nat)
    requires b != [] && m <= |b| && k < Fill(|b|, m + 1) - 1
    ensures var m' := Fill(|b|, m + 1);
      Window(b[Around(p, |b|) := x], p + 1 - m', m')[k] == Window(b, p - m, m)[k + m + 1 - m']
  {
    var m' := Fill(|b|, m + 1);
    var j := k + m + 1 - m';
    assert p + 1 - m' + k == p - m + j;
    WindowAt(b[Around(p, |b|) := x], p + 1 - m', m', k);
    WindowAt(b, p - m, m, j);
    AroundDiffers(p - m + j, p, |b|);
  }

  lemma LastAt<T>(n: nat, s: seq<T>, x: T, k: nat)
    requires |s| <= n && n > 0 && k < Fill(n, |s| + 1) - 1
    ensures Last(n, s + [x])[k] == s[k + |s| + 1 - Fill(n, |s| + 1)]
  {
  }

  lemma LastLast<T>(n: nat, s: seq<T>, x: T)
    ensures Last(n, Last(n, s) + [x]) == Last(n, s + [x])
  {
  }

  lemma LastNext<T>(n: nat, s: seq<T>, t: seq<T>, i: nat)
    requires i < |t|
    ensures Last(n, Last(n, s + t[..i]) + [t[i]]) == Last(n, s + t[..i + 1])
  {
    LastLast(n, s + t[..i], t[i]);
    assert s + t[..i + 1] == s + t[..i] + [t[i]];
  }

  // ---- the read index ------------------------------------------------------------------------------

  /** The index that `read_from_circ_buff` computes for byte `i`, in 32-bit arithmetic. */
  function ReadIndex(cap: nat, offset: nat, remaining: nat, i: nat): nat
    requires cap > 0
  {
    U32(U32(offset - remaining) + i) % cap
  }

  /**
   It is the right one exactly when the difference has not wrapped, or when the capacity
   divides two to the 32nd.
   */
  lemma ReadIndexExact(cap: nat, offset: nat, remaining: nat, i: nat)
    requires 0 < cap < TWO_32 && offset < cap && remaining <= cap && i < remaining
    ensures ReadIndex(cap, offset, remaining, i) == (offset - remaining + i) % cap
        <==> offset + i >= remaining || TWO_32 % cap == 0
  {
    var d := offset - remaining + i;
    ModAdd(offset - remaining, i, TWO_32);
    assert U32(U32(offset - remaining) + i) == U32(d);
    if d >= 0 {
      DivModUnique(d, TWO_32, 0, d);
    } else {
      DivModUnique(d, TWO_32, -1, d + TWO_32);
      WrapAgrees(d, cap);
    }
  }

  lemma WrapAgrees(d: int, cap: nat)
    requires cap > 0
    ensures (d + TWO_32) % cap == d % cap <==> TWO_32 % cap == 0
  {
    var r := TWO_32 % cap;
    ModAdd(TWO_32, d, cap);
    assert (d + TWO_32) % cap == (r + d) % cap;
    if r > 0 {
      ModDiffers(d, r, cap);
    }
  }

  class CircBuffer {
    const buf: array<byte>
    var offset: nat
    var remaining: nat

    /** The write position and the fill level of a buffer that an `int` can index. */
    ghost predicate Valid()
      reads this
    {
      0 < buf.Length <= INT_MAX && offset < buf.Length && remaining <= buf.Length
    }

    /** What is in the buffer, oldest byte first. */
    ghost function Contents(): (s: seq<byte>)
      reads this, buf
      requires Valid()
      ensures |s| == remaining
    {
      Window(buf[..], offset - remaining, remaining)
    }

    constructor (n: nat)
      requires 0 < n <= INT_MAX
      ensures Valid() && fresh(buf) && buf.Length == n && Contents() == []
    {
      buf := new byte[n](_ => 0);
      offset, remaining := 0, 0;
    }

    /** One turn of the loop of `write_to_circ_buff`. */
    method PutAt(i: nat, x: byte, ghost was: seq<byte>, ghost n: nat)
      requires Valid() && offset + i < TWO_32
      requires |was| == n <= buf.Length && was == Window(buf[..], offset + i - n, n)
      modifies buf
      ensures Window(buf[..], offset + i + 1 - Fill(buf.Length, n + 1), Fill(buf.Length, n + 1))
           == Last(buf.Length, was + [x])
    {
      ghost var b := buf[..];
      WindowPut(b, offset + i, n, x);
      AroundIsMod(offset + i, buf.Length);
      buf[U32(offset + i) % buf.Length] := x;
      assert buf[..] == b[Around(offset + i, buf.Length) := x];
    }

    /** The loop of `write_to_circ_buff`. */
    method PutAll(src: seq<byte>, ghost was: seq<byte>) returns (ghost now: seq<byte>)
      requires Valid() && |src| <= INT_MAX && was == Contents()
      modifies buf
      ensures now == Last(buf.Length, was + src) && |now| == Fill(buf.Length, remaining + |src|)
      ensures now == Window(buf[..], offset + |src| - |now|, |now|)
    {
      now := was;
      var i := 0;
      while i < |src|
        invariant 0 <= i <= |src|
        invariant |now| == Fill(buf.Length, remaining + i)
        invariant now == Window(buf[..], offset + i - |now|, |now|)
        invariant now == Last(buf.Length, was + src[..i])
      {
        PutAt(i, src[i], now, |now|);
        LastNext(buf.Length, was, src, i);
        now := Last(buf.Length, now + [src[i]]);
        i := i + 1;
      }
      assert src[..i] == src;
    }

    /** `write_to_circ_buff`: the newest bytes survive, and `int i` must be able to count them. */
    method Write(src: seq<byte>) returns (n: nat)
      requires Valid() && |src| <= INT_MAX
      modifies this`offset, this`remaining, buf
      ensures Valid() && n == |src|
      ensures Contents() == Last(buf.Length, old(Contents()) + src)
    {
      ghost var now := PutAll(src, Contents());
      Advance(|src|, now);
      n := |src|;
    }

    /** The new fill level and write position. */
    method Advance(size: nat, ghost now: seq<byte>)
      requires Valid() && size <= INT_MAX
      requires |now| == Fill(buf.Length, remaining + size) && now == Window(buf[..], offset + size - |now|, |now|)
      modifies this`offset, this`remaining
      ensures Valid() && Contents() == now
    {
      remaining := U32(remaining + size);
      if remaining >= buf.Length {
        remaining := buf.Length;
      }
      SetOffset(size, now);
    }

    method SetOffset(size: nat, ghost now: seq<byte>)
      requires Valid() && size <= INT_MAX && |now| == remaining
      requires now == Window(buf[..], offset + size - remaining, remaining)
      modifies this`offset
      ensures Valid() && Contents() == now
    {
      ghost var end := offset + size;
      offset := U32(offset + size) % buf.Length;
      WindowMoved(buf[..], end, offset, remaining);
    }

    /** Byte `i` of a read comes from the right place. */
    ghost predicate Unwrapped(i: nat)
      reads this
      requires Valid()
    {
      offset + i >= remaining || TWO_32 % buf.Length == 0
    }

    /** The loop of `read_from_circ_buff`. */
    method Get(dst: array<byte>, n: nat)
      requires Valid() && dst != buf && n <= remaining && n <= dst.Length
      modifies dst
      ensures forall j :: 0 <= j < n ==> dst[j] == buf[ReadIndex(buf.Length, offset, remaining, j)]
      ensures forall j: nat :: j < n && Unwrapped(j) ==> dst[j] == Contents()[j]
      ensures dst[n..] == old(dst[n..])
    {
      ghost var was, before := Contents(), dst[..];
      var i := 0;
      while i < n
        invariant 0 <= i <= n
        invariant forall j :: 0 <= j < i ==> dst[j] == buf[ReadIndex(buf.Length, offset, remaining, j)]
        invariant forall j: nat :: j < i && Unwrapped(j) ==> dst[j] == was[j]
        invariant forall j :: i <= j < dst.Length ==> dst[j] == before[j]
      {
        ReadIndexExact(buf.Length, offset, remaining, i);
        AroundIsMod(offset - remaining + i, buf.Length);
        dst[i] := buf[ReadIndex(buf.Length, offset, remaining, i)];
        i := i + 1;
      }
    }

    /**
     `read_from_circ_buff`: a prefix of the contents is removed, and delivered as far as the
     index has not wrapped; all of it for sizes that divide two to the 32nd, as the kernel's do.
     */
    method Read(dst: array<byte>, size: nat) returns (n: nat)
      requires Valid() && dst != buf
      requires size <= dst.Length || remaining <= dst.Length
      modifies this`remaining, dst
      ensures Valid()
      ensures n == (if size < old(remaining) then size else old(remaining)) <= dst.Length
      ensures forall j: nat :: j < n && old(Unwrapped(j)) ==> dst[j] == old(Contents())[j]
      ensures TWO_32 % buf.Length == 0 ==> dst[..n] == old(Contents())[..n]
      ensures dst[n..] == old(dst[n..])
      ensures Contents() == old(Contents())[n..]
    {
      n := if size < remaining then size else remaining;
      Get(dst, n);
      assert TWO_32 % buf.Length == 0 ==> forall j: nat :: j < n ==> Unwrapped(j);
      WindowRest(buf[..], offset - remaining, remaining, n);
      remaining := remaining - n;
    }

    /** `put_char_to_circ_buff`. */
    method PutChar(x: byte)
      requires Valid()
      modifies this`offset, this`remaining, buf
      ensures Valid() && Contents() == Last(buf.Length, old(Contents()) + [x])
    {
      var _ := Write([x]);
    }
  }
}
