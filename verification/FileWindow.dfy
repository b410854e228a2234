/**
 Reading and writing an open ext2 file through its one-page window (`ext2_file_operate`).
 `data` is what the blocks of the file hold, one after the other: `BlockWalk` shows how they
 are found.
 */
module FileWindow {
  import opened Common
  import opened Slices
  import opened Arith
  import W = BlockWalk

  const INT_MAX: int := 0x7fff_ffff
  /** The window belongs to no section yet: the source's 0xFFFFFFFF. */
  const NO_SECTION: int := -1

  /** `1024 << log2_block_size`, for blocks that fit the window. */
  predicate BlockSize(bs: nat) {
    bs == 1024 || bs == 2048 || bs == 4096
  }

  /** The first byte of the block that byte `off` is in. */
  function BlockStart(off: nat, bs: nat): (start: nat)
    requires BlockSize(bs)
    ensures start <= off < start + bs
  {
    if bs == 1024 then off / 1024 * 1024 else if bs == 2048 then off / 2048 * 2048 else off / 4096 * 4096
  }

  lemma BlockNumber1024(off: nat)
    ensures off / 1024 / 4 == off / PAGE_SIZE
    ensures off / 1024 * 1024 / PAGE_SIZE == off / PAGE_SIZE
  {
    var q, r := off / 1024 / 4, off / 1024 % 4;
    assert off / 1024 == 4 * q + r;
    assert off == PAGE_SIZE * q + (1024 * r + off % 1024);
  }

  lemma BlockNumber2048(off: nat)
    ensures off / 2048 / 2 == off / PAGE_SIZE
    ensures off / 2048 * 2048 / PAGE_SIZE == off / PAGE_SIZE
  {
    var q, r := off / 2048 / 2, off / 2048 % 2;
    assert off / 2048 == 2 * q + r;
    assert off == PAGE_SIZE * q + (2048 * r + off % 2048);
  }

  /** Blocks do not cross sections. */
  lemma SectionOf(off: nat, bs: nat)
    requires BlockSize(bs)
    ensures BlockStart(off, bs) / PAGE_SIZE == off / PAGE_SIZE
    ensures BlockStart(BlockStart(off, bs), bs) == BlockStart(off, bs)
    ensures BlockStart(BlockStart(off, bs) + PAGE_SIZE, bs) == BlockStart(off, bs) + PAGE_SIZE
  {
    if bs == 1024 {
      BlockNumber1024(off);
    } else if bs == 2048 {
      BlockNumber2048(off);
    }
  }

  /** Block number, and section of a block, as the source computes them. */
  lemma BlockNumber(off: nat, bs: nat)
    requires BlockSize(bs)
    ensures off / bs * bs == BlockStart(off, bs)
    ensures off / bs / (PAGE_SIZE / bs) == off / PAGE_SIZE
  {
    if bs == 1024 {
      BlockNumber1024(off);
    } else if bs == 2048 {
      BlockNumber2048(off);
    }
  }

  lemma SmallMod(x: nat)
    requires x < PAGE_SIZE
    ensures x % PAGE_SIZE == x
  {
  }

  /** The source's block, section and window arithmetic, in bytes. */
  lemma Geometry(off: nat, bs: nat)
    requires BlockSize(bs)
    ensures var first, start := off / bs, BlockStart(off, bs);
      && first * bs == start <= off
      && (off - start) % PAGE_SIZE == off - start < bs
      && first / (PAGE_SIZE / bs) == off / PAGE_SIZE == start / PAGE_SIZE
      && BlockStart(start, bs) == start && BlockStart(start + PAGE_SIZE, bs) == start + PAGE_SIZE
  {
    BlockNumber(off, bs);
    SmallMod(off - BlockStart(off, bs));
    SectionOf(off, bs);
  }

  /** How much of the window a read from block start `start` fills. */
  function WindowLen(size: nat, total: nat, start: nat, bs: nat): nat
    requires start <= total && bs > 0
  {
    Min(W.BlockCount(Min(size, PAGE_SIZE), bs) * bs, total - start)
  }

  lemma WindowCovers(size: nat, total: nat, start: nat, bs: nat)
    requires BlockSize(bs) && start <= total && size <= total
    ensures Min(size, PAGE_SIZE) <= W.BlockCount(Min(size, PAGE_SIZE), bs) * bs <= PAGE_SIZE
    ensures start <= size ==> Min(PAGE_SIZE, size - start) <= WindowLen(size, total, start, bs) <= PAGE_SIZE
  {
  }

  /** What the walk over the blocks delivers is the slice of the file's bytes that starts there. */
  lemma WindowIsSlice(d: W.Disk, flat: seq<nat>, first: nat, k: nat)
    requires W.DiskOk(d) && first <= |flat|
    ensures var e := Min(first + k, |flat|);
      && W.Times(e, d.bs) <= |W.Contents(d, flat)|
      && W.Times(first, d.bs) <= W.Times(e, d.bs)
      && W.Contents(d, W.Taken(flat, first, k)) == W.Contents(d, flat)[W.Times(first, d.bs)..W.Times(e, d.bs)]
  {
    var e := Min(first + k, |flat|);
    var a, b, c := flat[..first], flat[first..e], flat[e..];
    assert flat == a + b + c && W.Taken(flat, first, k) == b && flat[..e] == a + b;
    W.ContentsConcat(d, a, b);
    W.ContentsConcat(d, a + b, c);
    W.ContentsLength(d, a);
    W.ContentsLength(d, a + b);
    ThreeParts(W.Contents(d, flat), W.Contents(d, a), W.Contents(d, b), W.Contents(d, c));
  }

  /** What a window filled from `base` on gives for `n` bytes at `off`, against what the file holds there. */
  ghost predicate Serves(data: seq<byte>, base: nat, off: nat, n: nat, skip: nat)
    requires base + skip + n <= |data| && off + n <= |data|
  {
    data[base + skip..base + skip + n] == data[off..off + n]
  }

  /** A cached window serves a read of every file exactly when it was filled from the block of the read. */
  lemma CachedServes(total: nat, base: nat, off: nat, n: nat, bs: nat)
    requires BlockSize(bs) && n > 0
    requires base + (off - BlockStart(off, bs)) + n <= total && off + n <= total
    ensures (forall data: seq<byte> | |data| == total :: Serves(data, base, off, n, off - BlockStart(off, bs)))
      <==> base == BlockStart(off, bs)
  {
    var skip := off - BlockStart(off, bs);
    if base + skip != off {
      var data := seq(total, i => if i == off then 1 as byte else 0);
      assert data[base + skip..base + skip + n][0] == 0;
      assert data[off..off + n][0] == 1;
      assert !Serves(data, base, off, n, skip);
    }
  }

  class File<T> {
    const bs: nat
    const size: nat
    var data: seq<T>
    var buf: seq<T>
    var section: int
    var offset: nat
    /** The window holds the `len` bytes of the file from `base` on. */
    ghost var base: nat
    ghost var len: nat

    ghost predicate Valid()
      reads this
    {
      && BlockSize(bs) && size <= |data| && W.DIRECT_COUNT * bs <= |data| && size <= INT_MAX && |buf| == PAGE_SIZE
      && (section != NO_SECTION ==> base == BlockStart(base, bs) && base <= size && section == base / PAGE_SIZE)
    }

    /** The window holds what is on disk, as far as the file goes. */
    ghost predicate Coherent()
      reads this
      requires Valid()
    {
      section != NO_SECTION ==> Min(PAGE_SIZE, size - base) <= len && Loaded(base, len)
    }

    ghost predicate Loaded(start: nat, n: nat)
      reads this
    {
      n <= |buf| && start + n <= |data| && buf[..n] == data[start..start + n]
    }

    /** The window holds the section of `off`, but not from the block of `off` on. */
    ghost predicate Stale(off: nat)
      reads this
      requires BlockSize(bs)
    {
      section == off / PAGE_SIZE && base != BlockStart(off, bs)
    }

    /** The window holds the block of `off` and what follows it. */
    ghost predicate InWindow(off: nat)
      reads this
      requires BlockSize(bs)
    {
      section == off / PAGE_SIZE && base == BlockStart(off, bs)
    }

    /** `ext2_open`, with a kernel page of any contents for the window. */
    constructor (bs': nat, size': nat, blocks: seq<T>, page: seq<T>)
      requires BlockSize(bs') && size' <= |blocks| && W.DIRECT_COUNT * bs' <= |blocks| && size' <= INT_MAX && |page| == PAGE_SIZE
      ensures Valid() && Coherent()
      ensures bs == bs' && size == size' && data == blocks && section == NO_SECTION && offset == 0
    {
      bs, size, data, buf := bs', size', blocks, page;
      section, offset, base, len := NO_SECTION, 0, 0, 0;
    }

    /** With blocks of a page, or windows filled from and reads at page boundaries, no window is stale. */
    lemma NeverStale(off: nat)
      requires Valid()
      requires bs == PAGE_SIZE || (BlockStart(base, PAGE_SIZE) == base && BlockStart(off, PAGE_SIZE) == off)
      ensures !Stale(off)
    {
      PageStart(BlockStart(off, PAGE_SIZE), bs);
      assert BlockStart(base, PAGE_SIZE) == base / PAGE_SIZE * PAGE_SIZE;
    }

    /** `ext2_file_seek`. */
    method Seek(pos: nat)
      requires Valid()
      modifies this`offset
      ensures offset == pos
    {
      offset := pos;
    }

    /** Where the offset lies: block number, first byte and section of its block, and place in the window. */
    method Locate() returns (first: nat, skipped: nat, bufOffset: nat, sec: nat)
      requires BlockSize(bs)
      ensures skipped == first * bs == BlockStart(offset, bs) <= offset
      ensures bufOffset == offset - skipped < bs <= PAGE_SIZE && sec == offset / PAGE_SIZE == skipped / PAGE_SIZE
      ensures BlockStart(skipped, bs) == skipped
      ensures BlockStart(skipped + PAGE_SIZE, bs) == skipped + PAGE_SIZE
    {
      Geometry(offset, bs);
      first := offset / bs;
      skipped := first * bs;
      bufOffset := (offset - skipped) % PAGE_SIZE;
      sec := first / (PAGE_SIZE / bs);
    }

    /** `operate_data_with_file` into the window. */
    method FillWindow(first: nat, start: nat) returns (ghost n: nat)
      requires Valid() && start == first * bs <= size
      modifies this`buf
      ensures Valid() && n == WindowLen(size, |data|, start, bs)
      ensures Min(PAGE_SIZE, size - start) <= n && Loaded(start, n)
    {
      WindowCovers(size, |data|, start, bs);
      var k := Min(W.BlockCount(Min(size, PAGE_SIZE), bs) * bs, |data| - first * bs);
      buf := data[start..start + k] + buf[k..];
      n := k;
    }

    /** Fills the window unless it holds the section of the offset already. */
    method Refill(first: nat, start: nat, sec: nat)
      requires Valid() && Coherent() && offset <= size
      requires start == first * bs == BlockStart(offset, bs) == BlockStart(start, bs)
      requires sec == offset / PAGE_SIZE == start / PAGE_SIZE
      modifies this`buf, this`section, this`base, this`len
      ensures Valid() && Coherent() && section == sec
      ensures if old(Stale(offset)) then buf == old(buf) && Stale(offset) else base == start
    {
      if section != sec {
        ghost var n := FillWindow(first, start);
        section, base, len := sec, start, n;
      }
    }

    /** One turn of `ext2_file_operate` for a read of `n` more bytes. */
    method ReadTurn(n: nat) returns (out: seq<T>)
      requires Valid() && Coherent() && n > 0 && offset + n <= size
      modifies this`buf, this`section, this`offset, this`base, this`len
      ensures Valid() && Coherent()
      ensures |out| == old(FirstTurn(n)) > 0
      ensures out == if old(Stale(offset))
        then old(StaleBytes(n))
        else data[old(offset)..old(offset) + |out|]
      ensures offset == old(offset) + |out| && section == old(offset) / PAGE_SIZE
      ensures !old(Stale(offset)) ==> base == BlockStart(old(offset), bs)
      ensures |out| < n ==> BlockStart(offset, bs) == offset && section < offset / PAGE_SIZE
    {
      var first, skipped, bufOffset, sec := Locate();
      var operated := Min(n, PAGE_SIZE - bufOffset);
      Refill(first, skipped, sec);
      out := CopyOut(bufOffset, operated);
      NextSection(skipped);
      offset := offset + operated;
    }

    /** The `memcpy` from the window. */
    method CopyOut(skip: nat, n: nat) returns (out: seq<T>)
      requires Valid() && Coherent() && section == offset / PAGE_SIZE
      requires skip == offset - BlockStart(offset, bs) && skip + n <= PAGE_SIZE && offset + n <= size
      ensures out == buf[skip..][..n]
      ensures base == BlockStart(offset, bs) ==> out == data[offset..offset + n]
    {
      out := buf[skip..skip + n];
      if base == BlockStart(offset, bs) {
        Served(skip, n);
      }
    }

    /** One page further on is the next section. */
    lemma NextSection(start: nat)
      ensures (start + PAGE_SIZE) / PAGE_SIZE == start / PAGE_SIZE + 1
    {
    }

    /** A window from the right block has the bytes of the turn. */
    lemma Served(skip: nat, n: nat)
      requires Valid() && Coherent() && section != NO_SECTION
      requires skip + n <= PAGE_SIZE && base + skip + n <= size
      ensures skip + n <= |buf| && buf[skip..skip + n] == data[base + skip..base + skip + n]
    {
      SliceOfSlice(buf, 0, len, skip, skip + n);
      SliceOfSlice(data, base, base + len, skip, skip + n);
    }

    /** The bytes of the first turn of a read of `n` bytes. */
    ghost function FirstTurn(n: nat): (k: nat)
      reads this
      requires BlockSize(bs)
      ensures offset - BlockStart(offset, bs) + k <= PAGE_SIZE
    {
      Min(n, PAGE_SIZE - (offset - BlockStart(offset, bs)))
    }

    /** The turns after the first: each fills the window anew. */
    method ReadRest(n: nat) returns (out: seq<T>)
      requires Valid() && Coherent() && offset + n <= size
      requires n > 0 ==> BlockStart(offset, bs) == offset && section < offset / PAGE_SIZE
      modifies this`buf, this`section, this`offset, this`base, this`len
      ensures Valid() && Coherent() && offset == old(offset) + n
      ensures out == data[old(offset)..offset]
      ensures n == 0 ==> section == old(section) && base == old(base)
    {
      out := [];
      ghost var start := offset;
      while |out| < n
        invariant Valid() && Coherent() && |out| <= n && offset == start + |out|
        invariant out == data[start..offset]
        invariant n == 0 ==> section == old(section) && base == old(base)
        invariant |out| < n ==> BlockStart(offset, bs) == offset && section < offset / PAGE_SIZE
        decreases n - |out|
      {
        ghost var here := offset;
        var more := ReadTurn(n - |out|);
        SliceJoin(data, start, here, offset);
        out := out + more;
      }
    }

    /** The loop of `ext2_file_operate` for a read. */
    method ReadLoop(n: nat) returns (out: seq<T>)
      requires Valid() && Coherent() && n > 0 && offset + n <= size
      modifies this`buf, this`section, this`offset, this`base, this`len
      ensures Valid() && Coherent() && |out| == n && offset == old(offset) + n
      ensures !old(Stale(offset)) ==> out == data[old(offset)..offset]
      ensures old(Stale(offset)) ==> out == old(StaleBytes(n)) + data[old(offset) + old(FirstTurn(n))..offset]
      ensures old(FirstTurn(n)) == n && !old(Stale(offset)) ==> InWindow(old(offset))
    {
      ghost var start := offset;
      out := ReadTurn(n);
      ghost var middle := offset;
      var rest := ReadRest(n - |out|);
      SliceJoin(data, start, middle, offset);
      out := out + rest;
    }

    /** What a stale window gives for the first turn. */
    ghost function StaleBytes(n: nat): (s: seq<T>)
      reads this
      requires Valid()
      ensures |s| == FirstTurn(n) <= n
    {
      buf[offset - BlockStart(offset, bs)..][..FirstTurn(n)]
    }

    /**
     `ext2_file_operate` for a read. The result is negative beyond the end of the file. Only the
     first turn can be served from the wrong blocks: every later one moves to another section.
     */
    method Read(count: nat) returns (result: int, out: seq<T>)
      requires Valid() && Coherent() && count <= INT_MAX && offset <= INT_MAX
      modifies this`buf, this`section, this`offset, this`base, this`len
      ensures Valid() && Coherent()
      ensures result == if count < size - old(offset) then count else size - old(offset)
      ensures result <= 0 ==> out == [] && offset == old(offset)
      ensures result > 0 ==> |out| == result && offset == old(offset) + result
      ensures result > 0 && !old(Stale(offset)) ==> out == data[old(offset)..offset]
      ensures result > 0 && old(Stale(offset)) ==>
        out == old(StaleBytes(if count < size - offset then count else size - offset))
             + data[old(offset) + old(FirstTurn(if count < size - offset then count else size - offset))..offset]
      ensures result > 0 && old(FirstTurn(result)) == result && !old(Stale(offset)) ==> InWindow(old(offset))
    {
      result, out := if count < size - offset then count else size - offset, [];
      if result > 0 {
        out := ReadLoop(result);
      }
    }

    /**
     `operate_data_with_file` for a write: the window goes to the direct blocks, and where they
     end the blocks behind them are read into the window instead.
     */
    method StoreWindow(first: nat, start: nat)
      requires Valid() && start == first * bs <= size
      modifies this`data, this`buf
      ensures Valid() && start + WriteLen(size, start, bs) <= |old(data)|
      ensures data == Patch(old(data), start, old(buf)[..WriteLen(size, start, bs)])
      ensures WriteLen(size, start, bs) == PAGE_SIZE ==> buf == old(buf)
    {
      WindowCovers(size, |data|, start, bs);
      var all := W.BlockCount(Min(size, PAGE_SIZE), bs) * bs;
      var n := WriteLen(size, start, bs);
      data := data[..start] + buf[..n] + data[start + n..];
      var m := Min(all - n, |data| - (start + n));
      buf := buf[..n] + data[start + n..start + n + m] + buf[n + m..];
    }

    /** What one turn of a write leaves in the window before it is stored: the source's bytes go to its beginning. */
    ghost function Filled(src: seq<T>): (w: seq<T>)
      reads this
      requires Valid()
      ensures |w| == PAGE_SIZE
    {
      src[..FirstTurn(|src|)] + buf[FirstTurn(|src|)..]
    }

    /** One turn of `ext2_file_operate` for a write of the bytes `src` that are left. */
    method WriteTurn(src: seq<T>) returns (operated: nat)
      requires Valid() && src != [] && offset + |src| <= size
      modifies this`data, this`buf, this`section, this`offset, this`base, this`len
      ensures Valid() && operated == old(FirstTurn(|src|)) > 0 && offset == old(offset) + operated
      ensures section == old(offset) / PAGE_SIZE
      ensures old(section) == section ==> data == old(data) && buf == (src[..operated] + old(buf)[operated..])
      ensures var start := BlockStart(old(offset), bs); var n := WriteLen(size, start, bs);
        && start + n <= |old(data)|
        && (old(section) != section ==>
             && data == Patch(old(data), start, (src[..operated] + old(buf)[operated..])[..n]) && base == start
             && (n == PAGE_SIZE ==> buf == (src[..operated] + old(buf)[operated..]) && Coherent()))
      ensures operated < |src| ==> BlockStart(offset, bs) == offset && section < offset / PAGE_SIZE
    {
      var first, skipped, bufOffset, sec := Locate();
      operated := Min(|src|, PAGE_SIZE - bufOffset);
      buf := src[..operated] + buf[operated..];
      WriteLenFits(size, skipped, bs, |data|);
      if section != sec {
        StoreWindow(first, skipped);
        section, base, len := sec, skipped, PAGE_SIZE;
      }
      NextSection(skipped);
      offset := offset + operated;
    }

    /**
     `ext2_file_operate` for a write. Whole pages that start at a block boundary, in the direct
     blocks and in another section than the window's, arrive on the disk.
     */
    method Write(src: seq<T>) returns (result: int)
      requires Valid() && |src| <= INT_MAX && offset <= INT_MAX
      modifies this`data, this`buf, this`section, this`offset, this`base, this`len
      ensures Valid() && result == if |src| < size - old(offset) then |src| else size - old(offset)
      ensures result <= 0 ==> data == old(data) && offset == old(offset)
      ensures result > 0 ==> offset == old(offset) + result
      ensures result > 0 && old(WholePages(result)) ==>
        result <= |src| && offset <= |old(data)| && data == Patch(old(data), old(offset), src[..result])
    {
      result := if |src| < size - offset then |src| else size - offset;
      if result > 0 {
        WriteLoop(src[..result]);
      }
    }

    /** Whole pages from a block boundary, in the direct blocks and in another section than the window's. */
    ghost predicate WholePages(n: nat)
      reads this
      requires BlockSize(bs)
    {
      && n % PAGE_SIZE == 0 && BlockStart(offset, bs) == offset
      && offset + n <= W.DIRECT_COUNT * bs && section != offset / PAGE_SIZE
    }

    /** Its loop. */
    method WriteLoop(src: seq<T>)
      requires Valid() && src != [] && offset + |src| <= size
      modifies this`data, this`buf, this`section, this`offset, this`base, this`len
      ensures Valid() && offset == old(offset) + |src|
      ensures old(WholePages(|src|)) ==> old(offset) + |src| <= |old(data)| && data == Patch(old(data), old(offset), src)
    {
      ghost var start, was, whole := offset, data, WholePages(|src|);
      var done := 0;
      while done < |src|
        invariant Valid() && done <= |src| && offset == start + done && start + |src| <= size
        invariant whole && done < |src| ==> WholePages(|src| - done)
        invariant whole ==> start + done <= |was| && data == Patch(was, start, src[..done])
        invariant done == 0 ==> data == was && section == old(section)
        invariant 0 < done < |src| ==> BlockStart(offset, bs) == offset && section < offset / PAGE_SIZE
        decreases |src| - done
      {
        var n := WriteNext(src, done, was, start, whole);
        done := done + n;
      }
      assert src[..done] == src;
    }

    /** One turn of the loop. */
    method WriteNext(src: seq<T>, done: nat, ghost was: seq<T>, ghost start: nat, ghost whole: bool) returns (n: nat)
      requires Valid() && done < |src| && offset == start + done && start + |src| <= size
      requires whole ==> WholePages(|src| - done) && start + done <= |was| && data == Patch(was, start, src[..done])
      modifies this`data, this`buf, this`section, this`offset, this`base, this`len
      ensures Valid() && 0 < n <= |src| - done && offset == start + done + n
      ensures done + n < |src| ==> BlockStart(offset, bs) == offset && section < offset / PAGE_SIZE
      ensures whole && done + n < |src| ==> WholePages(|src| - done - n)
      ensures whole ==> start + done + n <= |was| && data == Patch(was, start, src[..done + n])
    {
      if whole {
        WholePage(|src| - done);
        WritePageLen(size, offset, bs);
        assert Filled(src[done..]) == src[done..done + PAGE_SIZE];
      }
      ghost var now := data;
      n := WriteTurn(src[done..]);
      if whole {
        PatchNext(was, start, src, done, now, data);
      }
    }

    /**
     `ext2_file_operate` for a write of one page at a page boundary. It reaches the disk exactly
     when the window held another section.
     */
    method WritePage(page: seq<T>) returns (result: int)
      requires Valid() && |page| == PAGE_SIZE && BlockStart(offset, PAGE_SIZE) == offset
      requires offset + PAGE_SIZE <= Min(size, W.DIRECT_COUNT * bs)
      modifies this`data, this`buf, this`section, this`offset, this`base, this`len
      ensures Valid() && result == PAGE_SIZE && offset == old(offset) + PAGE_SIZE
      ensures section == old(offset) / PAGE_SIZE && buf == page
      ensures old(section) == section ==> data == old(data)
      ensures old(section) != section ==>
        data == Patch(old(data), old(offset), page) && base == old(offset) && Coherent()
    {
      PageStart(offset, bs);
      WritePageLen(size, offset, bs);
      assert Filled(page) == page;
      result := WriteTurn(page);
    }
  }

  /** A page still to be written is a whole turn. */
  lemma WholePage(n: nat)
    requires n > 0 && n % PAGE_SIZE == 0
    ensures n >= PAGE_SIZE && (n - PAGE_SIZE) % PAGE_SIZE == 0
  {
  }

  lemma PatchNext<T>(was: seq<T>, start: nat, src: seq<T>, done: nat, now: seq<T>, next: seq<T>)
    requires done + PAGE_SIZE <= |src| && start + done + PAGE_SIZE <= |was|
    requires now == Patch(was, start, src[..done])
    requires next == Patch(now, start + done, src[done..done + PAGE_SIZE])
    ensures next == Patch(was, start, src[..done + PAGE_SIZE])
  {
    assert src[..done + PAGE_SIZE] == src[..done] + src[done..done + PAGE_SIZE];
    assert now[..start + done] == was[..start] + src[..done];
    assert now[start + done + PAGE_SIZE..] == was[start + done + PAGE_SIZE..];
  }

  // ---- when a write is right -------------------------------------------------------------------------

  /** How much of a window that begins at block start `start` a write puts on the disk. */
  function WriteLen(size: nat, start: nat, bs: nat): nat
    requires BlockSize(bs)
  {
    Min(W.BlockCount(Min(size, PAGE_SIZE), bs) * bs, if start < W.DIRECT_COUNT * bs then W.DIRECT_COUNT * bs - start else 0)
  }

  lemma WriteLenFits(size: nat, start: nat, bs: nat, total: nat)
    requires BlockSize(bs) && W.DIRECT_COUNT * bs <= total && start <= size <= total
    ensures WriteLen(size, start, bs) <= PAGE_SIZE && start + WriteLen(size, start, bs) <= total
  {
    WindowCovers(size, total, start, bs);
  }

  /** Whatever is written at a block boundary, within the file and its direct blocks, is among what is stored. */
  lemma WriteLenCovers(size: nat, off: nat, n: nat, bs: nat)
    requires BlockSize(bs) && n <= PAGE_SIZE && BlockStart(off, bs) == off
    requires off + n <= size && off + n <= W.DIRECT_COUNT * bs
    ensures n <= WriteLen(size, off, bs)
  {
    WindowCovers(size, size, off, bs);
  }

  /**
   So a turn at a block boundary that stores its window puts its bytes where they belong, however
   many there are; `buf` is what the window held before.
   */
  lemma WriteLands<T>(was: seq<T>, buf: seq<T>, src: seq<T>, size: nat, off: nat, bs: nat)
    requires BlockSize(bs) && BlockStart(off, bs) == off && |src| <= |buf| == PAGE_SIZE
    requires off + |src| <= size <= |was| && off + |src| <= W.DIRECT_COUNT * bs <= |was|
    ensures var n := WriteLen(size, off, bs);
      && n <= PAGE_SIZE && off + n <= |was|
      && Patch(was, off, (src + buf[|src|..])[..n])[off..off + |src|] == src
  {
    WriteLenFits(size, off, bs, |was|);
    WriteLenCovers(size, off, |src|, bs);
    var n := WriteLen(size, off, bs);
    var stored := (src + buf[|src|..])[..n];
    var r := Patch(was, off, stored);
    assert r[off..off + |src|] == r[off..off + n][..|src|] == stored[..|src|] == src;
  }

  lemma MinTimes(a: nat, b: nat, c: nat)
    ensures Min(Mul(a, c), Mul(b, c)) == Mul(Min(a, b), c)
  {
    if a < b {
      Multiples(a, b, c);
    } else if b < a {
      Multiples(b, a, c);
    }
  }

  /** What a read fills and what a write stores are the blocks that the walk takes, of the whole file and of its direct blocks. */
  lemma WindowLenWalks(size: nat, flat: seq<nat>, first: nat, bs: nat)
    requires BlockSize(bs) && first <= |flat|
    ensures Mul(first, bs) <= Mul(|flat|, bs)
    ensures WindowLen(size, Mul(|flat|, bs), Mul(first, bs), bs)
         == Mul(|W.Taken(flat, first, W.BlockCount(Min(size, PAGE_SIZE), bs))|, bs)
  {
    var k := W.BlockCount(Min(size, PAGE_SIZE), bs);
    MulDistribute(|flat| - first, first, bs);
    MinTimes(k, |flat| - first, bs);
    W.TakenAt(flat, first, k);
    if first == |flat| {
      assert Mul(0, bs) == 0;
    }
  }

  lemma WriteLenWalks(size: nat, direct: seq<nat>, first: nat, bs: nat)
    requires BlockSize(bs) && |direct| == W.DIRECT_COUNT
    ensures WriteLen(size, Mul(first, bs), bs)
         == Mul(|W.Taken(direct, first, W.BlockCount(Min(size, PAGE_SIZE), bs))|, bs)
  {
    var k := W.BlockCount(Min(size, PAGE_SIZE), bs);
    W.TakenAt(direct, first, k);
    if first < W.DIRECT_COUNT {
      MulDistribute(W.DIRECT_COUNT - first, first, bs);
      Multiples(first, W.DIRECT_COUNT, bs);
      MinTimes(k, W.DIRECT_COUNT - first, bs);
    } else {
      if first > W.DIRECT_COUNT {
        Multiples(W.DIRECT_COUNT, first, bs);
      }
      assert Mul(0, bs) == 0;
    }
  }

  /** A page within the direct blocks of a file of at least a page goes to the disk as a whole. */
  lemma WritePageLen(size: nat, start: nat, bs: nat)
    requires BlockSize(bs) && size >= PAGE_SIZE && start + PAGE_SIZE <= W.DIRECT_COUNT * bs
    ensures WriteLen(size, start, bs) == PAGE_SIZE
  {
  }

  /** A turn that writes `n` bytes at `off` by way of a window from `start` on, of which `len` bytes are stored. */
  ghost predicate WritesRight(data: seq<byte>, buf: seq<byte>, src: seq<byte>, off: nat, start: nat, len: nat)
    requires |src| <= |buf| == PAGE_SIZE && len <= PAGE_SIZE && start + len <= |data| && off + |src| <= |data|
  {
    Patch(data, start, (src + buf[|src|..])[..len]) == Patch(data, off, src)
  }

  /**
   A turn that stores its window is right, whatever file, window and source hold, exactly when
   it starts at a block boundary and its bytes are all that is stored.
   */
  lemma WriteTurnExact(total: nat, off: nat, start: nat, n: nat, len: nat)
    requires start <= off && 0 < n <= PAGE_SIZE && len <= PAGE_SIZE && start + len <= total && off + n <= total
    ensures (forall data: seq<byte>, buf: seq<byte>, src: seq<byte> | |data| == total && |buf| == PAGE_SIZE && |src| == n ::
        WritesRight(data, buf, src, off, start, len)) <==> off == start && n == len
  {
    var data, buf, src := seq(total, _ => 0 as byte), seq(PAGE_SIZE, _ => 2 as byte), seq(n, _ => 1 as byte);
    if off == start && n == len {
      forall d: seq<byte>, b: seq<byte>, s: seq<byte> | |d| == total && |b| == PAGE_SIZE && |s| == n
        ensures WritesRight(d, b, s, off, start, len)
      {
        assert (s + b[n..])[..len] == s;
      }
    } else {
      WritesWrong(data, buf, src, off, start, len);
    }
  }

  /** Otherwise a byte is wrong in an empty file. */
  lemma WritesWrong(data: seq<byte>, buf: seq<byte>, src: seq<byte>, off: nat, start: nat, len: nat)
    requires 0 < |src| <= |buf| == PAGE_SIZE && len <= PAGE_SIZE && start + len <= |data| && off + |src| <= |data| && start <= off
    requires (forall i :: 0 <= i < |data| ==> data[i] == 0) && (forall i :: 0 <= i < |src| ==> src[i] == 1)
    requires forall i :: 0 <= i < |buf| ==> buf[i] == 2
    requires off != start || |src| != len
    ensures !WritesRight(data, buf, src, off, start, len)
  {
    var stored := (src + buf[|src|..])[..len];
    var a, b := Patch(data, start, stored), Patch(data, off, src);
    var i := if len == 0 then off else if off != start then start else if |src| < len then start + |src| else start + len;
    PatchAt(data, start, stored, i);
    PatchAt(data, off, src, i);
    assert a[i] != b[i];
  }

  function Patch<T>(data: seq<T>, start: nat, page: seq<T>): (r: seq<T>)
    requires start + |page| <= |data|
    ensures |r| == |data| && r[start..start + |page|] == page
    ensures forall i, j :: 0 <= i <= j <= start || start + |page| <= i <= j <= |data| ==> r[i..j] == data[i..j]
  {
    data[..start] + page + data[start + |page|..]
  }

  lemma PatchAt<T>(data: seq<T>, start: nat, page: seq<T>, i: nat)
    requires start + |page| <= |data| && i < |data|
    ensures Patch(data, start, page)[i] == if start <= i < start + |page| then page[i - start] else data[i]
  {
  }

  /** A page boundary is a block boundary. */
  lemma PageStart(off: nat, bs: nat)
    requires BlockSize(bs) && BlockStart(off, PAGE_SIZE) == off
    ensures BlockStart(off, bs) == off
  {
  }

  // ---- a window that goes stale --------------------------------------------------------------------

  /** Two reads of one byte, in the first and in the second block of a file with 1024-byte blocks. */
  method StaleFile<T>(blocks: seq<T>, page: seq<T>) returns (file: File<T>)
    requires W.DIRECT_COUNT * 1024 <= |blocks| <= INT_MAX && |page| == PAGE_SIZE
    ensures fresh(file) && file.bs == 1024 && file.Valid() && file.Coherent() && file.size == |blocks| && file.data == blocks
    ensures file.offset == 1024 && file.Stale(1024) && file.buf[..1] == blocks[..1]
  {
    file := new File(1024, |blocks|, blocks, page);
    var n, out := file.Read(1);
    assert file.buf[..1] == file.data[..1];
    file.Seek(1024);
  }

  /** The second read gives the first byte of the file. */
  method WrongByte<T>(blocks: seq<T>, page: seq<T>) returns (out: seq<T>)
    requires W.DIRECT_COUNT * 1024 <= |blocks| <= INT_MAX && |page| == PAGE_SIZE
    ensures out == [blocks[0]]
  {
    var file := StaleFile(blocks, page);
    assert BlockStart(1024, 1024) == 1024 && file.FirstTurn(1) == 1;
    assert file.StaleBytes(1) == file.buf[..1];
    var n;
    n, out := file.Read(1);
    assert out == blocks[..1] + blocks[1025..1025];
  }
}
