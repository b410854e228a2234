/**
 How `ext2.c` finds the blocks of a file: twelve direct blocks, then trees of pointer blocks
 of one, two and three levels, walked with a count of the blocks still to be skipped.
 */
module BlockWalk {
  import opened Common
  import opened Arith

  const DIRECT_COUNT: nat := 12

  function Pow(x: nat, y: nat): nat {
    if y == 0 then 1 else x * Pow(x, y - 1)
  }

  /** `n` times `x`, counted up. */
  function Times(n: nat, x: nat): nat {
    if n == 0 then 0 else Times(n - 1, x) + x
  }

  lemma {:induction false} TimesIs(n: nat, x: nat)
    ensures Times(n, x) == n * x
  {
    if n > 0 {
      TimesIs(n - 1, x);
      assert n * x == (n - 1) * x + x;
    }
  }

  /** Pointers in a block. */
  function Fanout(bs: nat): nat {
    bs / 4
  }

  /** The value of a byte. */
  function Octet(b: byte): (n: nat)
    ensures n < 0x100
  {
    b as nat
  }

  /** The `i`th 32-bit little-endian pointer of a block. */
  function Pointer(b: seq<byte>, i: nat): nat
    requires 4 * i + 3 < |b|
  {
    Octet(b[4 * i]) + 0x100 * Octet(b[4 * i + 1]) + 0x1_0000 * Octet(b[4 * i + 2]) + 0x100_0000 * Octet(b[4 * i + 3])
  }

  /** From its low end the bytes of the pointer are those of the block, in order. */
  lemma PointerBytes(b: seq<byte>, i: nat)
    requires 4 * i + 3 < |b|
    ensures var p := Pointer(b, i);
      && p % 0x100 == Octet(b[4 * i]) && p / 0x100 % 0x100 == Octet(b[4 * i + 1])
      && p / 0x1_0000 % 0x100 == Octet(b[4 * i + 2]) && p / 0x100_0000 == Octet(b[4 * i + 3])
      && p < 0x1_0000_0000
  {
    FourBytes(Octet(b[4 * i]), Octet(b[4 * i + 1]), Octet(b[4 * i + 2]), Octet(b[4 * i + 3]), Pointer(b, i));
  }

  lemma FourBytes(w: nat, x: nat, y: nat, z: nat, p: nat)
    requires w < 0x100 && x < 0x100 && y < 0x100 && z < 0x100
    requires p == w + 0x100 * x + 0x1_0000 * y + 0x100_0000 * z
    ensures p % 0x100 == w && p / 0x100 % 0x100 == x && p / 0x1_0000 % 0x100 == y && p / 0x100_0000 == z && p < 0x1_0000_0000
  {
  }

  /** The pointers of a block take all of it but at most three bytes. */
  lemma FanoutCovers(bs: nat)
    ensures 4 * Fanout(bs) <= bs < 4 * Fanout(bs) + 4
  {
  }

  /** A device read by block number, whatever is on it. */
  datatype Disk = Disk(bs: nat, block: nat -> seq<byte>)

  ghost predicate DiskOk(d: Disk) {
    d.bs >= 4 && forall n :: |d.block(n)| == d.bs
  }

  // ---- the flattened tree -------------------------------------------------------------------------

  /** The data blocks under `bno`, a tree of `level` levels, in file order. */
  ghost function Flat(d: Disk, bno: nat, level: nat): seq<nat>
    requires DiskOk(d)
    decreases level, d.bs + 1
  {
    if level == 0 then [bno] else FlatUpTo(d, bno, level, Fanout(d.bs))
  }

  /** Those under its first `n` pointers. */
  ghost function FlatUpTo(d: Disk, bno: nat, level: nat, n: nat): seq<nat>
    requires DiskOk(d) && level > 0 && n <= Fanout(d.bs)
    decreases level, n
  {
    if n == 0 then []
    else FlatUpTo(d, bno, level, n - 1) + Flat(d, Pointer(d.block(bno), n - 1), level - 1)
  }

  lemma {:induction false} FlatSize(d: Disk, bno: nat, level: nat)
    requires DiskOk(d)
    ensures |Flat(d, bno, level)| == Pow(Fanout(d.bs), level)
    decreases level, d.bs + 1
  {
    if level > 0 {
      FlatUpToSize(d, bno, level, Fanout(d.bs));
      TimesIs(Fanout(d.bs), Pow(Fanout(d.bs), level - 1));
    }
  }

  lemma {:induction false} FlatUpToSize(d: Disk, bno: nat, level: nat, n: nat)
    requires DiskOk(d) && level > 0 && n <= Fanout(d.bs)
    ensures |FlatUpTo(d, bno, level, n)| == Times(n, Pow(Fanout(d.bs), level - 1))
    decreases level, n
  {
    if n > 0 {
      FlatUpToSize(d, bno, level, n - 1);
      FlatSize(d, Pointer(d.block(bno), n - 1), level - 1);
    }
  }

  lemma PowPositive(x: nat, y: nat)
    requires x > 0
    ensures Pow(x, y) > 0
  {
  }

  /** Below pointer `q` of a block, data block `r` comes after those of the pointers before it. */
  ghost predicate At(d: Disk, bno: nat, level: nat, m: nat, q: nat, r: nat)
    requires DiskOk(d) && level > 0 && q < m <= Fanout(d.bs)
  {
    var k, b := Times(q, Pow(Fanout(d.bs), level - 1)) + r, Flat(d, Pointer(d.block(bno), q), level - 1);
    k < |FlatUpTo(d, bno, level, m)| && r < |b| && FlatUpTo(d, bno, level, m)[k] == b[r]
  }

  lemma AtLast(d: Disk, bno: nat, level: nat, m: nat, r: nat)
    requires DiskOk(d) && level > 0 && 0 < m <= Fanout(d.bs) && r < Pow(Fanout(d.bs), level - 1)
    ensures At(d, bno, level, m, m - 1, r)
  {
    FlatUpToSize(d, bno, level, m - 1);
    FlatSize(d, Pointer(d.block(bno), m - 1), level - 1);
  }

  lemma AtMore(d: Disk, bno: nat, level: nat, m: nat, q: nat, r: nat)
    requires DiskOk(d) && level > 0 && q < m < Fanout(d.bs) && At(d, bno, level, m, q, r)
    ensures At(d, bno, level, m + 1, q, r)
  {
    var last := Flat(d, Pointer(d.block(bno), m), level - 1);
    assert FlatUpTo(d, bno, level, m + 1) == FlatUpTo(d, bno, level, m) + last;
  }

  lemma {:induction false} FlatUpToAt(d: Disk, bno: nat, level: nat, m: nat, q: nat, r: nat)
    requires DiskOk(d) && level > 0 && q < m <= Fanout(d.bs) && r < Pow(Fanout(d.bs), level - 1)
    ensures At(d, bno, level, m, q, r)
    decreases m
  {
    if q < m - 1 {
      FlatUpToAt(d, bno, level, m - 1, q, r);
      AtMore(d, bno, level, m - 1, q, r);
    } else {
      AtLast(d, bno, level, m, r);
    }
  }

  /**
   Data block `k` of a tree is found as ext2 numbers them: below pointer `k / n` of the top
   block, where a subtree has `n` data blocks, it is data block `k % n`.
   */
  lemma FlatAt(d: Disk, bno: nat, level: nat, k: nat)
    requires DiskOk(d) && level > 0 && k < Pow(d.bs / 4, level)
    ensures var n := Pow(d.bs / 4, level - 1);
      && n > 0 && Div(k, n) < d.bs / 4 && Mod(k, n) < n
      && |Flat(d, bno, level)| == Pow(d.bs / 4, level)
      && |Flat(d, Pointer(d.block(bno), Div(k, n)), level - 1)| == n
      && Flat(d, bno, level)[k] == Flat(d, Pointer(d.block(bno), Div(k, n)), level - 1)[Mod(k, n)]
  {
    var n := Pow(Fanout(d.bs), level - 1);
    PowPositive(Fanout(d.bs), level - 1);
    DivModBack(k, n);
    TimesIs(Div(k, n), n);
    FlatSize(d, bno, level);
    QuotientBelow(k, n, Fanout(d.bs));
    FlatSize(d, Pointer(d.block(bno), Div(k, n)), level - 1);
    FlatUpToAt(d, bno, level, Fanout(d.bs), Div(k, n), Mod(k, n));
  }

  lemma QuotientBelow(k: nat, n: nat, m: nat)
    requires n > 0 && k < m * n
    ensures Div(k, n) < m
  {
    DivModBack(k, n);
    if m < Div(k, n) {
      Multiples(m, Div(k, n), n);
    }
  }

  // ---- skip, then take ------------------------------------------------------------------------------

  /** At most `k` elements after the first `skip`. */
  ghost function Taken(flat: seq<nat>, skip: nat, k: nat): (t: seq<nat>)
    ensures |t| <= k
  {
    if skip >= |flat| then [] else flat[skip..Min(skip + k, |flat|)]
  }

  /** What is left to skip behind a list. */
  ghost function SkipAfter(flat: seq<nat>, skip: nat): nat {
    if skip >= |flat| then skip - |flat| else 0
  }

  lemma TakenAt(flat: seq<nat>, skip: nat, k: nat)
    ensures var t := Taken(flat, skip, k);
      && |t| == (if skip >= |flat| then 0 else Min(k, |flat| - skip))
      && forall i :: 0 <= i < |t| ==> t[i] == flat[skip + i]
  {
  }

  lemma SliceConcat(a: seq<nat>, b: seq<nat>, i: nat, j: nat)
    requires i <= |a| <= j <= |a| + |b|
    ensures (a + b)[i..j] == a[i..] + b[..j - |a|]
  {
  }

  lemma SliceLeft(a: seq<nat>, b: seq<nat>, i: nat, j: nat)
    requires i <= j <= |a|
    ensures (a + b)[i..j] == a[i..j]
  {
  }

  lemma SliceRight(a: seq<nat>, b: seq<nat>, i: nat, j: nat)
    requires |a| <= i <= j <= |a| + |b|
    ensures (a + b)[i..j] == b[i - |a|..j - |a|]
  {
  }

  lemma TakenConcat(a: seq<nat>, b: seq<nat>, skip: nat, k: nat)
    ensures Taken(a + b, skip, k) == Taken(a, skip, k) + Taken(b, SkipAfter(a, skip), k - |Taken(a, skip, k)|)
    ensures SkipAfter(a + b, skip) == SkipAfter(b, SkipAfter(a, skip))
  {
    var end := Min(skip + k, |a| + |b|);
    if skip < |a| && end <= |a| {
      SliceLeft(a, b, skip, end);
    } else if skip < |a| {
      SliceConcat(a, b, skip, end);
    } else if skip < |a| + |b| {
      SliceRight(a, b, skip, end);
    }
  }

  /** The contents of blocks, one after the other. */
  ghost function Contents(d: Disk, bnos: seq<nat>): seq<byte> {
    if bnos == [] then [] else Contents(d, bnos[..|bnos| - 1]) + d.block(bnos[|bnos| - 1])
  }

  /** Byte `j` of the `i`th block. */
  lemma {:induction false} ContentsAt(d: Disk, bnos: seq<nat>, i: nat, j: nat)
    requires DiskOk(d) && i < |bnos| && j < d.bs
    ensures Times(i, d.bs) + j < |Contents(d, bnos)| == Times(|bnos|, d.bs)
    ensures Contents(d, bnos)[Times(i, d.bs) + j] == d.block(bnos[i])[j]
  {
    var m := |bnos| - 1;
    ContentsLength(d, bnos[..m]);
    if i < m {
      ContentsAt(d, bnos[..m], i, j);
    }
  }

  lemma {:induction false} ContentsLength(d: Disk, bnos: seq<nat>)
    requires DiskOk(d)
    ensures |Contents(d, bnos)| == Times(|bnos|, d.bs)
  {
    if bnos != [] {
      ContentsLength(d, bnos[..|bnos| - 1]);
    }
  }

  lemma ContentsNext(d: Disk, a: seq<nat>, x: nat)
    ensures Contents(d, a + [x]) == Contents(d, a) + d.block(x)
  {
    assert (a + [x])[..|a|] == a;
  }

  lemma {:induction false} ContentsConcat(d: Disk, a: seq<nat>, b: seq<nat>)
    ensures Contents(d, a + b) == Contents(d, a) + Contents(d, b)
  {
    if b == [] {
      assert a + b == a;
    } else {
      var n := |b| - 1;
      ContentsConcat(d, a, b[..n]);
      assert b == b[..n] + [b[n]] && a + b == a + b[..n] + [b[n]];
      ContentsNext(d, a + b[..n], b[n]);
      ContentsNext(d, b[..n], b[n]);
    }
  }

  // ---- a file ------------------------------------------------------------------------------------------

  datatype Inode = Inode(size: nat, blocks: seq<nat>)

  ghost predicate InodeOk(n: Inode) {
    |n.blocks| == DIRECT_COUNT + 3
  }

  /** The blocks of a file: the direct ones, then the first `levels` trees. */
  ghost function FileBlocks(d: Disk, n: Inode, levels: nat): seq<nat>
    requires DiskOk(d) && InodeOk(n) && levels <= 3
  {
    if levels == 0 then n.blocks[..DIRECT_COUNT]
    else FileBlocks(d, n, levels - 1) + Flat(d, n.blocks[DIRECT_COUNT - 1 + levels], levels)
  }

  /** Pointer `i` of block `bno`. */
  ghost function PointerAt(d: Disk, bno: nat, i: nat): nat
    requires DiskOk(d)
  {
    if i < d.bs / 4 then Pointer(d.block(bno), i) else 0
  }

  /** Where ext2 keeps data block `k` of a file: in the inode, or below its pointers to one, two or three levels. */
  ghost function BlockOf(d: Disk, n: Inode, k: nat): nat
    requires DiskOk(d) && InodeOk(n)
  {
    var p := d.bs / 4;
    if k < 12 then n.blocks[k]
    else if k < 12 + p then PointerAt(d, n.blocks[12], k - 12)
    else if k < 12 + p + Mul(p, p) then
      var j := k - 12 - p;
      PointerAt(d, PointerAt(d, n.blocks[13], Div(j, p)), Mod(j, p))
    else if Mul(p, p) > 0 then
      var j := k - 12 - p - Mul(p, p);
      var r := Mod(j, Mul(p, p));
      PointerAt(d, PointerAt(d, PointerAt(d, n.blocks[14], Div(j, Mul(p, p))), Div(r, p)), Mod(r, p))
    else 0
  }

  lemma Pow123(p: nat)
    ensures Pow(p, 0) == 1 && Pow(p, 1) == p && Pow(p, 2) == Mul(p, p) && Pow(p, 3) == Mul(p, Mul(p, p))
  {
    assert Pow(p, 1) == p * Pow(p, 0);
    assert Pow(p, 2) == p * Pow(p, 1);
    assert Pow(p, 3) == p * Pow(p, 2);
  }

  lemma Tree1At(d: Disk, bno: nat, k: nat)
    requires DiskOk(d) && k < d.bs / 4
    ensures |Flat(d, bno, 1)| == d.bs / 4 && Flat(d, bno, 1)[k] == PointerAt(d, bno, k)
  {
    Pow123(d.bs / 4);
    FlatAt(d, bno, 1, k);
    assert k / 1 == k && k % 1 == 0;
  }

  lemma Tree2At(d: Disk, bno: nat, k: nat)
    requires DiskOk(d) && k < Mul(d.bs / 4, d.bs / 4)
    ensures var p := d.bs / 4;
      && |Flat(d, bno, 2)| == Mul(p, p)
      && Flat(d, bno, 2)[k] == PointerAt(d, PointerAt(d, bno, Div(k, p)), Mod(k, p))
  {
    var p := d.bs / 4;
    Pow123(p);
    FlatAt(d, bno, 2, k);
    Tree1At(d, PointerAt(d, bno, Div(k, p)), Mod(k, p));
  }

  lemma Tree3At(d: Disk, bno: nat, k: nat)
    requires DiskOk(d) && k < Mul(d.bs / 4, Mul(d.bs / 4, d.bs / 4))
    ensures var p := d.bs / 4; var q := Mul(p, p);
      && q > 0 && |Flat(d, bno, 3)| == Mul(p, q)
      && var r := Mod(k, q);
         Flat(d, bno, 3)[k] == PointerAt(d, PointerAt(d, PointerAt(d, bno, Div(k, q)), Div(r, p)), Mod(r, p))
  {
    var p := d.bs / 4;
    Pow123(p);
    FlatAt(d, bno, 3, k);
    Tree2At(d, PointerAt(d, bno, Div(k, Mul(p, p))), Mod(k, Mul(p, p)));
  }

  /** The trees of a file, one behind the other. */
  lemma FileBlocksSizes(d: Disk, n: Inode)
    requires DiskOk(d) && InodeOk(n)
    ensures var p := d.bs / 4;
      && |Flat(d, n.blocks[12], 1)| == p && |Flat(d, n.blocks[13], 2)| == Mul(p, p)
      && |Flat(d, n.blocks[14], 3)| == Mul(p, Mul(p, p))
      && FileBlocks(d, n, 3)
        == n.blocks[..12] + Flat(d, n.blocks[12], 1) + Flat(d, n.blocks[13], 2) + Flat(d, n.blocks[14], 3)
  {
    Pow123(d.bs / 4);
    FlatSize(d, n.blocks[12], 1);
    FlatSize(d, n.blocks[13], 2);
    FlatSize(d, n.blocks[14], 3);
    assert FileBlocks(d, n, 0) == n.blocks[..12];
    assert FileBlocks(d, n, 1) == FileBlocks(d, n, 0) + Flat(d, n.blocks[12], 1);
    assert FileBlocks(d, n, 2) == FileBlocks(d, n, 1) + Flat(d, n.blocks[13], 2);
  }

  /** The list that the walk is about is that of ext2, block by block, up to the largest file there can be. */
  lemma FileBlocksAt(d: Disk, n: Inode, k: nat)
    requires DiskOk(d) && InodeOk(n)
    requires var p := d.bs / 4; k < 12 + p + Mul(p, p) + Mul(p, Mul(p, p))
    ensures var p := d.bs / 4; |FileBlocks(d, n, 3)| == 12 + p + Mul(p, p) + Mul(p, Mul(p, p))
    ensures FileBlocks(d, n, 3)[k] == BlockOf(d, n, k)
  {
    var p := d.bs / 4;
    FileBlocksSizes(d, n);
    if k < 12 {
    } else if k < 12 + p {
      Tree1At(d, n.blocks[12], k - 12);
    } else if k < 12 + p + Mul(p, p) {
      Tree2At(d, n.blocks[13], k - 12 - p);
    } else {
      Tree3At(d, n.blocks[14], k - 12 - p - Mul(p, p));
    }
  }

  /** Blocks that `n` bytes take. */
  function BlockCount(n: nat, bs: nat): nat
    requires bs > 0
  {
    n / bs + if n % bs > 0 then 1 else 0
  }

  /** It is the least number of blocks that holds them. */
  lemma BlockCountCovers(n: nat, bs: nat)
    requires bs > 0
    ensures n <= Mul(BlockCount(n, bs), bs) < n + bs
  {
    DivModBack(n, bs);
    if n % bs > 0 {
      MulDistribute(n / bs, 1, bs);
    }
  }

  // ---- the walk --------------------------------------------------------------------------------------

  class Walk {
    const disk: Disk
    /** `bno_offset`, `remaining`, the buffer filled so far, and the kernel pages in use. */
    var off: int
    var remaining: nat
    var out: seq<byte>
    var pages: nat

    constructor (d: Disk)
      requires DiskOk(d)
      ensures disk == d && out == [] && pages == 0
    {
      disk, off, remaining, out, pages := d, 0, 0, [], 0;
    }

    function Skip(): nat
      reads this`off
    {
      if off < 0 then 0 else off
    }

    /** The walk has taken from `flat` what there was to take, for a request of `k` blocks after `skip`. */
    ghost predicate Took(flat: seq<nat>, skip: nat, k: nat, before: seq<byte>)
      reads this
      requires DiskOk(disk)
    {
      && Skip() == SkipAfter(flat, skip)
      && remaining == Times(k - |Taken(flat, skip, k)|, disk.bs)
      && out == before + Contents(disk, Taken(flat, skip, k))
    }

    /** Nothing is taken before there is nothing left to skip. */
    ghost predicate SkipsFirst()
      reads this
    {
      Skip() > 0 ==> remaining > 0
    }

    /** `power`. */
    method Power(x: nat, y: nat) returns (res: nat)
      ensures res == Pow(x, y)
    {
      res := 1;
      var i := 0;
      while i < y
        invariant 0 <= i <= y && res == Pow(x, i)
      {
        res := res * x;
        i := i + 1;
      }
    }

    /** Two stretches of a walk, one after the other. */
    lemma TookMore(a: seq<nat>, b: seq<nat>, skip: nat, k: nat, before: seq<byte>, middle: seq<byte>)
      requires DiskOk(disk)
      requires middle == before + Contents(disk, Taken(a, skip, k))
      requires Took(b, SkipAfter(a, skip), k - |Taken(a, skip, k)|, middle)
      ensures Took(a + b, skip, k, before)
    {
      TakenConcat(a, b, skip, k);
      ContentsConcat(disk, Taken(a, skip, k), Taken(b, SkipAfter(a, skip), k - |Taken(a, skip, k)|));
    }

    /** The leaf case of `get_indirect_data_for_file`. */
    method Leaf(bno: nat, ghost k: nat)
      requires DiskOk(disk) && remaining == Times(k, disk.bs) && SkipsFirst()
      modifies this`off, this`remaining, this`out
      ensures Took([bno], old(Skip()), k, old(out)) && SkipsFirst()
    {
      if remaining > 0 {
        LeafTaken(bno, k);
        if off <= 0 {
          var read := Min(remaining, disk.bs);
          out := out + disk.block(bno)[..read];
          remaining := remaining - read;
          assert Contents(disk, [bno]) == disk.block(bno);
        } else {
          off := off - 1;
        }
      } else {
        assert k == 0;
      }
    }

    lemma LeafTaken(bno: nat, k: nat)
      requires DiskOk(disk) && Times(k, disk.bs) > 0
      ensures k >= 1 && Times(k, disk.bs) == Times(k - 1, disk.bs) + disk.bs
      ensures Taken([bno], 0, k) == [bno]
      ensures forall skip: nat :: skip > 0 ==> Taken([bno], skip, k) == []
    {
    }

    /** `get_indirect_data_for_file`. */
    method GetIndirect(bno: nat, level: nat, ghost k: nat)
      requires DiskOk(disk) && remaining == Times(k, disk.bs) && SkipsFirst()
      modifies this
      ensures Took(Flat(disk, bno, level), old(Skip()), k, old(out)) && SkipsFirst()
      ensures pages == old(pages)
      decreases level, disk.bs + 1
    {
      if level > 0 {
        pages := pages + 1;
        var totalBlocks := disk.bs / 4;
        var blocks := disk.block(bno);
        var next := Power(totalBlocks, level - 1);
        ghost var skip, before := Skip(), out;
        var i := 0;
        while i < totalBlocks
          invariant 0 <= i <= totalBlocks && pages == old(pages) + 1
          invariant Took(FlatUpTo(disk, bno, level, i), skip, k, before) && SkipsFirst()
          decreases totalBlocks - i
        {
          Entry(bno, level, i, Pointer(blocks, i), next, skip, k, before);
          i := i + 1;
        }
        pages := pages - 1;
      } else {
        Leaf(bno, k);
      }
    }

    /** One pointer of a block: its whole subtree is skipped, or it is entered. */
    method Entry(bno: nat, level: nat, i: nat, child: nat, next: nat, ghost skip: nat, ghost k: nat, ghost before: seq<byte>)
      requires DiskOk(disk) && level > 0 && i < Fanout(disk.bs) && child == Pointer(disk.block(bno), i)
      requires next == Pow(Fanout(disk.bs), level - 1)
      requires Took(FlatUpTo(disk, bno, level, i), skip, k, before) && SkipsFirst()
      modifies this
      ensures Took(FlatUpTo(disk, bno, level, i + 1), skip, k, before) && SkipsFirst()
      ensures pages == old(pages)
      decreases level, i
    {
      ghost var a, b := FlatUpTo(disk, bno, level, i), Flat(disk, child, level - 1);
      ghost var middle, k' := out, k - |Taken(a, skip, k)|;
      FlatSize(disk, child, level - 1);
      if next > off {
        GetIndirect(child, level - 1, k');
      } else {
        off := off - next;
        assert Taken(b, SkipAfter(a, skip), k') == [];
        assert out == middle + [];
      }
      TookMore(a, b, skip, k, before, middle);
    }

    /** The bytes to read, rounded up to whole blocks. */
    method SetRemaining(size: nat, bufSize: nat)
      requires DiskOk(disk)
      modifies this`remaining
      ensures remaining == Times(BlockCount(Min(size, bufSize), disk.bs), disk.bs)
    {
      TimesIs(BlockCount(Min(size, bufSize), disk.bs), disk.bs);
      remaining := Min(size, bufSize);
      ghost var q := remaining / disk.bs;
      assert remaining == q * disk.bs + remaining % disk.bs;
      if remaining % disk.bs > 0 {
        assert (q + 1) * disk.bs == q * disk.bs + disk.bs;
        remaining := remaining + disk.bs - remaining % disk.bs;
      }
    }

    /** The loop of `operate_data_with_file` over the direct blocks, from one of them on. */
    method DirectLoop(blocks: seq<nat>, firstBno: nat, ghost k: nat)
      requires DiskOk(disk) && |blocks| == DIRECT_COUNT && remaining == Times(k, disk.bs)
      modifies this`remaining, this`out
      ensures remaining == Times(k - |Taken(blocks, firstBno, k)|, disk.bs)
      ensures out == old(out) + Contents(disk, Taken(blocks, firstBno, k))
    {
      var i := firstBno;
      ghost var part := [];
      while i < DIRECT_COUNT && remaining > 0
        invariant i == firstBno + |part| && (i <= DIRECT_COUNT || part == []) && |part| <= k
        invariant firstBno < DIRECT_COUNT ==> part == blocks[firstBno..i]
        invariant remaining == Times(k - |part|, disk.bs)
        invariant out == old(out) + Contents(disk, part)
        decreases DIRECT_COUNT - i
      {
        ContentsNext(disk, part, blocks[i]);
        assert |part| < k;
        out := out + disk.block(blocks[i]);
        part := part + [blocks[i]];
        i, remaining := i + 1, remaining - disk.bs;
      }
      AllDirect(blocks, firstBno, k, part, i);
    }

    lemma AllDirect(blocks: seq<nat>, firstBno: nat, k: nat, part: seq<nat>, i: nat)
      requires DiskOk(disk) && |blocks| == DIRECT_COUNT && i == firstBno + |part| && |part| <= k
      requires i <= DIRECT_COUNT || part == []
      requires firstBno < DIRECT_COUNT ==> part == blocks[firstBno..i]
      requires i >= DIRECT_COUNT || Times(k - |part|, disk.bs) == 0
      ensures part == Taken(blocks, firstBno, k)
    {
    }

    /** That loop, and the count of blocks to skip in the trees. */
    method Direct(inode: Inode, firstBno: nat, ghost k: nat)
      requires DiskOk(disk) && InodeOk(inode) && remaining == Times(k, disk.bs)
      modifies this`remaining, this`out, this`off
      ensures Took(FileBlocks(disk, inode, 0), firstBno, k, old(out))
    {
      DirectLoop(inode.blocks[..DIRECT_COUNT], firstBno, k);
      off := firstBno - DIRECT_COUNT;
    }

    /**
     `operate_data_with_file`, reading: the contents of the blocks from `firstBno` on, as many
     as the file or the buffer holds bytes for, but not beyond the end of the last tree.
     */
    method OperateData(inode: Inode, firstBno: nat, bufSize: nat)
      requires DiskOk(disk) && InodeOk(inode)
      modifies this
      ensures out == old(out)
        + Contents(disk, Taken(FileBlocks(disk, inode, 3), firstBno, BlockCount(Min(inode.size, bufSize), disk.bs)))
      ensures pages == old(pages)
    {
      ghost var before, k := out, BlockCount(Min(inode.size, bufSize), disk.bs);
      SetRemaining(inode.size, bufSize);
      Direct(inode, firstBno, k);
      var i := 1;
      while i < 4 && remaining > 0
        invariant 1 <= i <= 4 && pages == old(pages)
        invariant Took(FileBlocks(disk, inode, i - 1), firstBno, k, before)
        decreases 4 - i
      {
        Tree(inode, i, firstBno, k, before);
        i := i + 1;
      }
      AllTaken(inode, i - 1, firstBno, k);
    }

    /** One turn of its loop over the trees. */
    method Tree(inode: Inode, i: nat, ghost firstBno: nat, ghost k: nat, ghost before: seq<byte>)
      requires DiskOk(disk) && InodeOk(inode) && 1 <= i < 4 && remaining > 0
      requires Took(FileBlocks(disk, inode, i - 1), firstBno, k, before)
      modifies this
      ensures Took(FileBlocks(disk, inode, i), firstBno, k, before) && pages == old(pages)
    {
      ghost var a, middle := FileBlocks(disk, inode, i - 1), out;
      ghost var b := Flat(disk, inode.blocks[DIRECT_COUNT - 1 + i], i);
      GetIndirect(inode.blocks[DIRECT_COUNT - 1 + i], i, k - |Taken(a, firstBno, k)|);
      TookMore(a, b, firstBno, k, before, middle);
    }

    lemma NothingMore(inode: Inode, levels: nat, firstBno: nat, k: nat)
      requires DiskOk(disk) && InodeOk(inode) && levels < 3
      requires k == |Taken(FileBlocks(disk, inode, levels), firstBno, k)|
      ensures Taken(FileBlocks(disk, inode, levels + 1), firstBno, k) == Taken(FileBlocks(disk, inode, levels), firstBno, k)
    {
      var a := FileBlocks(disk, inode, levels);
      var b := Flat(disk, inode.blocks[DIRECT_COUNT + levels], levels + 1);
      TakenConcat(a, b, firstBno, k);
      assert Taken(a, firstBno, k) + [] == Taken(a, firstBno, k);
    }

    /** Nothing is missing when the request is met before the last tree. */
    lemma AllTaken(inode: Inode, levels: nat, firstBno: nat, k: nat)
      requires DiskOk(disk) && InodeOk(inode) && levels <= 3
      requires remaining == Times(k - |Taken(FileBlocks(disk, inode, levels), firstBno, k)|, disk.bs)
      requires levels < 3 ==> remaining == 0
      ensures Taken(FileBlocks(disk, inode, 3), firstBno, k) == Taken(FileBlocks(disk, inode, levels), firstBno, k)
      decreases 3 - levels
    {
      if levels < 3 {
        NothingMore(inode, levels, firstBno, k);
        AllTaken(inode, levels + 1, firstBno, k);
      }
    }
  }
}
