/**
 Byte addressing of block devices: `operate_with_bdev` of `device.c`, and the addresses that
 `ext2.c` computes for it. A device is the sequence of its bytes.
 */
module BlockDevice {
  import opened Arith
  import opened Slices

  const READ_BUF: nat := 4096

  /** C division, which truncates. */
  function TruncDiv(a: int, b: int): int
    requires b > 0
  {
    if a >= 0 then a / b else -((-a) / b)
  }

  /** `align_to_lower`. */
  function AlignToLower(number: int, mult: int): int
    requires mult > 0
  {
    TruncDiv(number, mult) * mult
  }

  /** Below zero but less than one multiple away, it gives zero. */
  lemma AlignBelow(number: int, mult: int)
    requires -mult < number < 0
    ensures AlignToLower(number, mult) == 0 && TruncDiv(AlignToLower(number, mult), mult) == 0
  {
    DivModUnique(-number, mult, 0, -number);
    DivModUnique(0, mult, 0, 0);
  }

  /** From zero up, it gives the last multiple. */
  lemma AlignAbove(number: nat, mult: nat)
    requires mult > 0
    ensures 0 <= AlignToLower(number, mult) <= number < AlignToLower(number, mult) + mult
  {
    DivModBack(number, mult);
  }

  lemma AlignedSectors(number: nat, mult: nat)
    requires mult > 0
    ensures AlignToLower(number, mult) == Mul(Div(number, mult), mult)
    ensures TruncDiv(AlignToLower(number, mult), mult) == Div(number, mult)
  {
    DivModUnique(Mul(Div(number, mult), mult), mult, Div(number, mult), 0);
  }

  class BlockDevice<T> {
    const size: nat
    var bytes: seq<T>
    const readBuf: array<T>

    ghost predicate Valid()
      reads this
    {
      0 < size <= READ_BUF == readBuf.Length
    }

    constructor (bs: nat, bytes': seq<T>, buf: array<T>)
      requires 0 < bs <= READ_BUF == buf.Length
      ensures Valid() && size == bs && bytes == bytes' && readBuf == buf
    {
      size, bytes, readBuf := bs, bytes', buf;
    }

    /** The driver's `read`: `n` bytes from the start of a sector, which is at byte `pos`. */
    method ReadSectors(sector: nat, ghost pos: nat, buf: array<T>, at: nat, n: nat)
      requires pos == sector * size && pos + n <= |bytes| && at + n <= buf.Length
      modifies buf
      ensures buf[..] == old(buf[..at]) + bytes[pos..pos + n] + old(buf[at + n..])
    {
      var start := sector * size;
      forall i | 0 <= i < n {
        buf[at + i] := bytes[start + i];
      }
    }

    /** `memcpy` out of the static sector buffer. */
    method CopyOut(from: nat, buf: array<T>, at: nat, n: nat)
      requires from + n <= readBuf.Length && at + n <= buf.Length && buf != readBuf
      modifies buf
      ensures buf[..] == old(buf[..at]) + readBuf[from..from + n] + old(buf[at + n..])
    {
      forall i | 0 <= i < n {
        buf[at + i] := readBuf[from + i];
      }
    }

    /** A piece of a sector, by way of the sector buffer. */
    method ReadPiece(sector: nat, ghost pos: nat, from: nat, buf: array<T>, at: nat, n: nat)
      requires Valid() && pos == sector * size && pos + size <= |bytes|
      requires from + n <= size && at + n <= buf.Length && buf != readBuf
      modifies buf, readBuf
      ensures buf[..] == old(buf[..at]) + bytes[pos + from..pos + from + n] + old(buf[at + n..])
    {
      ReadSector(sector, pos, from, n);
      CopyOut(from, buf, at, n);
    }

    /** One sector into the sector buffer, of which a piece is wanted. */
    method ReadSector(sector: nat, ghost pos: nat, ghost from: nat, ghost n: nat)
      requires Valid() && pos == sector * size && pos + size <= |bytes| && from + n <= size
      modifies readBuf
      ensures readBuf[from..from + n] == bytes[pos + from..pos + from + n]
    {
      ReadSectors(sector, pos, readBuf, 0, size);
      assert forall i :: 0 <= i < size ==> readBuf[..][i] == bytes[pos..pos + size][i] == bytes[pos + i];
    }

    /** The device ends with a whole sector. */
    ghost predicate WholeSectors()
      reads this
    {
      size > 0 && Mod(|bytes|, size) == 0
    }

    /** A sector that begins on the device ends there too. */
    lemma SectorThere(sector: nat)
      requires WholeSectors() && Mul(sector, size) < |bytes|
      ensures Mul(sector, size) + size <= |bytes|
    {
      var n := Div(|bytes|, size);
      DivModBack(|bytes|, size);
      if n < sector {
        Multiples(n, sector, size);
      }
      assert sector < n;
      Multiples(sector, n, size);
    }

    /**
     `operate_with_bdev` for a read delivers exactly the bytes from the address on, for every
     offset within a sector and every length up to the end of the device, and leaves the rest
     of the buffer alone.
     */
    method Read(sector: nat, offset: nat, buf: array<T>, count: nat)
      requires Valid() && WholeSectors() && offset < size && count <= buf.Length && buf != readBuf
      requires sector * size + offset + count <= |bytes|
      modifies buf, readBuf
      ensures var start := sector * size + offset; buf[..count] == bytes[start..start + count]
      ensures buf[count..] == old(buf[count..])
    {
      var firstRemainder, firstLineal, lineal, last;
      ghost var pos, linealPos, lastPos;
      firstRemainder, firstLineal, lineal, last, pos, linealPos, lastPos := Plan(sector, offset, count);
      ghost var start, was := pos + offset, buf[..];
      ReadHead(sector, pos, offset, buf, firstRemainder, count);
      if count - firstRemainder > 0 {
        ReadRest(firstLineal, linealPos, last, lastPos, buf, firstRemainder, lineal, count - firstRemainder, was, start);
      }
      assert Prefix(buf[..], was, start, count);
    }

    /** What is left of a read behind the first sector. */
    method ReadRest(
      firstLineal: nat, ghost linealPos: nat, last: nat, ghost lastPos: nat,
      buf: array<T>, at: nat, lineal: nat, count: nat, ghost was: seq<T>, ghost start: nat)
      requires Valid() && linealPos == firstLineal * size == start + at && lastPos == last * size == linealPos + lineal
      requires lineal <= count < lineal + size && at + count <= buf.Length && buf != readBuf
      requires linealPos + count <= |bytes| && (count > lineal ==> lastPos + size <= |bytes|)
      requires Prefix(buf[..], was, start, at)
      modifies buf, readBuf
      ensures Prefix(buf[..], was, start, at + count)
    {
      var left := count;
      if lineal > 0 {
        ReadBody(firstLineal, linealPos, buf, at, lineal, was, start);
        left := left - lineal;
      }
      if left > 0 {
        ReadTail(last, lastPos, buf, at + lineal, left, was, start);
      }
    }

    /** The rest of the first sector. */
    method ReadHead(sector: nat, ghost pos: nat, offset: nat, buf: array<T>, rem: nat, count: nat)
      requires Valid() && pos == sector * size && pos + offset + count <= |bytes|
      requires offset < size && (offset > 0 ==> pos + size <= |bytes|) && count <= buf.Length && buf != readBuf
      requires rem == if offset > 0 then size - offset else 0
      modifies buf, readBuf
      ensures Prefix(buf[..], old(buf[..]), pos + offset, if rem < count then rem else count)
    {
      if rem > 0 {
        var n := if rem < count then rem else count;
        ReadPiece(sector, pos, offset, buf, 0, n);
      }
    }

    /** The whole sectors. */
    method ReadBody(sector: nat, ghost pos: nat, buf: array<T>, at: nat, n: nat, ghost was: seq<T>, ghost start: nat)
      requires Valid() && pos == sector * size == start + at && pos + n <= |bytes| && at + n <= buf.Length && buf != readBuf
      requires Prefix(buf[..], was, start, at)
      modifies buf
      ensures Prefix(buf[..], was, start, at + n)
    {
      ghost var now := buf[..];
      ReadSectors(sector, pos, buf, at, n);
      Extended(now, buf[..], was, start, at, n);
    }

    /** The beginning of the last sector. */
    method ReadTail(sector: nat, ghost pos: nat, buf: array<T>, at: nat, n: nat, ghost was: seq<T>, ghost start: nat)
      requires Valid() && pos == sector * size == start + at && pos + size <= |bytes|
      requires n <= size && at + n <= buf.Length && buf != readBuf
      requires Prefix(buf[..], was, start, at)
      modifies buf, readBuf
      ensures Prefix(buf[..], was, start, at + n)
    {
      ghost var now := buf[..];
      ReadPiece(sector, pos, 0, buf, at, n);
      Extended(now, buf[..], was, start, at, n);
    }

    /** The buffer has its first `n` bytes from the device, and the others from before. */
    ghost predicate Prefix(now: seq<T>, was: seq<T>, start: nat, n: int)
      reads this
    {
      && 0 <= n <= |was| == |now| && start + n <= |bytes|
      && now[..n] == bytes[start..start + n] && now[n..] == was[n..]
    }

    lemma Extended(now: seq<T>, next: seq<T>, was: seq<T>, start: nat, n: nat, more: nat)
      requires Prefix(now, was, start, n) && n + more <= |was| && start + n + more <= |bytes|
      requires next == now[..n] + bytes[start + n..start + n + more] + now[n + more..]
      ensures Prefix(next, was, start, n + more)
    {
      assert bytes[start..start + n + more] == bytes[start..start + n] + bytes[start + n..start + n + more];
      assert now[n + more..] == now[n..][more..] == was[n + more..];
    }

    /** What the source computes first, and that the three pieces of a read fit together. */
    method Plan(sector: nat, offset: nat, count: nat)
      returns (rem: nat, firstLineal: nat, lineal: nat, last: nat, ghost pos: nat, ghost linealPos: nat, ghost lastPos: nat)
      requires Valid() && WholeSectors() && offset < size && sector * size + offset + count <= |bytes|
      ensures rem == if offset > 0 then size - offset else 0
      ensures offset > 0 ==> pos + size <= |bytes|
      ensures count > rem + lineal ==> lastPos + size <= |bytes|
      ensures pos == sector * size && linealPos == firstLineal * size == pos + offset + rem
      ensures if count >= rem then lineal <= count - rem < lineal + size else lineal == 0
      ensures lastPos == last * size == linealPos + lineal
    {
      rem := (size - offset) % size;
      Remainder(offset);
      firstLineal := sector + if offset > 0 then 1 else 0;
      Distribute(sector, 1, size);
      pos, linealPos := Mul(sector, size), Mul(firstLineal, size);
      lineal, last := Lineal(firstLineal, count - rem);
      lastPos := linealPos + lineal;
      if offset > 0 {
        SectorThere(sector);
      }
      if count > rem + lineal {
        SectorThere(last);
      }
    }

    method Lineal(firstLineal: nat, number: int) returns (lineal: nat, last: nat)
      requires size > 0 && number + size > 0
      ensures if number >= 0 then lineal <= number < lineal + size else lineal == 0
      ensures last * size == firstLineal * size + lineal
    {
      if number >= 0 {
        AlignAbove(number, size);
        AlignedSectors(number, size);
        Distribute(firstLineal, number / size, size);
      } else {
        AlignBelow(number, size);
      }
      lineal := AlignToLower(number, size);
      last := firstLineal + TruncDiv(lineal, size);
    }

    lemma Remainder(offset: nat)
      requires offset < size
      ensures (size - offset) % size == if offset > 0 then size - offset else 0
    {
      if offset > 0 {
        DivModUnique(size - offset, size, 0, size - offset);
      } else {
        DivModUnique(size, size, 1, 0);
      }
    }
  }

  // ---- addresses of the file system ---------------------------------------------------------------

  datatype Address = Address(sector: nat, offset: nat)

  /** `baddr2bdaddr`. */
  function BlockToDevice(blockSize: nat, sectorSize: nat, bno: nat, offset: nat): Address
    requires blockSize > 0 && sectorSize > 0
  {
    if blockSize >= sectorSize then
      var c := Div(blockSize, sectorSize);
      Address(Mul(bno, c) + Div(offset, sectorSize), Mod(offset, sectorSize))
    else
      var c := Div(sectorSize, blockSize);
      if c == 0 then Address(0, 0) else Address(Div(bno, c), offset + Mul(Mod(bno, c), blockSize))
  }

  /** `OFFSET_TO_BD_ADDR`. */
  function OffsetToDevice(sectorSize: nat, offset: nat): Address
    requires sectorSize > 0
  {
    Address(Div(offset, sectorSize), Mod(offset, sectorSize))
  }

  /** The byte of the device that an address names. */
  function Flat(a: Address, sectorSize: nat): nat {
    Mul(a.sector, sectorSize) + a.offset
  }

  lemma OffsetExact(sectorSize: nat, offset: nat)
    requires sectorSize > 0
    ensures var a := OffsetToDevice(sectorSize, offset); a.offset < sectorSize && Flat(a, sectorSize) == offset
  {
  }

  /**
   Both branches give the flat address of byte `offset` of block `bno`, and an offset that
   lies within a sector, when one size is a multiple of the other.
   */
  lemma BlockAddressExact(blockSize: nat, sectorSize: nat, c: nat, bno: nat, offset: nat)
    requires blockSize > 0 && sectorSize > 0 && c > 0 && offset < blockSize
    requires blockSize == c * sectorSize || sectorSize == c * blockSize
    ensures var a := BlockToDevice(blockSize, sectorSize, bno, offset);
      a.offset < sectorSize && Flat(a, sectorSize) == Mul(bno, blockSize) + offset
  {
    if blockSize == c * sectorSize {
      LargeBlocks(blockSize, sectorSize, c, bno, offset);
    } else {
      SmallBlocks(blockSize, sectorSize, c, bno, offset);
    }
  }

  lemma MulAtLeast(c: nat, x: nat)
    requires c > 0
    ensures c * x >= x
    ensures c > 1 && x > 0 ==> c * x > x
  {
    Distribute(c - 1, 1, x);
    assert c > 1 && x > 0 ==> (c - 1) * x > 0;
  }

  lemma LargeBlocks(blockSize: nat, sectorSize: nat, c: nat, bno: nat, offset: nat)
    requires sectorSize > 0 && c > 0 && blockSize == c * sectorSize
    ensures blockSize >= sectorSize
    ensures var a := BlockToDevice(blockSize, sectorSize, bno, offset);
      a.offset < sectorSize && Flat(a, sectorSize) == Mul(bno, blockSize) + offset
  {
    MulAtLeast(c, sectorSize);
    DivModUnique(blockSize, sectorSize, c, 0);
    Associate(bno, c, sectorSize);
    Distribute(bno * c, offset / sectorSize, sectorSize);
  }

  lemma SmallBlocks(blockSize: nat, sectorSize: nat, c: nat, bno: nat, offset: nat)
    requires blockSize > 0 && c > 0 && sectorSize == c * blockSize && offset < blockSize
    ensures var a := BlockToDevice(blockSize, sectorSize, bno, offset);
      a.offset < sectorSize && Flat(a, sectorSize) == Mul(bno, blockSize) + offset
  {
    if c == 1 {
      assert sectorSize == 1 * blockSize;
      assert blockSize == 1 * sectorSize;
      LargeBlocks(blockSize, sectorSize, 1, bno, offset);
    } else {
      MulAtLeast(c, blockSize);
      DivModUnique(sectorSize, blockSize, c, 0);
      var q, r := bno / c, bno % c;
      Associate(q, c, blockSize);
      Distribute(q * c, r, blockSize);
      Multiples(r, c, blockSize);
    }
  }

  /** Where `get_inode` reads inode `no`, given the first block of each group's inode table. */
  function InodeAddress(blockSize: nat, sectorSize: nat, inodeSize: nat, perGroup: nat, tables: seq<nat>, no: nat): Address
    requires blockSize > 0 && sectorSize > 0 && perGroup > 0 && 0 < no
    requires Div(no - 1, perGroup) < |tables|
  {
    RecordAddress(blockSize, sectorSize, tables[Div(no - 1, perGroup)], Mul(Mod(no - 1, perGroup), inodeSize))
  }

  /** It is the record with the inode's index in the table of the inode's group. */
  lemma InodeLocated(
    blockSize: nat, sectorSize: nat, c: nat, inodeSize: nat, perGroup: nat, tables: seq<nat>, group: nat, index: nat)
    requires blockSize > 0 && sectorSize > 0 && c > 0 && index < perGroup && group < |tables|
    requires blockSize == c * sectorSize || sectorSize == c * blockSize
    ensures var no := Mul(group, perGroup) + index + 1;
      && Div(no - 1, perGroup) == group
      && var a := InodeAddress(blockSize, sectorSize, inodeSize, perGroup, tables, no);
         a.offset < sectorSize && Flat(a, sectorSize) == Mul(tables[group], blockSize) + Mul(index, inodeSize)
  {
    var no := Mul(group, perGroup) + index + 1;
    InGroup(perGroup, group, index);
    RecordLocated(blockSize, sectorSize, c, tables[group], Mul(index, inodeSize));
    assert InodeAddress(blockSize, sectorSize, inodeSize, perGroup, tables, no)
      == RecordAddress(blockSize, sectorSize, tables[group], Mul(index, inodeSize));
  }

  lemma InGroup(perGroup: nat, group: nat, index: nat)
    requires index < perGroup
    ensures Div(Mul(group, perGroup) + index, perGroup) == group && Mod(Mul(group, perGroup) + index, perGroup) == index
  {
    DivModUnique(group * perGroup + index, perGroup, group, index);
  }

  /** Byte `at` of what starts at block `table`. */
  function RecordAddress(blockSize: nat, sectorSize: nat, table: nat, at: nat): Address
    requires blockSize > 0 && sectorSize > 0
  {
    BlockToDevice(blockSize, sectorSize, table + Div(at, blockSize), Mod(at, blockSize))
  }

  lemma RecordLocated(blockSize: nat, sectorSize: nat, c: nat, table: nat, at: nat)
    requires blockSize > 0 && sectorSize > 0 && c > 0
    requires blockSize == c * sectorSize || sectorSize == c * blockSize
    ensures var a := RecordAddress(blockSize, sectorSize, table, at);
      a.offset < sectorSize && Flat(a, sectorSize) == Mul(table, blockSize) + at
  {
    DivModBack(at, blockSize);
    BlockAddressExact(blockSize, sectorSize, c, table + Div(at, blockSize), Mod(at, blockSize));
    MulDistribute(table, Div(at, blockSize), blockSize);
  }

  /** `get_inode`: the record of inode `index` of a group arrives in the buffer. */
  method GetInode<T>(
    dev: BlockDevice<T>, blockSize: nat, inodeSize: nat, perGroup: nat, tables: seq<nat>, no: nat, buf: array<T>,
    ghost c: nat, ghost group: nat, ghost index: nat)
    requires dev.Valid() && blockSize > 0 && c > 0 && (blockSize == c * dev.size || dev.size == c * blockSize)
    requires index < perGroup && group < |tables| && no == Mul(group, perGroup) + index + 1
    requires inodeSize <= buf.Length && buf != dev.readBuf
    requires dev.WholeSectors() && Mul(tables[group], blockSize) + Mul(index, inodeSize) + inodeSize <= |dev.bytes|
    modifies buf, dev.readBuf
    ensures var at := Mul(tables[group], blockSize) + Mul(index, inodeSize);
      buf[..inodeSize] == dev.bytes[at..at + inodeSize]
    ensures buf[inodeSize..] == old(buf[inodeSize..])
  {
    InodeLocated(blockSize, dev.size, c, inodeSize, perGroup, tables, group, index);
    var a := InodeAddress(blockSize, dev.size, inodeSize, perGroup, tables, no);
    dev.Read(a.sector, a.offset, buf, inodeSize);
  }
}
