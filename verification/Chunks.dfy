/** A file as the programs read it: chunks of one page, of which the last may be shorter. */
module Chunks {
  import opened Common

  /** The length of chunk `c` of a file of `size` bytes. */
  function ChunkLen(size: nat, c: nat): nat {
    if PAGE_SIZE * c <= size then Min(PAGE_SIZE, size - PAGE_SIZE * c) else 0
  }

  function Chunk(f: seq<byte>, c: nat): (b: seq<byte>)
    requires PAGE_SIZE * c <= |f|
    ensures |b| == ChunkLen(|f|, c)
  {
    f[PAGE_SIZE * c..PAGE_SIZE * c + ChunkLen(|f|, c)]
  }

  /** The bytes of a file of `size` bytes that are not in its first `c` chunks. */
  function Rest(size: nat, c: nat): nat {
    if PAGE_SIZE * c <= size then size - PAGE_SIZE * c else 0
  }

  lemma NextChunk(size: nat, c: nat)
    ensures Rest(size, c) - ChunkLen(size, c) == Rest(size, c + 1)
    ensures Rest(size, c + 1) > 0 ==> ChunkLen(size, c) == PAGE_SIZE
  {
  }
}
