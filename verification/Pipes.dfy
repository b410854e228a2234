/**
 `pipe.c` in place: the two device tables with their free lists, and the pair of devices
 that make one pipe, over its circular buffer.
 */
module Pipes {
  import opened Common
  import opened Links
  import CB = CircBuffer
  import M = PipeModel

  const MAX_PIPE_DEVS: nat := 32

  class PipeTable {
    const readers: Links
    const writers: Links
    var freeReaders: int
    var freeWriters: int
    ghost var free: seq<int>

    /** Reader `i` is free exactly when writer `i` is: both lists hold the same numbers, in the same order. */
    ghost predicate Valid()
      reads this, readers.next, readers.prev, writers.next, writers.prev
    {
      && readers.Valid() && writers.Valid()
      && readers.next.Length == MAX_PIPE_DEVS == writers.next.Length
      && readers.next != writers.next && readers.next != writers.prev
      && readers.prev != writers.next && readers.prev != writers.prev
      && readers.Is(freeReaders, free) && writers.Is(freeWriters, free)
    }

    ghost function Repr(): set<object> {
      {this, readers.next, readers.prev, writers.next, writers.prev}
    }

    /** `pipe_init`. */
    constructor ()
      ensures Valid() && fresh(Repr() - {this})
      ensures free == seq(MAX_PIPE_DEVS, i => i)
    {
      var r := new Links(MAX_PIPE_DEVS);
      var w := new Links(MAX_PIPE_DEVS);
      readers, writers := r, w;
      free := seq(MAX_PIPE_DEVS, i => i);
      new;
      freeReaders := readers.AllNodes();
      freeWriters := writers.AllNodes();
    }

    /** `pipe_open`: a reader and the writer with the same number, or `NIL` when none is left. */
    method Open() returns (pipe: int)
      requires Valid()
      modifies Repr()
      ensures Valid()
      ensures old(free) == [] ==> pipe == NIL && free == []
      ensures old(free) != [] ==> old(free) == [pipe] + free && pipe !in free
    {
      if freeReaders == NIL {
        return NIL;
      }
      freeReaders, pipe := readers.Pop(freeReaders, free);
      freeWriters := writers.Unlink(freeWriters, pipe, free, 0);
      assert Without(free, 0) == free[1..];
      free := free[1..];
    }

    /** The end of `pipe_flush` for a pipe both of whose ends are closed. */
    method Release(pipe: int)
      requires Valid() && 0 <= pipe < MAX_PIPE_DEVS && pipe !in free
      modifies Repr()
      ensures Valid() && free == old(free) + [pipe]
    {
      freeReaders := readers.Append(freeReaders, pipe, free);
      freeWriters := writers.Append(freeWriters, pipe, free);
      free := free + [pipe];
    }
  }

  class Pipe {
    const cbuf: CB.CircBuffer
    var readerRefs: nat
    var writerRefs: nat
    var readersWaiting: seq<nat>
    var writersWaiting: seq<nat>
    var open: bool
    ghost var sent: seq<byte>
    ghost var got: seq<byte>

    ghost predicate Valid()
      reads this, cbuf
    {
      cbuf.Valid() && cbuf.buf.Length == M.CAP
    }

    ghost function State(): M.Pipe
      reads this, cbuf, cbuf.buf
      requires Valid()
    {
      M.Pipe(cbuf.Contents(), readerRefs, writerRefs, readersWaiting, writersWaiting, sent, got, open)
    }

    /** What `pipe_open` makes of a pair of devices. */
    constructor ()
      ensures Valid() && State() == M.Opened() && fresh(cbuf) && fresh(cbuf.buf)
    {
      cbuf := new CB.CircBuffer(M.CAP);
      readerRefs, writerRefs := 1, 1;
      readersWaiting, writersWaiting := [], [];
      sent, got := [], [];
      open := true;
    }

    /** `pipe_read`, up to where it returns or blocks. */
    method TryRead(pid: nat, dst: array<byte>, size: nat) returns (blocked: bool, n: nat)
      requires Valid() && dst != cbuf.buf && size <= dst.Length
      modifies this, cbuf, dst
      ensures Valid() && State() == M.TryRead(old(State()), pid, size)
      ensures blocked == M.ReadBlocks(old(State()))
      ensures !blocked ==> n == Min(size, |old(cbuf.Contents())|) && dst[..n] == old(cbuf.Contents())[..n]
      ensures !blocked ==> got == old(got) + dst[..n] && cbuf.Contents() == old(cbuf.Contents())[n..]
      ensures blocked ==> readersWaiting == old(readersWaiting) + [pid] && cbuf.Contents() == old(cbuf.Contents())
    {
      n := 0;
      blocked := cbuf.remaining == 0 && writerRefs > 0;
      if blocked {
        readersWaiting := readersWaiting + [pid];
      } else {
        if writerRefs > 0 {
          writersWaiting := [];
        }
        n := cbuf.Read(dst, size);
        got := got + dst[..n];
      }
    }

    /** One turn of `pipe_write`, for data of which `result` bytes are dealt with; `done` for an early return. */
    method TryWrite(pid: nat, data: seq<byte>, result: nat) returns (blocked: bool, done: bool, result': nat)
      requires Valid() && result < |data|
      modifies this, cbuf, cbuf.buf
      ensures Valid() && State() == M.TryWrite(old(State()), pid, data, result)
      ensures blocked == M.WriteBlocks(old(State())) && done == (old(readerRefs) == 0)
      ensures result' == if blocked || done then result else result + Min(|data| - result, M.CAP)
      ensures blocked ==> writersWaiting == old(writersWaiting) + [pid]
      ensures !blocked && !done ==>
        cbuf.Contents() == CB.Last(M.CAP, old(cbuf.Contents()) + data[..Min(|data| - result, M.CAP)])
    {
      done, result' := readerRefs == 0, result;
      blocked := cbuf.remaining == M.CAP && readerRefs > 0;
      if blocked {
        writersWaiting := writersWaiting + [pid];
      } else if !done {
        readersWaiting := [];
        var n := cbuf.Write(data[..Min(|data| - result, M.CAP)]);
        result' := result + n;
        sent := sent + M.Due(data, result);
      }
    }

    /** `pipe_flush`; `released` when the pair goes back to the free lists. */
    method Flush(e: M.End) returns (released: bool)
      requires Valid()
      modifies this
      ensures Valid() && State() == M.Flush(old(State()), e)
      ensures released <==> M.Refs(old(State()), e) == 1 && M.Refs(old(State()), M.Other(e)) == 0
    {
      released := false;
      var refs := if e.ReadEnd? then readerRefs else writerRefs;
      if refs == 0 {
        return;
      }
      match e {
        case ReadEnd => readerRefs := refs - 1;
        case WriteEnd => writerRefs := refs - 1;
      }
      if refs == 1 {
        released := readerRefs == 0 && writerRefs == 0;
        if released {
          open := false;
        } else if e.ReadEnd? {
          writersWaiting := [];
        } else {
          readersWaiting := [];
        }
      }
    }
  }
}
