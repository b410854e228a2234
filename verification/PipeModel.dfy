/**
 One pipe of `pipe.c` on values, between the points where a process can block. A process
 that is woken tries again, so a blocking call is a sequence of attempts. `sent` and `got`
 record what callers asked to write and what they have read.
 */
module PipeModel {
  import opened Common
  import CB = CircBuffer

  const CAP: nat := 4096
  const TWO_32: nat := 0x1_0000_0000

  datatype End = ReadEnd | WriteEnd

  datatype Pipe = Pipe(
    buf: seq<byte>,
    rrefs: nat, wrefs: nat,
    rwait: seq<nat>, wwait: seq<nat>,
    sent: seq<byte>, got: seq<byte>,
    open: bool)

  function Refs(s: Pipe, e: End): nat {
    if e.ReadEnd? then s.rrefs else s.wrefs
  }

  function Waiters(s: Pipe, e: End): seq<nat> {
    if e.ReadEnd? then s.rwait else s.wwait
  }

  function Other(e: End): End {
    if e.ReadEnd? then WriteEnd else ReadEnd
  }

  function SetRefs(s: Pipe, e: End, n: nat): Pipe {
    if e.ReadEnd? then s.(rrefs := n) else s.(wrefs := n)
  }

  /** `loader_unqueue_all` on the queue of an end. */
  function WakeAll(s: Pipe, e: End): Pipe {
    if e.ReadEnd? then s.(rwait := []) else s.(wwait := [])
  }

  function Enqueue(s: Pipe, e: End, pid: nat): Pipe {
    if e.ReadEnd? then s.(rwait := s.rwait + [pid]) else s.(wwait := s.wwait + [pid])
  }

  /** After `pipe_open`. */
  function Opened(): Pipe {
    Pipe([], 1, 1, [], [], [], [], true)
  }

  // ---- attempts ---------------------------------------------------------------------------------

  predicate ReadBlocks(s: Pipe) {
    s.buf == [] && s.wrefs > 0
  }

  /** One attempt of `pipe_read`. */
  function TryRead(s: Pipe, pid: nat, size: nat): Pipe {
    if ReadBlocks(s) then Enqueue(s, ReadEnd, pid)
    else
      var t := if s.wrefs > 0 then WakeAll(s, WriteEnd) else s;
      var n := Min(size, |s.buf|);
      t.(buf := s.buf[n..], got := s.got + s.buf[..n])
  }

  predicate WriteBlocks(s: Pipe) {
    |s.buf| == CAP && s.rrefs > 0
  }

  /** The bytes that an iteration of `pipe_write` stores: the pointer into the data never moves. */
  function Stored(data: seq<byte>, result: nat): seq<byte>
    requires result <= |data|
  {
    data[..Min(|data| - result, CAP)]
  }

  /** The bytes that it ought to store. */
  function Due(data: seq<byte>, result: nat): seq<byte>
    requires result <= |data|
  {
    data[result..result + Min(|data| - result, CAP)]
  }

  /** One attempt of `pipe_write`, which has dealt with `result` bytes of its data. */
  function TryWrite(s: Pipe, pid: nat, data: seq<byte>, result: nat): Pipe
    requires result < |data|
  {
    if WriteBlocks(s) then Enqueue(s, WriteEnd, pid)
    else if s.rrefs == 0 then s
    else WakeAll(s, ReadEnd).(buf := CB.Last(CAP, s.buf + Stored(data, result)), sent := s.sent + Due(data, result))
  }

  /**
   `pipe_flush`: one reference to an end is given up. The last one of an end wakes the other
   end, and the last one of both returns the pipe to the free lists.
   */
  function Flush(s: Pipe, e: End): Pipe {
    if Refs(s, e) == 0 then s
    else
      var t := SetRefs(s, e, Refs(s, e) - 1);
      if Refs(t, e) > 0 then t
      else if Refs(t, Other(e)) == 0 then t.(open := false)
      else WakeAll(t, Other(e))
  }

  /** What `sys_close` does with it: it counts down itself, and then calls `pipe_flush`. */
  function SysClose(s: Pipe, e: End): Pipe {
    var t := SetRefs(s, e, (Refs(s, e) - 1) % TWO_32);
    if Refs(t, e) > 0 then t else Flush(t, e)
  }

  /** A forked process has a reference to every open end of its parent. */
  function Dup(s: Pipe, e: End): Pipe {
    SetRefs(s, e, Refs(s, e) + 1)
  }

  /** A read that does not wait delivers as many bytes as were asked for or are there, from the front. */
  lemma ReadDelivers(s: Pipe, pid: nat, size: nat)
    requires !ReadBlocks(s)
    ensures var t := TryRead(s, pid, size); var n := if size < |s.buf| then size else |s.buf|;
      && t.got == s.got + s.buf[..n] && t.buf == s.buf[n..]
      && |t.got| == |s.got| + Min(size, |s.buf|)
  {
  }

  /** A turn of a write that goes through stores the first bytes of the data, as many as are left or fit the buffer at all. */
  lemma WriteStores(s: Pipe, pid: nat, data: seq<byte>, result: nat)
    requires |s.buf| <= CAP && result < |data| && !WriteBlocks(s) && s.rrefs > 0
    ensures var n := if |data| - result < CAP then |data| - result else CAP;
      && |Stored(data, result)| == n
      && (|s.buf| + n <= CAP ==> TryWrite(s, pid, data, result).buf == s.buf + data[..n])
      && (|s.buf| + n > CAP ==> TryWrite(s, pid, data, result).buf == s.buf[|s.buf| + n - CAP..] + data[..n])
      && TryWrite(s, pid, data, result).sent == s.sent + data[result..result + n]
  {
  }

  /** Closing undoes what fork does to an end. */
  lemma ForkThenClose(s: Pipe, e: End)
    requires Refs(s, e) > 0
    ensures Flush(Dup(s, e), e) == s
  {
  }

  // ---- no lost wake-up ----------------------------------------------------------------------------

  /**
   Who waits has a reason: a reader, that the pipe is empty and can still be written; a
   writer, that it is full and can still be read. Each waiting process has a reference.
   */
  ghost predicate Inv(s: Pipe) {
    && |s.buf| <= CAP
    && (s.rwait != [] ==> ReadBlocks(s))
    && (s.wwait != [] ==> WriteBlocks(s))
    && |s.rwait| <= s.rrefs && |s.wwait| <= s.wrefs
    && (s.open <==> s.rrefs > 0 || s.wrefs > 0)
  }

  datatype Op =
    | Read(pid: nat, size: nat)
    | Write(pid: nat, data: seq<byte>, result: nat)
    | Close(e: End)
    | Fork(e: End)

  /** The process that calls has a reference, and it is not one of those that wait. */
  ghost predicate Legal(s: Pipe, op: Op) {
    match op
    case Read(pid, _) => s.rrefs > |s.rwait| && pid !in s.rwait
    case Write(pid, data, result) => s.wrefs > |s.wwait| && pid !in s.wwait && result < |data|
    case Close(e) => Refs(s, e) > |Waiters(s, e)|
    case Fork(e) => Refs(s, e) > 0
  }

  function Step(s: Pipe, op: Op): Pipe
    requires op.Write? ==> op.result < |op.data|
  {
    match op
    case Read(pid, size) => TryRead(s, pid, size)
    case Write(pid, data, result) => TryWrite(s, pid, data, result)
    case Close(e) => Flush(s, e)
    case Fork(e) => Dup(s, e)
  }

  lemma StepInv(s: Pipe, op: Op)
    requires Inv(s) && Legal(s, op)
    ensures Inv(Step(s, op))
  {
  }

  ghost predicate StepsTo(s: Pipe, op: Op, t: Pipe) {
    Legal(s, op) && t == Step(s, op)
  }

  ghost predicate IsRun(run: seq<Pipe>, ops: seq<Op>) {
    && |run| == |ops| + 1
    && forall i :: 0 <= i < |ops| ==> StepsTo(run[i], ops[i], run[i + 1])
  }

  /** In every reachable state nobody waits without a reason. */
  lemma {:induction false} RunInv(run: seq<Pipe>, ops: seq<Op>, i: nat)
    requires IsRun(run, ops) && run[0] == Opened() && i < |run|
    ensures Inv(run[i])
  {
    if i > 0 {
      RunInv(run, ops, i - 1);
      assert StepsTo(run[i - 1], ops[i - 1], run[i]);
      StepInv(run[i - 1], ops[i - 1]);
    }
  }

  // ---- first in, first out ------------------------------------------------------------------------

  ghost predicate Lossless(s: Pipe) {
    s.got + s.buf == s.sent
  }

  /** What the write stores are the bytes that are due, and they fit. A blocked attempt stores nothing. */
  ghost predicate Fits(s: Pipe, op: Op) {
    op.Write? && op.result < |op.data| && !WriteBlocks(s) && s.rrefs > 0 ==>
      && |s.buf| + |Stored(op.data, op.result)| <= CAP
      && Stored(op.data, op.result) == Due(op.data, op.result)
  }

  /** In terms of the data: nothing already buffered is pushed out, and the first bytes of the data are those that are due. */
  lemma FitsExactly(s: Pipe, pid: nat, data: seq<byte>, result: nat)
    requires result < |data|
    ensures var n := if |data| - result < CAP then |data| - result else CAP;
      Fits(s, Write(pid, data, result)) <==>
        WriteBlocks(s) || s.rrefs == 0 || (|s.buf| + n <= CAP && forall i :: 0 <= i < n ==> data[i] == data[result + i])
  {
    var n := if |data| - result < CAP then |data| - result else CAP;
    assert Stored(data, result) == data[..n] && Due(data, result) == data[result..result + n];
    if forall i :: 0 <= i < n ==> data[i] == data[result + i] {
      assert data[..n] == data[result..result + n];
    } else {
      var i :| 0 <= i < n && data[i] != data[result + i];
      assert data[..n][i] != data[result..result + n][i];
    }
  }

  /** Something has been lost for good: too few bytes, or a wrong one. */
  ghost predicate Differs(s: Pipe) {
    || |s.got| + |s.buf| < |s.sent|
    || (|s.got| + |s.buf| == |s.sent| && s.got + s.buf != s.sent)
  }

  lemma ReadKeeps(s: Pipe, pid: nat, size: nat)
    ensures TryRead(s, pid, size).got + TryRead(s, pid, size).buf == s.got + s.buf
    ensures TryRead(s, pid, size).sent == s.sent
  {
    if !ReadBlocks(s) {
      var n := Min(size, |s.buf|);
      assert s.buf == s.buf[..n] + s.buf[n..];
    }
  }

  /** A write that fits appends its bytes; any other loses some, or puts wrong ones in their place. */
  lemma WriteLossless(s: Pipe, pid: nat, data: seq<byte>, result: nat)
    requires |s.buf| <= CAP && result < |data|
    ensures Lossless(s) ==> (Lossless(TryWrite(s, pid, data, result)) <==> Fits(s, Write(pid, data, result)))
    ensures Lossless(s) && !Fits(s, Write(pid, data, result)) ==> Differs(TryWrite(s, pid, data, result))
  {
    if !WriteBlocks(s) && s.rrefs > 0 {
      var st, due := Stored(data, result), Due(data, result);
      var t := TryWrite(s, pid, data, result);
      if |s.buf| + |st| <= CAP {
        assert t.got + t.buf == s.got + s.buf + st;
        if Lossless(s) && t.got + t.buf == t.sent {
          assert (s.sent + st)[|s.sent|..] == st && (s.sent + due)[|s.sent|..] == due;
        }
      }
    }
  }

  lemma WriteStaysDifferent(s: Pipe, pid: nat, data: seq<byte>, result: nat)
    requires |s.buf| <= CAP && result < |data| && !WriteBlocks(s) && s.rrefs > 0 && Differs(s)
    ensures Differs(TryWrite(s, pid, data, result))
  {
    var st, due := Stored(data, result), Due(data, result);
    var t := TryWrite(s, pid, data, result);
    if |s.buf| + |st| <= CAP {
      assert t.got + t.buf == s.got + s.buf + st;
      assert (s.got + s.buf + st)[..|s.got + s.buf|] == s.got + s.buf;
      assert (s.sent + due)[..|s.sent|] == s.sent;
    }
  }

  /** What has been lost does not come back. */
  lemma StaysDifferent(s: Pipe, op: Op)
    requires |s.buf| <= CAP && Legal(s, op) && Differs(s)
    ensures Differs(Step(s, op)) && !Lossless(s)
  {
    match op {
      case Read(pid, size) => ReadKeeps(s, pid, size);
      case Write(pid, data, result) =>
        if !WriteBlocks(s) && s.rrefs > 0 {
          WriteStaysDifferent(s, pid, data, result);
        }
      case _ =>
    }
  }

  /**
   What was read and what is buffered are together what was written, at the end of a run,
   exactly when every write of the run fitted.
   */
  lemma {:induction false} RunLossless(run: seq<Pipe>, ops: seq<Op>, i: nat)
    requires IsRun(run, ops) && run[0] == Opened() && i < |run|
    ensures Lossless(run[i]) <==> forall j :: 0 <= j < i ==> Fits(run[j], ops[j])
    ensures !Lossless(run[i]) ==> Differs(run[i])
  {
    if i > 0 {
      var s, op := run[i - 1], ops[i - 1];
      RunLossless(run, ops, i - 1);
      RunInv(run, ops, i - 1);
      assert StepsTo(s, op, run[i]);
      if !Lossless(s) {
        StaysDifferent(s, op);
      } else {
        match op {
          case Read(pid, size) => ReadKeeps(s, pid, size);
          case Write(pid, data, result) => WriteLossless(s, pid, data, result);
          case _ =>
        }
      }
    }
  }

  /** A one-byte write, as the token pipes use, always fits. */
  lemma OneByteFits(s: Pipe, pid: nat, b: byte)
    requires |s.buf| <= CAP
    ensures Fits(s, Write(pid, [b], 0))
  {
  }

  /** So does a write of up to one page into an empty pipe. */
  lemma PageFits(s: Pipe, pid: nat, data: seq<byte>)
    requires s.buf == [] && 0 < |data| <= CAP
    ensures Fits(s, Write(pid, data, 0))
  {
  }

  // ---- closing by `sys_close` -----------------------------------------------------------------------

  /** It closes as `pipe_flush` does exactly while there is nothing left for `pipe_flush` to do. */
  lemma SysCloseExact(s: Pipe, e: End)
    requires Inv(s) && s.open && Refs(s, e) < TWO_32
    ensures SysClose(s, e) == Flush(s, e)
        <==> Refs(s, e) > 1 || (Refs(s, e) == 1 && Refs(s, Other(e)) > 0 && Waiters(s, Other(e)) == [])
  {
    if Refs(s, e) == 0 {
      assert (Refs(s, e) - 1) % TWO_32 == TWO_32 - 1;
    }
  }

  /** Readers that wait for a pipe that nobody can write any more. */
  ghost predicate Stranded(s: Pipe) {
    s.rwait != [] && s.buf == [] && s.wrefs == 0 && s.wwait == []
  }

  /** Closing the last write end while readers wait strands them. */
  lemma SysCloseStrands(s: Pipe)
    requires Inv(s) && s.wrefs == 1 && s.rwait != []
    ensures Stranded(SysClose(s, WriteEnd)) && Inv(Flush(s, WriteEnd)) && Flush(s, WriteEnd).rwait == []
  {
  }

  /** No run wakes them. */
  lemma {:induction false} StrandedForever(run: seq<Pipe>, ops: seq<Op>, i: nat)
    requires IsRun(run, ops) && Stranded(run[0]) && i < |run|
    ensures Stranded(run[i]) && run[i].rwait == run[0].rwait
  {
    if i > 0 {
      StrandedForever(run, ops, i - 1);
      assert StepsTo(run[i - 1], ops[i - 1], run[i]);
    }
  }
}
