/**
 `krypto.c`: the same three stages over two pipes. A step is one attempt at a `read` or a
 `write`; the work on private pages in between belongs to the step before it. A pipe end
 counts as closed once its process has finished.
 */
module Krypto {
  import opened Common
  import opened XorKey
  import opened Chunks
  import CB = CircBuffer
  import P = PipeModel

  const PIPE_BUF_SIZE: nat := 4096

  datatype ReaderPc = Fetch | Push(buf: seq<byte>) | ReaderDone
  datatype EncryptPc = Pull | Pass(buf: seq<byte>) | EncryptDone
  datatype WriterPc = Take | WriterDone

  datatype State = State(
    r: ReaderPc, pos: nat,
    plain: seq<byte>,
    e: EncryptPc, key: nat,
    cipher: seq<byte>,
    w: WriterPc,
    out: seq<byte>)

  datatype Stage = TheReader | TheEncrypt | TheWriter

  function Init(): State {
    State(Fetch, 0, [], Pull, 0, [], Take, [])
  }

  /** A `read` waits on an empty pipe that is still open, a `write` on a full one. */
  predicate Enabled(s: State, p: Stage) {
    match p
    case TheReader => !s.r.ReaderDone? && (s.r.Push? ==> |s.plain| != PIPE_BUF_SIZE)
    case TheEncrypt =>
      !s.e.EncryptDone? && (s.e.Pull? ==> s.plain != [] || s.r.ReaderDone?) && (s.e.Pass? ==> |s.cipher| != PIPE_BUF_SIZE)
    case TheWriter => !s.w.WriterDone? && (s.cipher != [] || s.e.EncryptDone?)
  }

  /** `write` to a pipe, in one turn as the data is at most a page. */
  function Stored(pipe: seq<byte>, data: seq<byte>): seq<byte> {
    CB.Last(PIPE_BUF_SIZE, pipe + data)
  }

  function ReaderStep(s: State, f: seq<byte>): State
    requires Enabled(s, TheReader) && s.pos <= |f|
  {
    match s.r
    case Fetch =>
      var n := Min(PAGE_SIZE, |f| - s.pos);
      if n > 0 then s.(r := Push(f[s.pos..s.pos + n]), pos := s.pos + n) else s.(r := ReaderDone)
    case Push(buf) => s.(r := Fetch, plain := Stored(s.plain, buf))
  }

  function EncryptStep(s: State, key: Key): State
    requires Enabled(s, TheEncrypt)
  {
    match s.e
    case Pull =>
      if s.plain == [] then s.(e := EncryptDone)
      else
        var n := Min(PAGE_SIZE, |s.plain|);
        s.(e := Pass(XorAll(key, s.key, s.plain[..n])), key := (s.key + n) % KEY_LEN, plain := s.plain[n..])
    case Pass(buf) => s.(e := Pull, cipher := Stored(s.cipher, buf))
  }

  function WriterStep(s: State): State
    requires Enabled(s, TheWriter)
  {
    if s.cipher == [] then s.(w := WriterDone)
    else
      var n := Min(PAGE_SIZE, |s.cipher|);
      s.(out := s.out + s.cipher[..n], cipher := s.cipher[n..])
  }

  function Step(s: State, key: Key, f: seq<byte>, p: Stage): State
    requires Enabled(s, p) && s.pos <= |f|
  {
    match p
    case TheReader => ReaderStep(s, f)
    case TheEncrypt => EncryptStep(s, key)
    case TheWriter => WriterStep(s)
  }

  /** The steps wait, store and take as the attempts of `PipeModel` do on a pipe whose ends are in use. */
  lemma PipesAgree(p: P.Pipe, pid: nat, data: seq<byte>)
    requires p.rrefs > 0 && |p.buf| <= PIPE_BUF_SIZE && 0 < |data| <= PAGE_SIZE
    ensures P.WriteBlocks(p) <==> |p.buf| == PIPE_BUF_SIZE
    ensures !P.WriteBlocks(p) ==> P.TryWrite(p, pid, data, 0).buf == Stored(p.buf, data)
    ensures P.ReadBlocks(p) <==> p.buf == [] && p.wrefs > 0
    ensures !P.ReadBlocks(p) ==>
      var n := Min(PAGE_SIZE, |p.buf|);
      var t := P.TryRead(p, pid, PAGE_SIZE);
      t.buf == p.buf[n..] && t.got == p.got + p.buf[..n]
  {
    assert P.Stored(data, 0) == data;
  }

  // ---- the loop over the key ------------------------------------------------------------------------

  function XorAll(key: Key, k: nat, b: seq<byte>): (c: seq<byte>)
    ensures |c| == |b|
  {
    seq(|b|, i requires 0 <= i < |b| => b[i] ^ key[(k + i) % KEY_LEN])
  }

  /** The inner loop of `encrypt`, on its page. */
  method XorInPlace(key: Key, buf: array<byte>, n: nat, keyIdx: nat) returns (keyIdx': nat)
    requires n <= buf.Length && keyIdx < KEY_LEN
    modifies buf
    ensures buf[..n] == XorAll(key, keyIdx, old(buf[..n])) && buf[n..] == old(buf[n..])
    ensures keyIdx' == (keyIdx + n) % KEY_LEN
  {
    keyIdx' := keyIdx;
    var i := 0;
    while i < n
      invariant 0 <= i <= n && keyIdx' == (keyIdx + i) % KEY_LEN
      invariant forall j :: 0 <= j < i ==> buf[j] == old(buf[j]) ^ key[(keyIdx + j) % KEY_LEN]
      invariant forall j :: i <= j < buf.Length ==> buf[j] == old(buf[j])
    {
      buf[i] := buf[i] ^ key[keyIdx'];
      i, keyIdx' := i + 1, (keyIdx' + 1) % KEY_LEN;
    }
  }

  // ---- the invariant ----------------------------------------------------------------------------------

  /** Chunk `c` of a file and the chunks before it. */
  ghost predicate Whole(b: seq<byte>, f: seq<byte>, c: nat) {
    PAGE_SIZE * c < |f| && b == Chunk(f, c)
  }

  /**
   The stages are at most one chunk apart: `w` chunks are out, `x` have left the encrypter,
   `e` have been taken by it and `r` have entered the first pipe.
   */
  ghost predicate InvAt(s: State, key: Key, f: seq<byte>, r: nat, e: nat, x: nat, w: nat) {
    var g := Cipher(key, f);
    && w <= x <= e <= r && x - w <= 1 && e - x <= 1 && r - e <= 1
    && PAGE_SIZE * r <= |f| + PAGE_SIZE - 1
    && (if s.r.Push? then Whole(s.r.buf, f, r) && s.pos == PAGE_SIZE * r + |s.r.buf| else s.pos == Min(PAGE_SIZE * r, |f|))
    && (if e < r then Whole(s.plain, f, e) else s.plain == [])
    && (s.e.Pass? <==> x < e)
    && (s.e.Pass? ==> Whole(s.e.buf, g, x))
    && (PAGE_SIZE * e < |f| ==> s.key == PAGE_SIZE * e % KEY_LEN)
    && (if w < x then Whole(s.cipher, g, w) else s.cipher == [])
    && s.out == g[..Min(PAGE_SIZE * w, |f|)]
    && (s.r.ReaderDone? ==> s.pos == |f|)
    && (s.e.EncryptDone? ==> s.r.ReaderDone? && e == r)
    && (s.w.WriterDone? ==> s.e.EncryptDone? && w == x)
  }

  ghost predicate Inv(s: State, key: Key, f: seq<byte>) {
    s.pos <= |f| && exists r: nat, e: nat, x: nat, w: nat :: InvAt(s, key, f, r, e, x, w)
  }

  lemma InitInv(key: Key, f: seq<byte>)
    ensures Inv(Init(), key, f)
  {
    assert InvAt(Init(), key, f, 0, 0, 0, 0);
  }

  /** A chunk goes into an empty pipe, which it fits: a pipe that holds one is full, or that one is the last. */
  lemma StoredWhole(b: seq<byte>)
    requires |b| <= PIPE_BUF_SIZE
    ensures Stored([], b) == b
  {
    assert [] + b == b;
  }

  lemma ReaderInv(s: State, key: Key, f: seq<byte>, r: nat, e: nat, x: nat, w: nat)
    requires InvAt(s, key, f, r, e, x, w) && s.pos <= |f| && Enabled(s, TheReader)
    ensures Inv(ReaderStep(s, f), key, f)
  {
    if s.r.Push? {
      StoredWhole(s.r.buf);
      assert e == r;
      assert InvAt(ReaderStep(s, f), key, f, r + 1, e, x, w);
    } else {
      assert InvAt(ReaderStep(s, f), key, f, r, e, x, w);
    }
  }

  /** A chunk under the key, when the key index is that of its first byte. */
  lemma CipherChunk(key: Key, f: seq<byte>, c: nat, k: nat)
    requires PAGE_SIZE * c < |f| && k == PAGE_SIZE * c % KEY_LEN
    ensures XorAll(key, k, Chunk(f, c)) == Chunk(Cipher(key, f), c)
  {
    var a, b := XorAll(key, k, Chunk(f, c)), Chunk(Cipher(key, f), c);
    forall i: nat | i < |a| ensures a[i] == b[i] {
      CipherChunkAt(key, f, c, k, i);
    }
  }

  lemma CipherChunkAt(key: Key, f: seq<byte>, c: nat, k: nat, i: nat)
    requires PAGE_SIZE * c < |f| && k == PAGE_SIZE * c % KEY_LEN && i < ChunkLen(|f|, c)
    ensures XorAll(key, k, Chunk(f, c))[i] == Chunk(Cipher(key, f), c)[i]
  {
    var o := PAGE_SIZE * c + i;
    SameKey(PAGE_SIZE * c, i);
    assert Chunk(f, c)[i] == f[o];
    XorAllAt(key, k, Chunk(f, c), i, o);
    assert Chunk(Cipher(key, f), c)[i] == Cipher(key, f)[o];
  }

  lemma SameKey(o: nat, i: nat)
    ensures (o % KEY_LEN + i) % KEY_LEN == (o + i) % KEY_LEN
  {
  }

  lemma XorAllAt(key: Key, k: nat, b: seq<byte>, i: nat, o: nat)
    requires i < |b| && (k + i) % KEY_LEN == o % KEY_LEN
    ensures XorAll(key, k, b)[i] == CipherByte(key, b[i], o)
  {
  }

  lemma PullInv(s: State, key: Key, f: seq<byte>, r: nat, e: nat, x: nat, w: nat)
    requires InvAt(s, key, f, r, e, x, w) && s.e.Pull? && Enabled(s, TheEncrypt) && s.plain != []
    ensures InvAt(EncryptStep(s, key), key, f, r, e + 1, x, w)
  {
    var t := EncryptStep(s, key);
    assert t.e == Pass(Chunk(Cipher(key, f), e)) && t.plain == [] by {
      assert s.plain[..|s.plain|] == s.plain;
      CipherChunk(key, f, e, s.key);
    }
    NextKey(|f|, e, s.key);
  }

  lemma NextKey(size: nat, e: nat, k: nat)
    requires PAGE_SIZE * e < size && k == PAGE_SIZE * e % KEY_LEN
    ensures PAGE_SIZE * (e + 1) < size ==> (k + ChunkLen(size, e)) % KEY_LEN == PAGE_SIZE * (e + 1) % KEY_LEN
  {
  }

  lemma PassInv(s: State, key: Key, f: seq<byte>, r: nat, e: nat, x: nat, w: nat)
    requires InvAt(s, key, f, r, e, x, w) && s.e.Pass? && Enabled(s, TheEncrypt)
    ensures InvAt(EncryptStep(s, key), key, f, r, e, x + 1, w)
  {
    StoredWhole(s.e.buf);
    assert w == x;
  }

  lemma EncryptInv(s: State, key: Key, f: seq<byte>, r: nat, e: nat, x: nat, w: nat)
    requires InvAt(s, key, f, r, e, x, w) && s.pos <= |f| && Enabled(s, TheEncrypt)
    ensures Inv(EncryptStep(s, key), key, f)
  {
    if s.e.Pass? {
      PassInv(s, key, f, r, e, x, w);
    } else if s.plain != [] {
      PullInv(s, key, f, r, e, x, w);
    } else {
      assert InvAt(EncryptStep(s, key), key, f, r, e, x, w);
    }
  }

  lemma WriterInv(s: State, key: Key, f: seq<byte>, r: nat, e: nat, x: nat, w: nat)
    requires InvAt(s, key, f, r, e, x, w) && s.pos <= |f| && Enabled(s, TheWriter)
    ensures Inv(WriterStep(s), key, f)
  {
    var t := WriterStep(s);
    if s.cipher == [] {
      assert InvAt(t, key, f, r, e, x, w);
    } else {
      var g := Cipher(key, f);
      assert s.cipher[..|s.cipher|] == s.cipher;
      assert t.out == g[..Min(PAGE_SIZE * (w + 1), |f|)];
      assert InvAt(t, key, f, r, e, x, w + 1);
    }
  }

  lemma StepInv(s: State, key: Key, f: seq<byte>, p: Stage)
    requires Inv(s, key, f) && Enabled(s, p)
    ensures Inv(Step(s, key, f, p), key, f)
  {
    var r: nat, e: nat, x: nat, w: nat :| InvAt(s, key, f, r, e, x, w);
    match p {
      case TheReader => ReaderInv(s, key, f, r, e, x, w);
      case TheEncrypt => EncryptInv(s, key, f, r, e, x, w);
      case TheWriter => WriterInv(s, key, f, r, e, x, w);
    }
  }

  // ---- runs -------------------------------------------------------------------------------------------

  predicate Finished(s: State) {
    s.r.ReaderDone? && s.e.EncryptDone? && s.w.WriterDone?
  }

  /** When a close wakes those who wait, stages only wait for each other as long as one of them can go on. */
  lemma NoDeadlock(s: State, key: Key, f: seq<byte>)
    requires Inv(s, key, f)
    ensures Finished(s) <==> forall p :: !Enabled(s, p)
  {
    if !Finished(s) && !Enabled(s, TheReader) && !Enabled(s, TheEncrypt) {
      assert Enabled(s, TheWriter);
    }
  }

  /** A stage can move bytes; it may also wait at an empty pipe whose writer has finished. */
  predicate CanMove(s: State, p: Stage) {
    match p
    case TheReader => Enabled(s, TheReader)
    case TheEncrypt => Enabled(s, TheEncrypt) && (s.e.Pull? ==> s.plain != [])
    case TheWriter => Enabled(s, TheWriter) && s.cipher != []
  }

  /** Whether or not a close wakes anybody: when nothing can move, everything has been put out. */
  lemma NothingMoves(s: State, key: Key, f: seq<byte>)
    requires Inv(s, key, f) && forall p :: !CanMove(s, p)
    ensures s.out == Cipher(key, f) && s.r.ReaderDone? && s.plain == [] && s.cipher == [] && !s.e.Pass?
  {
    var r: nat, e: nat, x: nat, w: nat :| InvAt(s, key, f, r, e, x, w);
    assert !CanMove(s, TheWriter) && !CanMove(s, TheEncrypt) && !CanMove(s, TheReader);
    assert s.cipher == [];
    assert s.plain == [];
  }

  /** Bytes weigh less the further they have come; a stage that has not finished weighs one. */
  function Work(s: State, size: nat): int {
    6 * (size - s.pos)
      + (if s.r.Push? then 5 * |s.r.buf| else 0) + 4 * |s.plain|
      + (if s.e.Pass? then 3 * |s.e.buf| else 0) + 2 * |s.cipher|
      + (if s.r.ReaderDone? then 0 else 1) + (if s.e.EncryptDone? then 0 else 1) + (if s.w.WriterDone? then 0 else 1)
  }

  lemma ReaderWorkFalls(s: State, f: seq<byte>)
    requires s.pos <= |f| && Enabled(s, TheReader)
    requires s.r.Push? ==> s.plain == [] && 0 < |s.r.buf| <= PAGE_SIZE
    ensures Work(ReaderStep(s, f), |f|) < Work(s, |f|)
  {
    if s.r.Push? {
      StoredWhole(s.r.buf);
    }
  }

  lemma EncryptWorkFalls(s: State, key: Key, size: nat)
    requires Enabled(s, TheEncrypt)
    requires s.e.Pass? ==> s.cipher == [] && 0 < |s.e.buf| <= PAGE_SIZE
    ensures Work(EncryptStep(s, key), size) < Work(s, size)
  {
    if s.e.Pass? {
      StoredWhole(s.e.buf);
    }
  }

  lemma WorkFalls(s: State, key: Key, f: seq<byte>, p: Stage)
    requires Inv(s, key, f) && Enabled(s, p)
    ensures Work(Step(s, key, f, p), |f|) < Work(s, |f|)
  {
    var r: nat, e: nat, x: nat, w: nat :| InvAt(s, key, f, r, e, x, w);
    match p {
      case TheReader => ReaderWorkFalls(s, f);
      case TheEncrypt => EncryptWorkFalls(s, key, |f|);
      case TheWriter =>
    }
  }

  ghost predicate StepsTo(s: State, key: Key, f: seq<byte>, p: Stage, t: State) {
    s.pos <= |f| && Enabled(s, p) && t == Step(s, key, f, p)
  }

  ghost predicate IsRun(run: seq<State>, ps: seq<Stage>, key: Key, f: seq<byte>) {
    && |run| == |ps| + 1 && run[0] == Init()
    && forall i :: 0 <= i < |ps| ==> StepsTo(run[i], key, f, ps[i], run[i + 1])
  }

  lemma {:induction false} RunInv(run: seq<State>, ps: seq<Stage>, key: Key, f: seq<byte>, i: nat)
    requires IsRun(run, ps, key, f) && i < |run|
    ensures Inv(run[i], key, f) && i + Work(run[i], |f|) <= 6 * |f| + 3
  {
    if i == 0 {
      InitInv(key, f);
    } else {
      RunInv(run, ps, key, f, i - 1);
      assert StepsTo(run[i - 1], key, f, ps[i - 1], run[i]);
      StepInv(run[i - 1], key, f, ps[i - 1]);
      WorkFalls(run[i - 1], key, f, ps[i - 1]);
    }
  }

  /** Every run ends. */
  lemma RunEnds(run: seq<State>, ps: seq<Stage>, key: Key, f: seq<byte>)
    requires IsRun(run, ps, key, f)
    ensures |ps| <= 6 * |f| + 3
  {
    RunInv(run, ps, key, f, |ps|);
  }

  /**
   In every interleaving the bytes put out are the beginning of the file under the key; when
   nothing can move any more they are all of it, and when no stage can go on all have finished.
   */
  lemma RunOutput(run: seq<State>, ps: seq<Stage>, key: Key, f: seq<byte>, i: nat)
    requires IsRun(run, ps, key, f) && i < |run|
    ensures run[i].out <= Cipher(key, f)
    ensures (forall p :: !CanMove(run[i], p)) ==> run[i].out == Cipher(key, f)
    ensures (forall p :: !Enabled(run[i], p)) ==> run[i].out == Cipher(key, f) && Finished(run[i])
  {
    RunInv(run, ps, key, f, i);
    if forall p :: !CanMove(run[i], p) {
      NothingMoves(run[i], key, f);
    }
    if forall p :: !Enabled(run[i], p) {
      NoDeadlock(run[i], key, f);
    }
  }
}
