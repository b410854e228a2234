/**
 `krypto.c` with the wait queues of its pipes. A stage that reads an empty pipe is queued
 and only a write or a close can wake it. What a close does is left open: the work of
 `pipe_flush`, what the last `sys_close` does instead, or nothing, when another process
 still has a reference.
 */
module KryptoWaits {
  import opened Common
  import opened XorKey
  import K = Krypto

  /** Flushed: who waits is woken. Unflushed: the end is closed for those who come later. Held: it stays open. */
  datatype Close = Flushed | Unflushed | Held

  /** What the reader's and the encrypter's closes come to. */
  datatype Closes = Closes(r: Close, e: Close)

  const UNFLUSHED: Closes := Closes(Unflushed, Unflushed)

  /** `eq` and `wq` say whether the encrypter and the writer are queued. */
  datatype State = State(k: K.State, eq: bool, wq: bool)

  function Init(): State {
    State(K.Init(), false, false)
  }

  /** A `read` of an empty pipe whose write end is open, which is all it can be with `Held`. */
  predicate EncryptWaits(s: State, c: Closes) {
    s.k.e.Pull? && s.k.plain == [] && (c.r.Held? || !s.k.r.ReaderDone?)
  }

  predicate WriterWaits(s: State, c: Closes) {
    s.k.w.Take? && s.k.cipher == [] && (c.e.Held? || !s.k.e.EncryptDone?)
  }

  predicate Enabled(s: State, p: K.Stage) {
    match p
    case TheReader => K.Enabled(s.k, K.TheReader)
    case TheEncrypt => !s.eq && !s.k.e.EncryptDone? && (s.k.e.Pass? ==> |s.k.cipher| != K.PIPE_BUF_SIZE)
    case TheWriter => !s.wq && !s.k.w.WriterDone?
  }

  function Step(s: State, key: Key, f: seq<byte>, p: K.Stage, c: Closes): State
    requires Enabled(s, p) && s.k.pos <= |f|
  {
    match p
    case TheReader =>
      var t := K.ReaderStep(s.k, f);
      var woken := s.k.r.Push? || (t.r.ReaderDone? && c.r.Flushed?);
      s.(k := t, eq := s.eq && !woken)
    case TheEncrypt =>
      if EncryptWaits(s, c) then s.(eq := true)
      else
        var t := K.EncryptStep(s.k, key);
        var woken := s.k.e.Pass? || (t.e.EncryptDone? && c.e.Flushed?);
        s.(k := t, wq := s.wq && !woken)
    case TheWriter =>
      if WriterWaits(s, c) then s.(wq := true) else s.(k := K.WriterStep(s.k))
  }

  // ---- the invariant --------------------------------------------------------------------------------

  /** Who is queued has a reason, and a close that wakes leaves nobody queued. */
  ghost predicate Queued(s: State, c: Closes) {
    && (s.eq ==> s.k.e.Pull? && s.k.plain == [])
    && (s.wq ==> s.k.w.Take? && s.k.cipher == [])
    && (c.r.Flushed? && s.eq ==> !s.k.r.ReaderDone?)
    && (c.e.Flushed? && s.wq ==> !s.k.e.EncryptDone?)
    && (c.r.Held? ==> !s.k.e.EncryptDone?)
    && (c.e.Held? ==> !s.k.w.WriterDone?)
  }

  ghost predicate Inv(s: State, key: Key, f: seq<byte>, c: Closes) {
    K.Inv(s.k, key, f) && Queued(s, c)
  }

  lemma StepInv(s: State, key: Key, f: seq<byte>, p: K.Stage, c: Closes)
    requires Inv(s, key, f, c) && Enabled(s, p)
    ensures Inv(Step(s, key, f, p, c), key, f, c)
  {
    if K.Enabled(s.k, p) {
      K.StepInv(s.k, key, f, p);
    }
    QueuedStep(s, key, f, p, c);
  }

  lemma QueuedStep(s: State, key: Key, f: seq<byte>, p: K.Stage, c: Closes)
    requires Inv(s, key, f, c) && Enabled(s, p)
    ensures Queued(Step(s, key, f, p, c), c)
  {
    var r: nat, e: nat, x: nat, w: nat :| K.InvAt(s.k, key, f, r, e, x, w);
  }

  /** Where no stage can go on, nothing can move. */
  lemma StuckMovesNothing(s: State, key: Key, f: seq<byte>, c: Closes)
    requires Inv(s, key, f, c) && forall p :: !Enabled(s, p)
    ensures forall p :: !K.CanMove(s.k, p)
  {
    forall p ensures !K.CanMove(s.k, p) {
      assert !Enabled(s, p);
    }
  }

  /**
   Where no stage can go on, the whole file has been put out under the key, whatever closes
   do. All stages have finished exactly when nobody is left in a queue: always if closes do
   the work of `pipe_flush`, never if the ends are held open.
   */
  lemma Stuck(s: State, key: Key, f: seq<byte>, c: Closes)
    requires Inv(s, key, f, c) && forall p :: !Enabled(s, p)
    ensures s.k.out == Cipher(key, f)
    ensures K.Finished(s.k) <==> !s.eq && !s.wq
    ensures c.r.Flushed? && c.e.Flushed? ==> K.Finished(s.k)
    ensures c.r.Held? ==> s.eq
    ensures c.r.Held? || c.e.Held? ==> s.wq
  {
    StuckMovesNothing(s, key, f, c);
    K.NothingMoves(s.k, key, f);
    assert !Enabled(s, K.TheEncrypt) && !Enabled(s, K.TheWriter);
  }

  /** Waking up costs less than the step that wakes. */
  function Work(s: State, size: nat): int {
    2 * K.Work(s.k, size) + (if s.eq then 0 else 1) + (if s.wq then 0 else 1)
  }

  lemma WorkFalls(s: State, key: Key, f: seq<byte>, p: K.Stage, c: Closes)
    requires Inv(s, key, f, c) && Enabled(s, p)
    ensures Work(Step(s, key, f, p, c), |f|) < Work(s, |f|)
  {
    if K.Enabled(s.k, p) {
      K.WorkFalls(s.k, key, f, p);
    }
  }

  // ---- runs -----------------------------------------------------------------------------------------

  ghost predicate StepsTo(s: State, key: Key, f: seq<byte>, p: K.Stage, c: Closes, t: State) {
    s.k.pos <= |f| && Enabled(s, p) && t == Step(s, key, f, p, c)
  }

  ghost predicate IsRun(run: seq<State>, ps: seq<K.Stage>, key: Key, f: seq<byte>, c: Closes) {
    && |run| == |ps| + 1 && run[0] == Init()
    && forall i :: 0 <= i < |ps| ==> StepsTo(run[i], key, f, ps[i], c, run[i + 1])
  }

  lemma {:induction false} RunInv(run: seq<State>, ps: seq<K.Stage>, key: Key, f: seq<byte>, c: Closes, i: nat)
    requires IsRun(run, ps, key, f, c) && i < |run|
    ensures Inv(run[i], key, f, c) && i + Work(run[i], |f|) <= 12 * |f| + 8
  {
    if i == 0 {
      K.InitInv(key, f);
    } else {
      RunInv(run, ps, key, f, c, i - 1);
      assert StepsTo(run[i - 1], key, f, ps[i - 1], c, run[i]);
      StepInv(run[i - 1], key, f, ps[i - 1], c);
      WorkFalls(run[i - 1], key, f, ps[i - 1], c);
    }
  }

  /** Every run ends. */
  lemma RunEnds(run: seq<State>, ps: seq<K.Stage>, key: Key, f: seq<byte>, c: Closes)
    requires IsRun(run, ps, key, f, c)
    ensures |ps| <= 12 * |f| + 8
  {
    RunInv(run, ps, key, f, c, |ps|);
    var t := run[|ps|].k;
    assert t.pos <= |f|;
  }

  /** Once the reader has finished, only a close that wakes can still take the encrypter out of its queue. */
  lemma {:induction false} StaysQueued(run: seq<State>, ps: seq<K.Stage>, key: Key, f: seq<byte>, c: Closes, i: nat, j: nat)
    requires IsRun(run, ps, key, f, c) && i <= j < |run|
    ensures run[i].eq && run[i].k.r.ReaderDone? ==> run[j].eq && run[j].k.r.ReaderDone?
    ensures run[i].wq && run[i].k.e.EncryptDone? ==> run[j].wq && run[j].k.e.EncryptDone?
  {
    if i < j {
      StaysQueued(run, ps, key, f, c, i, j - 1);
      assert StepsTo(run[j - 1], key, f, ps[j - 1], c, run[j]);
    }
  }

  /** The output of every run, and which runs end with all stages finished. */
  lemma RunOutput(run: seq<State>, ps: seq<K.Stage>, key: Key, f: seq<byte>, c: Closes)
    requires IsRun(run, ps, key, f, c)
    ensures var t := run[|ps|];
      && t.k.out <= Cipher(key, f)
      && ((forall p :: !Enabled(t, p)) ==>
           t.k.out == Cipher(key, f)
           && (K.Finished(t.k) <==> !t.eq && !t.wq)
           && (c == Closes(Flushed, Flushed) ==> K.Finished(t.k))
           && (c.r.Held? || c.e.Held? ==> !K.Finished(t.k)))
  {
    RunInv(run, ps, key, f, c, |ps|);
    var t := run[|ps|];
    var r: nat, e: nat, x: nat, w: nat :| K.InvAt(t.k, key, f, r, e, x, w);
    if forall p :: !Enabled(t, p) {
      Stuck(t, key, f, c);
    }
  }

  /** A stage is in a queue although its upstream stage has finished. */
  ghost predicate LeftBehind(s: State) {
    (s.eq && s.k.r.ReaderDone?) || (s.wq && s.k.e.EncryptDone?)
  }

  /** If closes wake nobody, a run finishes exactly if no stage is queued when its upstream stage finishes, or later. */
  lemma UnflushedFinishes(run: seq<State>, ps: seq<K.Stage>, key: Key, f: seq<byte>)
    requires IsRun(run, ps, key, f, UNFLUSHED) && forall p :: !Enabled(run[|ps|], p)
    ensures K.Finished(run[|ps|].k) <==> forall i :: 0 <= i < |run| ==> !LeftBehind(run[i])
  {
    var t := run[|ps|];
    RunInv(run, ps, key, f, UNFLUSHED, |ps|);
    Stuck(t, key, f, UNFLUSHED);
    StuckMovesNothing(t, key, f, UNFLUSHED);
    K.NothingMoves(t.k, key, f);
    assert !Enabled(t, K.TheEncrypt);
    if K.Finished(t.k) {
      forall i | 0 <= i < |run| ensures !LeftBehind(run[i]) {
        StaysQueued(run, ps, key, f, UNFLUSHED, i, |ps|);
      }
    } else {
      assert LeftBehind(t);
    }
  }

  /** With an empty file it is enough that both other stages start before the reader: they wait for ever. */
  lemma NobodyWoken(key: Key) returns (run: seq<State>, ps: seq<K.Stage>)
    ensures IsRun(run, ps, key, [], UNFLUSHED)
    ensures var t := run[|ps|]; (forall p :: !Enabled(t, p)) && !K.Finished(t.k) && t.eq && t.wq
  {
    ps := [K.TheEncrypt, K.TheWriter, K.TheReader];
    var s0 := Init();
    var s1 := Step(s0, key, [], ps[0], UNFLUSHED);
    var s2 := Step(s1, key, [], ps[1], UNFLUSHED);
    var s3 := Step(s2, key, [], ps[2], UNFLUSHED);
    run := [s0, s1, s2, s3];
    assert StepsTo(s0, key, [], ps[0], UNFLUSHED, s1) && StepsTo(s1, key, [], ps[1], UNFLUSHED, s2);
    assert StepsTo(s2, key, [], ps[2], UNFLUSHED, s3);
  }
}
