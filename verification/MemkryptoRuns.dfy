/**
 What `memkrypto.c` keeps under every interleaving: tokens are conserved, no page is
 overwritten before it has been used, nobody gets stuck, every run ends, and what has been
 put out is the file under the repeating key.
 */
module MemkryptoRuns {
  import opened Common
  import opened XorKey
  import opened Chunks
  import opened MemkryptoModel
  import D = Decrypt

  lemma InitInv(key: Key, f: seq<byte>, slots: seq<seq<byte>>)
    requires SlotsOk(slots)
    ensures Inv(Init(|f|, slots), key, f) && Work(Init(|f|, slots), |f|) == 14 * |f| + 8
  {
  }

  // ---- the order of the chunks -----------------------------------------------------------------

  /** Four tokens in all, and written <= encrypted <= read <= written + 4. */
  lemma TokensTotal(s: State, key: Key, f: seq<byte>)
    requires Inv(s, key, f)
    ensures s.wr + s.re + s.ew + Held(s, TheReader) + Held(s, TheEncrypt) + Held(s, TheWriter) == Seeded(s)
    ensures s.w.taken <= s.e.ciphered <= s.r.sent <= s.w.taken + BUFFERS
  {
  }

  lemma SlotsDiffer(c: nat, d: nat)
    requires c < d < c + BUFFERS
    ensures c % BUFFERS != d % BUFFERS
  {
  }

  /** The page that the reader fills holds no chunk that is still needed. */
  lemma FillIsSafe(s: State, key: Key, f: seq<byte>, c: nat)
    requires Inv(s, key, f) && s.r.pc.Fill? && s.w.taken <= c < s.r.sent
    ensures c % BUFFERS != s.r.slot
  {
    SlotsDiffer(c, s.r.sent);
  }

  /** Processes that hold tokens at the same time work on different pages. */
  lemma Exclusive(s: State, key: Key, f: seq<byte>)
    requires Inv(s, key, f)
    ensures s.r.pc.Fill? && s.e.pc.Xor? ==> s.r.slot != s.e.slot
    ensures s.r.pc.Fill? && s.w.pc.Drain? ==> s.r.slot != s.w.slot
    ensures s.e.pc.Xor? && s.w.pc.Drain? ==> s.e.slot != s.w.slot
  {
    if s.r.pc.Fill? && s.e.pc.Xor? {
      FillIsSafe(s, key, f, s.e.ciphered);
    }
    if s.r.pc.Fill? && s.w.pc.Drain? {
      FillIsSafe(s, key, f, s.w.taken);
    }
    if s.e.pc.Xor? && s.w.pc.Drain? {
      SlotsDiffer(s.w.taken, s.e.ciphered);
    }
  }

  lemma StaysInBounds(s: State, key: Key, f: seq<byte>)
    requires Inv(s, key, f)
    ensures InBounds(s, key, f)
  {
  }

  // ---- the contents of the pages ---------------------------------------------------------------------

  lemma StoreBytes(slots: seq<seq<byte>>, d: nat, i: nat, b: byte, c: nat, j: nat)
    requires SlotsOk(slots) && i < PAGE_SIZE && j < PAGE_SIZE
    ensures SlotsOk(Store(slots, d % BUFFERS, i, b))
    ensures SlotByte(Store(slots, d % BUFFERS, i, b), c, j)
         == if c % BUFFERS == d % BUFFERS && j == i then b else SlotByte(slots, c, j)
  {
  }

  /** The reader copies one byte. */
  lemma FillByte(slots: seq<seq<byte>>, key: Key, f: seq<byte>, taken: nat, ciphered: nat, xored: nat, sent: nat, i: nat)
    requires SlotsOk(slots) && ChunksOk(slots, key, f, taken, ciphered, xored, sent, i)
    requires sent < taken + BUFFERS && i < ChunkLen(|f|, sent)
    ensures var t := Store(slots, sent % BUFFERS, i, f[PAGE_SIZE * sent + i]);
      SlotsOk(t) && ChunksOk(t, key, f, taken, ciphered, xored, sent, i + 1)
  {
    var b := f[PAGE_SIZE * sent + i];
    var t := Store(slots, sent % BUFFERS, i, b);
    forall c: nat, j: nat | taken <= c < sent && j < ChunkLen(|f|, c)
      ensures SlotByte(t, c, j) == Expected(key, f, c, j, ciphered, xored)
    {
      StoreBytes(slots, sent, i, b, c, j);
      SlotsDiffer(c, sent);
    }
    forall j: nat | j < i + 1 && j < ChunkLen(|f|, sent) ensures SlotByte(t, sent, j) == f[PAGE_SIZE * sent + j] {
      StoreBytes(slots, sent, i, b, sent, j);
    }
  }

  /** The encrypter changes one byte. */
  lemma XorByte(
    slots: seq<seq<byte>>, key: Key, f: seq<byte>, taken: nat, ciphered: nat, i: nat, sent: nat, filled: nat)
    requires SlotsOk(slots) && ChunksOk(slots, key, f, taken, ciphered, i, sent, filled)
    requires taken <= ciphered < sent <= taken + BUFFERS && i < ChunkLen(|f|, ciphered)
    requires filled > 0 ==> sent < taken + BUFFERS
    ensures var o := PAGE_SIZE * ciphered + i;
      var t := Store(slots, ciphered % BUFFERS, i, CipherByte(key, slots[ciphered % BUFFERS][i], o));
      SlotsOk(t) && ChunksOk(t, key, f, taken, ciphered, i + 1, sent, filled)
  {
    var o := PAGE_SIZE * ciphered + i;
    assert SlotByte(slots, ciphered, i) == f[o];
    var b := CipherByte(key, f[o], o);
    var t := Store(slots, ciphered % BUFFERS, i, b);
    forall c: nat, j: nat | taken <= c < sent && j < ChunkLen(|f|, c)
      ensures SlotByte(t, c, j) == Expected(key, f, c, j, ciphered, i + 1)
    {
      StoreBytes(slots, ciphered, i, b, c, j);
      if c < ciphered {
        SlotsDiffer(c, ciphered);
      } else if c > ciphered {
        SlotsDiffer(ciphered, c);
      }
    }
    forall j: nat | j < filled && j < ChunkLen(|f|, sent) ensures SlotByte(t, sent, j) == f[PAGE_SIZE * sent + j] {
      StoreBytes(slots, ciphered, i, b, sent, j);
      SlotsDiffer(ciphered, sent);
    }
  }

  /** A finished chunk is passed on. */
  lemma FillDone(slots: seq<seq<byte>>, key: Key, f: seq<byte>, taken: nat, ciphered: nat, xored: nat, sent: nat)
    requires SlotsOk(slots) && ChunksOk(slots, key, f, taken, ciphered, xored, sent, ChunkLen(|f|, sent))
    requires ciphered <= sent && (xored > 0 ==> ciphered < sent)
    ensures ChunksOk(slots, key, f, taken, ciphered, xored, sent + 1, 0)
  {
  }

  lemma XorDone(
    slots: seq<seq<byte>>, key: Key, f: seq<byte>, taken: nat, ciphered: nat, sent: nat, filled: nat)
    requires SlotsOk(slots) && ChunksOk(slots, key, f, taken, ciphered, ChunkLen(|f|, ciphered), sent, filled)
    ensures ChunksOk(slots, key, f, taken, ciphered + 1, 0, sent, filled)
  {
  }

  // ---- each process keeps the invariant ------------------------------------------------------------

  lemma ReaderInv(s: State, key: Key, f: seq<byte>)
    requires Inv(s, key, f) && Enabled(s, TheReader)
    ensures InBounds(s, key, f) && Inv(ReaderStep(s, key, f), key, f)
  {
    StaysInBounds(s, key, f);
    ReaderOwn(s, key, f);
    ReaderTokens(s, key, f);
    TokensTotal(s, key, f);
    if s.r.pc.Fill? {
      FillInv(s, key, f);
    }
  }

  lemma FillInv(s: State, key: Key, f: seq<byte>)
    requires SlotsOk(s.slots) && ReaderOk(s.r, f) && s.r.pc.Fill? && InBounds(s, key, f)
    requires ChunksOk(s.slots, key, f, s.w.taken, s.e.ciphered, Xored(s.e), s.r.sent, Filled(s.r))
    requires s.e.ciphered <= s.r.sent < s.w.taken + BUFFERS && (Xored(s.e) > 0 ==> s.e.ciphered < s.r.sent)
    ensures var t := ReaderStep(s, key, f);
      SlotsOk(t.slots) && ChunksOk(t.slots, key, f, t.w.taken, t.e.ciphered, Xored(t.e), t.r.sent, Filled(t.r))
  {
    if s.r.pc.i < |s.r.pc.buf| {
      FillByte(s.slots, key, f, s.w.taken, s.e.ciphered, Xored(s.e), s.r.sent, s.r.pc.i);
    } else {
      FillDone(s.slots, key, f, s.w.taken, s.e.ciphered, Xored(s.e), s.r.sent);
    }
  }

  lemma ReaderOwn(s: State, key: Key, f: seq<byte>)
    requires ReaderOk(s.r, f) && Tokens(s) && InBounds(s, key, f) && Enabled(s, TheReader)
    ensures ReaderOk(ReaderStep(s, key, f).r, f)
  {
    NextChunk(|f|, s.r.sent);
  }

  lemma ReaderTokens(s: State, key: Key, f: seq<byte>)
    requires ReaderOk(s.r, f) && Tokens(s) && InBounds(s, key, f) && Enabled(s, TheReader)
    ensures Tokens(ReaderStep(s, key, f))
  {
  }

  lemma EncryptInv(s: State, key: Key, f: seq<byte>)
    requires Inv(s, key, f) && Enabled(s, TheEncrypt)
    ensures InBounds(s, key, f) && Inv(EncryptStep(s, key, f), key, f)
  {
    StaysInBounds(s, key, f);
    EncryptOwn(s, key, f);
    EncryptTokens(s, key, f);
    TokensTotal(s, key, f);
    if s.e.pc.Xor? {
      XorInv(s, key, f);
    }
  }

  lemma XorInv(s: State, key: Key, f: seq<byte>)
    requires SlotsOk(s.slots) && EncryptOk(s.e, |f|) && s.e.pc.Xor? && InBounds(s, key, f)
    requires ChunksOk(s.slots, key, f, s.w.taken, s.e.ciphered, Xored(s.e), s.r.sent, Filled(s.r))
    requires s.w.taken <= s.e.ciphered < s.r.sent <= s.w.taken + BUFFERS
    requires Filled(s.r) > 0 ==> s.r.sent < s.w.taken + BUFFERS
    ensures var t := EncryptStep(s, key, f);
      SlotsOk(t.slots) && ChunksOk(t.slots, key, f, t.w.taken, t.e.ciphered, Xored(t.e), t.r.sent, Filled(t.r))
  {
    var t := EncryptStep(s, key, f);
    if s.e.pc.i < s.e.pc.n {
      XorStores(s, key, f);
      XorByte(s.slots, key, f, s.w.taken, s.e.ciphered, s.e.pc.i, s.r.sent, Filled(s.r));
    } else {
      XorDone(s.slots, key, f, s.w.taken, s.e.ciphered, s.r.sent, Filled(s.r));
      assert t.slots == s.slots && t.e.ciphered == s.e.ciphered + 1 && Xored(t.e) == 0;
    }
  }

  /** What the step changes when it puts one byte under the key. */
  lemma XorStores(s: State, key: Key, f: seq<byte>)
    requires SlotsOk(s.slots) && EncryptOk(s.e, |f|) && s.e.pc.Xor? && InBounds(s, key, f) && s.e.pc.i < s.e.pc.n
    ensures var t := EncryptStep(s, key, f); var i := s.e.pc.i; var k := s.e.ciphered % BUFFERS;
      && t.slots == Store(s.slots, k, i, CipherByte(key, s.slots[k][i], PAGE_SIZE * s.e.ciphered + i))
      && t.e.ciphered == s.e.ciphered && Xored(t.e) == i + 1 && t.w == s.w && t.r == s.r
  {
  }

  lemma EncryptOwn(s: State, key: Key, f: seq<byte>)
    requires EncryptOk(s.e, |f|) && InBounds(s, key, f) && Enabled(s, TheEncrypt)
    ensures EncryptOk(EncryptStep(s, key, f).e, |f|)
  {
    NextChunk(|f|, s.e.ciphered);
    if s.e.pc.Xor? && s.e.pc.i < s.e.pc.n {
      NextKey(PAGE_SIZE * s.e.ciphered + Xored(s.e));
    } else {
      NextSlot(s.e.ciphered);
    }
  }

  lemma NextSlot(c: nat)
    ensures (c % BUFFERS + 1) % BUFFERS == (c + 1) % BUFFERS
  {
  }

  lemma EncryptTokens(s: State, key: Key, f: seq<byte>)
    requires EncryptOk(s.e, |f|) && Tokens(s) && InBounds(s, key, f) && Enabled(s, TheEncrypt)
    ensures Tokens(EncryptStep(s, key, f))
  {
  }

  lemma NextKey(o: nat)
    ensures (o % KEY_LEN + 1) % KEY_LEN == (o + 1) % KEY_LEN
  {
  }

  lemma WriterInv(s: State, key: Key, f: seq<byte>)
    requires Inv(s, key, f) && Enabled(s, TheWriter)
    ensures InBounds(s, key, f) && Inv(WriterStep(s, key, f), key, f)
  {
    StaysInBounds(s, key, f);
    TokensTotal(s, key, f);
    WriterTokens(s, key, f);
    WriterChunks(s, key, f);
    match s.w.pc {
      case Drain(n, buf) => DrainInv(s, key, f);
      case Emit(n, buf) => EmitInv(s, key, f);
      case _ => WriterWaits(s, key, f);
    }
  }

  /** The writer changes no page; a chunk that it has taken is no longer looked at. */
  lemma WriterChunks(s: State, key: Key, f: seq<byte>)
    requires SlotsOk(s.slots) && InBounds(s, key, f) && Enabled(s, TheWriter)
    requires ChunksOk(s.slots, key, f, s.w.taken, s.e.ciphered, Xored(s.e), s.r.sent, Filled(s.r))
    ensures var t := WriterStep(s, key, f);
      && t.slots == s.slots && t.r == s.r && t.e == s.e
      && ChunksOk(t.slots, key, f, t.w.taken, t.e.ciphered, Xored(t.e), t.r.sent, Filled(t.r))
  {
  }

  lemma WriterTokens(s: State, key: Key, f: seq<byte>)
    requires WriterOk(s.w, s.out, Cipher(key, f)) && Tokens(s) && InBounds(s, key, f) && Enabled(s, TheWriter)
    ensures Tokens(WriterStep(s, key, f))
  {
  }

  lemma WriterWaits(s: State, key: Key, f: seq<byte>)
    requires WriterOk(s.w, s.out, Cipher(key, f)) && InBounds(s, key, f) && Enabled(s, TheWriter)
    requires s.w.pc.WriterTest? || s.w.pc.WaitCipher?
    ensures var t := WriterStep(s, key, f); WriterOk(t.w, t.out, Cipher(key, f))
  {
  }

  lemma DrainInv(s: State, key: Key, f: seq<byte>)
    requires Inv(s, key, f) && s.w.pc.Drain? && InBounds(s, key, f)
    ensures var t := WriterStep(s, key, f); WriterOk(t.w, t.out, Cipher(key, f))
  {
    if |s.w.pc.buf| < s.w.pc.n {
      DrainedByte(s, key, f);
      DrainMore(s.w, s.out, Cipher(key, f), s.slots[s.w.slot][|s.w.pc.buf|]);
    } else {
      DrainDone(s.w, s.out, Cipher(key, f));
    }
  }

  /** The chunk that the writer copies is under the key. */
  lemma DrainedByte(s: State, key: Key, f: seq<byte>)
    requires SlotsOk(s.slots) && Tokens(s) && s.w.pc.Drain? && WriterOk(s.w, s.out, Cipher(key, f))
    requires ChunksOk(s.slots, key, f, s.w.taken, s.e.ciphered, Xored(s.e), s.r.sent, Filled(s.r))
    requires |s.w.pc.buf| < s.w.pc.n
    ensures var o := PAGE_SIZE * s.w.taken + |s.w.pc.buf|;
      o < |f| && s.w.slot < BUFFERS && s.slots[s.w.slot][|s.w.pc.buf|] == Cipher(key, f)[o]
  {
    assert SlotByte(s.slots, s.w.taken, |s.w.pc.buf|)
        == Expected(key, f, s.w.taken, |s.w.pc.buf|, s.e.ciphered, Xored(s.e));
  }

  lemma DrainMore(w: Writer, out: seq<byte>, cipher: seq<byte>, b: byte)
    requires WriterOk(w, out, cipher) && w.pc.Drain? && |w.pc.buf| < w.pc.n
    requires b == cipher[PAGE_SIZE * w.taken + |w.pc.buf|]
    ensures WriterOk(w.(pc := Drain(w.pc.n, w.pc.buf + [b])), out, cipher)
  {
    var whole, j := Chunk(cipher, w.taken), |w.pc.buf|;
    assert whole[j] == b && whole[..j + 1] == whole[..j] + [whole[j]];
  }

  lemma DrainDone(w: Writer, out: seq<byte>, cipher: seq<byte>)
    requires WriterOk(w, out, cipher) && w.pc.Drain? && |w.pc.buf| == w.pc.n
    ensures WriterOk(w.(pc := Emit(w.pc.n, w.pc.buf), taken := w.taken + 1), out, cipher)
  {
    var whole := Chunk(cipher, w.taken);
    assert whole[..|whole|] == whole;
  }

  lemma EmitInv(s: State, key: Key, f: seq<byte>)
    requires WriterOk(s.w, s.out, Cipher(key, f)) && s.w.pc.Emit? && InBounds(s, key, f)
    ensures var t := WriterStep(s, key, f); WriterOk(t.w, t.out, Cipher(key, f))
  {
    EmitChunk(s.w, s.out, Cipher(key, f));
  }

  lemma EmitChunk(w: Writer, out: seq<byte>, cipher: seq<byte>)
    requires WriterOk(w, out, cipher) && w.pc.Emit? && w.pc.n <= w.left
    ensures WriterOk(w.(pc := WriterTest, left := w.left - w.pc.n, slot := (w.slot + 1) % BUFFERS), out + w.pc.buf, cipher)
  {
    var o := |cipher| - w.left;
    assert cipher[..o] + cipher[o..o + w.pc.n] == cipher[..o + w.pc.n];
  }

  lemma StepInv(s: State, key: Key, f: seq<byte>, p: Process)
    requires Inv(s, key, f) && Enabled(s, p)
    ensures InBounds(s, key, f) && Inv(Step(s, key, f, p), key, f)
  {
    match p {
      case TheReader => ReaderInv(s, key, f);
      case TheEncrypt => EncryptInv(s, key, f);
      case TheWriter => WriterInv(s, key, f);
    }
  }

  // ---- progress ----------------------------------------------------------------------------------

  predicate Finished(s: State) {
    s.r.pc.ReaderDone? && s.e.pc.EncryptDone? && s.w.pc.WriterDone?
  }

  /** As long as some process has not finished, some process can go on. */
  lemma NoDeadlock(s: State, key: Key, f: seq<byte>)
    requires Inv(s, key, f)
    ensures (exists p :: Enabled(s, p)) <==> !Finished(s)
    ensures Finished(s) ==> s.wr == BUFFERS && s.re == 0 && s.ew == 0
  {
    if !Finished(s) && !Enabled(s, TheReader) && !Enabled(s, TheEncrypt) {
      assert Enabled(s, TheWriter);
    }
    if Finished(s) {
      AllTaken(s, key, f);
    }
  }

  /** Processes that have finished have dealt with the same chunks. */
  lemma AllTaken(s: State, key: Key, f: seq<byte>)
    requires Inv(s, key, f)
    ensures PAGE_SIZE * s.r.sent < |f| + PAGE_SIZE
    ensures Finished(s) ==> s.w.taken == s.e.ciphered == s.r.sent
  {
  }

  function ReaderWork(r: Reader, size: nat): int {
    var rest := 5 * (size - r.pos);
    match r.pc
    case Seed(k) => rest + 6 - k
    case Fetch => rest + 1
    case WaitSlot(buf) => rest + |buf| + 3
    case Fill(buf, i) => rest + |buf| - i + 2
    case ReaderDone => rest
  }

  function EncryptWork(e: Encrypt): int {
    match e.pc
    case EncryptTest => 4 * e.left + 1
    case WaitPlain(n) => 4 * (e.left - n) + n + 3
    case Xor(n, i) => 4 * (e.left - n) + n - i + 2
    case EncryptDone => 4 * e.left
  }

  function WriterWork(w: Writer): int {
    match w.pc
    case WriterTest => 5 * w.left + 1
    case WaitCipher(n) => 5 * (w.left - n) + n + 4
    case Drain(n, buf) => 5 * (w.left - n) + n - |buf| + 3
    case Emit(n, buf) => 5 * (w.left - n) + 2
    case WriterDone => 5 * w.left
  }

  /** A bound on the steps that are still to come. */
  function Work(s: State, size: nat): int {
    ReaderWork(s.r, size) + EncryptWork(s.e) + WriterWork(s.w)
  }

  lemma ReaderWorkFalls(s: State, key: Key, f: seq<byte>)
    requires ReaderOk(s.r, f) && Tokens(s) && InBounds(s, key, f) && Enabled(s, TheReader)
    ensures ReaderWork(ReaderStep(s, key, f).r, |f|) < ReaderWork(s.r, |f|)
  {
  }

  lemma EncryptWorkFalls(s: State, key: Key, f: seq<byte>)
    requires EncryptOk(s.e, |f|) && InBounds(s, key, f) && Enabled(s, TheEncrypt)
    ensures EncryptWork(EncryptStep(s, key, f).e) < EncryptWork(s.e)
  {
  }

  lemma WriterWorkFalls(s: State, key: Key, f: seq<byte>)
    requires WriterOk(s.w, s.out, Cipher(key, f)) && InBounds(s, key, f) && Enabled(s, TheWriter)
    ensures WriterWork(WriterStep(s, key, f).w) < WriterWork(s.w)
  {
  }

  lemma WorkFalls(s: State, key: Key, f: seq<byte>, p: Process)
    requires Inv(s, key, f) && Enabled(s, p)
    ensures InBounds(s, key, f) && Work(Step(s, key, f, p), |f|) < Work(s, |f|)
  {
    StaysInBounds(s, key, f);
    match p {
      case TheReader => ReaderWorkFalls(s, key, f);
      case TheEncrypt => EncryptWorkFalls(s, key, f);
      case TheWriter => WriterWorkFalls(s, key, f);
    }
  }

  lemma WorkNotNegative(s: State, key: Key, f: seq<byte>)
    requires Inv(s, key, f)
    ensures Work(s, |f|) >= 0
  {
    assert ReaderWork(s.r, |f|) >= 0;
    assert EncryptWork(s.e) >= 0;
    assert WriterWork(s.w) >= 0;
  }

  // ---- runs ------------------------------------------------------------------------------------------

  ghost predicate StepsTo(s: State, key: Key, f: seq<byte>, p: Process, t: State) {
    InBounds(s, key, f) && Enabled(s, p) && t == Step(s, key, f, p)
  }

  /** The processes `ps` take their steps one after the other, from four pages of any contents. */
  ghost predicate IsRun(run: seq<State>, ps: seq<Process>, key: Key, f: seq<byte>) {
    && |run| == |ps| + 1
    && SlotsOk(run[0].slots) && run[0] == Init(|f|, run[0].slots)
    && forall i :: 0 <= i < |ps| ==> StepsTo(run[i], key, f, ps[i], run[i + 1])
  }

  /** The invariant holds in every state, and every step has used up some of the work there is. */
  lemma {:induction false} RunInv(run: seq<State>, ps: seq<Process>, key: Key, f: seq<byte>, i: nat)
    requires IsRun(run, ps, key, f) && i < |run|
    ensures Reached(run[i], key, f, i)
    ensures Inv(run[i], key, f)
  {
    if i == 0 {
      InitInv(key, f, run[0].slots);
    } else {
      RunInv(run, ps, key, f, i - 1);
      RunNext(run[i - 1], key, f, ps[i - 1], run[i], i - 1);
    }
  }

  /** A state as it can be after `i` steps. */
  ghost predicate Reached(s: State, key: Key, f: seq<byte>, i: nat) {
    Inv(s, key, f) && i + Work(s, |f|) <= 14 * |f| + 8
  }

  lemma RunNext(s: State, key: Key, f: seq<byte>, p: Process, t: State, i: nat)
    requires Reached(s, key, f, i) && StepsTo(s, key, f, p, t)
    ensures Reached(t, key, f, i + 1)
  {
    RunStep(s, key, f, p, t);
  }

  lemma RunStep(s: State, key: Key, f: seq<byte>, p: Process, t: State)
    requires Inv(s, key, f) && StepsTo(s, key, f, p, t)
    ensures Inv(t, key, f) && Work(t, |f|) < Work(s, |f|)
  {
    StepInv(s, key, f, p);
    WorkFalls(s, key, f, p);
  }

  /** Every run ends, after a number of steps that only depends on the length of the file. */
  lemma RunEnds(run: seq<State>, ps: seq<Process>, key: Key, f: seq<byte>)
    requires IsRun(run, ps, key, f)
    ensures |ps| <= 14 * |f| + 8
  {
    RunInv(run, ps, key, f, |ps|);
    WorkNotNegative(run[|ps|], key, f);
  }

  /**
   What has been put out is always the beginning of the file under the key, and a run that
   cannot go on has put out all of it.
   */
  lemma RunOutput(run: seq<State>, ps: seq<Process>, key: Key, f: seq<byte>, i: nat)
    requires IsRun(run, ps, key, f) && i < |run|
    ensures run[i].out <= Cipher(key, f) && |run[i].out| == |f| - Rest(|f|, Written(run[i].w))
    ensures (forall p :: !Enabled(run[i], p)) ==> run[i].out == Cipher(key, f)
  {
    RunInv(run, ps, key, f, i);
    if forall p :: !Enabled(run[i], p) {
      NoDeadlock(run[i], key, f);
    }
  }

  /** What a finished run has put out, `decrypt` turns back into the file. */
  lemma DecryptsBack(run: seq<State>, ps: seq<Process>, f: seq<byte>, sizes: seq<nat>)
    requires IsRun(run, ps, PROGRAM_KEY, f) && forall p :: !Enabled(run[|ps|], p)
    requires D.Reads(|f|, 0, sizes) && D.FullReads(sizes)
    ensures |run[|ps|].out| == |f| && D.DecryptFrom(PROGRAM_KEY, run[|ps|].out, 0, sizes) == f
  {
    RunOutput(run, ps, PROGRAM_KEY, f, |ps|);
    D.FullReadsInvert(f, sizes);
  }
}
