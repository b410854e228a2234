/**
 `memkrypto.c`: three processes that run over four shared pages. Every action that another
 process can observe is one step, copies and the XOR byte by byte, and the steps of the
 processes interleave freely. The pipes hold one-byte tokens, so only their number matters.
 */
module MemkryptoModel {
  import opened Common
  import opened XorKey
  import opened Chunks

  const BUFFERS: nat := 4

  datatype ReaderPc = Seed(k: nat) | Fetch | WaitSlot(buf: seq<byte>) | Fill(buf: seq<byte>, i: nat) | ReaderDone
  datatype EncryptPc = EncryptTest | WaitPlain(n: nat) | Xor(n: nat, i: nat) | EncryptDone
  datatype WriterPc = WriterTest | WaitCipher(n: nat) | Drain(n: nat, buf: seq<byte>) | Emit(n: nat, buf: seq<byte>) | WriterDone

  /** `sent`, `ciphered` and `taken` count the chunks that each process has signalled. */
  datatype Reader = Reader(pc: ReaderPc, pos: nat, slot: nat, sent: nat)
  datatype Encrypt = Encrypt(pc: EncryptPc, left: nat, slot: nat, key: nat, ciphered: nat)
  datatype Writer = Writer(pc: WriterPc, left: nat, slot: nat, taken: nat)

  /** Tokens in the pipes writer-reader, reader-encrypt and encrypt-writer, the shared pages, and the output. */
  datatype State = State(
    wr: nat, re: nat, ew: nat,
    slots: seq<seq<byte>>,
    r: Reader, e: Encrypt, w: Writer,
    out: seq<byte>)

  datatype Process = TheReader | TheEncrypt | TheWriter

  function Init(size: nat, slots: seq<seq<byte>>): State {
    State(0, 0, 0, slots,
      Reader(Seed(0), 0, 0, 0), Encrypt(EncryptTest, size, 0, 0, 0), Writer(WriterTest, size, 0, 0), [])
  }

  function Store(slots: seq<seq<byte>>, k: nat, i: nat, b: byte): seq<seq<byte>>
    requires k < |slots| && i < |slots[k]|
  {
    slots[k := slots[k][i := b]]
  }

  // ---- what a process may do now --------------------------------------------------------------

  /** A process is stopped by an empty pipe, or because it has finished. */
  predicate Enabled(s: State, p: Process) {
    match p
    case TheReader => !s.r.pc.ReaderDone? && (s.r.pc.WaitSlot? ==> s.wr > 0)
    case TheEncrypt => !s.e.pc.EncryptDone? && (s.e.pc.WaitPlain? ==> s.re > 0)
    case TheWriter => !s.w.pc.WriterDone? && (s.w.pc.WaitCipher? ==> s.ew > 0)
  }

  /** Its memory accesses stay inside the shared pages. */
  predicate InBounds(s: State, key: Key, f: seq<byte>) {
    && (s.r.pc.Fetch? ==> s.r.pos <= |f|)
    && (s.r.pc.Fill? ==> s.r.slot < |s.slots| && |s.r.pc.buf| <= |s.slots[s.r.slot]|)
    && (s.e.pc.Xor? ==> s.e.slot < |s.slots| && s.e.pc.n <= |s.slots[s.e.slot]| && s.e.key < KEY_LEN)
    && (s.w.pc.Drain? ==> s.w.slot < |s.slots| && s.w.pc.n <= |s.slots[s.w.slot]|)
    && (s.w.pc.Emit? ==> s.w.pc.n <= s.w.left)
    && (s.e.pc.Xor? ==> s.e.pc.n <= s.e.left)
  }

  // ---- steps ----------------------------------------------------------------------------------

  function Step(s: State, key: Key, f: seq<byte>, p: Process): State
    requires InBounds(s, key, f) && Enabled(s, p)
  {
    match p
    case TheReader => ReaderStep(s, key, f)
    case TheEncrypt => EncryptStep(s, key, f)
    case TheWriter => WriterStep(s, key, f)
  }

  /** The four initial tokens, then `reader`. */
  function ReaderStep(s: State, key: Key, f: seq<byte>): State
    requires InBounds(s, key, f) && Enabled(s, TheReader)
  {
    var r := s.r;
    match r.pc
    case Seed(k) => if k < BUFFERS then s.(wr := s.wr + 1, r := r.(pc := Seed(k + 1))) else s.(r := r.(pc := Fetch))
    case Fetch =>
      var n := Min(PAGE_SIZE, |f| - r.pos);
      if n > 0 then s.(r := r.(pc := WaitSlot(f[r.pos..r.pos + n]), pos := r.pos + n))
      else s.(r := r.(pc := ReaderDone))
    case WaitSlot(buf) => s.(wr := s.wr - 1, r := r.(pc := Fill(buf, 0)))
    case Fill(buf, i) =>
      if i < |buf| then s.(slots := Store(s.slots, r.slot, i, buf[i]), r := r.(pc := Fill(buf, i + 1)))
      else s.(re := s.re + 1, r := r.(pc := Fetch, slot := (r.slot + 1) % BUFFERS, sent := r.sent + 1))
  }

  function EncryptStep(s: State, key: Key, f: seq<byte>): State
    requires InBounds(s, key, f) && Enabled(s, TheEncrypt)
  {
    var e := s.e;
    match e.pc
    case EncryptTest =>
      if e.left > 0 then s.(e := e.(pc := WaitPlain(Min(PAGE_SIZE, e.left)))) else s.(e := e.(pc := EncryptDone))
    case WaitPlain(n) => s.(re := s.re - 1, e := e.(pc := Xor(n, 0)))
    case Xor(n, i) =>
      if i < n then
        s.(slots := Store(s.slots, e.slot, i, s.slots[e.slot][i] ^ key[e.key]),
          e := e.(pc := Xor(n, i + 1), key := (e.key + 1) % KEY_LEN))
      else
        s.(ew := s.ew + 1,
          e := e.(pc := EncryptTest, left := e.left - n, slot := (e.slot + 1) % BUFFERS, ciphered := e.ciphered + 1))
  }

  function WriterStep(s: State, key: Key, f: seq<byte>): State
    requires InBounds(s, key, f) && Enabled(s, TheWriter)
  {
    var w := s.w;
    match w.pc
    case WriterTest =>
      if w.left > 0 then s.(w := w.(pc := WaitCipher(Min(PAGE_SIZE, w.left)))) else s.(w := w.(pc := WriterDone))
    case WaitCipher(n) => s.(ew := s.ew - 1, w := w.(pc := Drain(n, [])))
    case Drain(n, buf) =>
      if |buf| < n then s.(w := w.(pc := Drain(n, buf + [s.slots[w.slot][|buf|]])))
      else s.(wr := s.wr + 1, w := w.(pc := Emit(n, buf), taken := w.taken + 1))
    case Emit(n, buf) =>
      s.(out := s.out + buf, w := w.(pc := WriterTest, left := w.left - n, slot := (w.slot + 1) % BUFFERS))
  }

  // ---- the invariant ----------------------------------------------------------------------------

  /** A process that has taken a token and not yet signalled. */
  function Held(s: State, p: Process): nat {
    match p
    case TheReader => if s.r.pc.Fill? then 1 else 0
    case TheEncrypt => if s.e.pc.Xor? then 1 else 0
    case TheWriter => if s.w.pc.Drain? then 1 else 0
  }

  function Seeded(s: State): nat {
    if s.r.pc.Seed? then s.r.pc.k else BUFFERS
  }

  ghost predicate Tokens(s: State) {
    && Seeded(s) <= BUFFERS
    && s.re + s.e.ciphered + Held(s, TheEncrypt) == s.r.sent
    && s.ew + s.w.taken + Held(s, TheWriter) == s.e.ciphered
    && s.wr + s.r.sent + Held(s, TheReader) == s.w.taken + Seeded(s)
  }

  /** The reader's own variables: where it is in the file, and what it carries. */
  ghost predicate ReaderOk(r: Reader, f: seq<byte>) {
    && r.slot == r.sent % BUFFERS
    && r.pos <= |f|
    && PAGE_SIZE * r.sent < |f| + PAGE_SIZE
    && match r.pc
       case Seed(_) => r.sent == 0 && r.pos == 0
       case Fetch => r.pos == Min(PAGE_SIZE * r.sent, |f|)
       case WaitSlot(buf) => Carries(r, buf, f)
       case Fill(buf, i) => Carries(r, buf, f) && i <= |buf|
       case ReaderDone => PAGE_SIZE * r.sent >= |f|
  }

  ghost predicate Carries(r: Reader, buf: seq<byte>, f: seq<byte>) {
    PAGE_SIZE * r.sent < |f| && buf == Chunk(f, r.sent) && r.pos == PAGE_SIZE * r.sent + |buf|
  }

  ghost predicate EncryptOk(e: Encrypt, size: nat) {
    && e.slot == e.ciphered % BUFFERS
    && e.left == Rest(size, e.ciphered)
    && match e.pc
       case EncryptTest => e.left > 0 ==> e.key == PAGE_SIZE * e.ciphered % KEY_LEN
       case WaitPlain(n) => e.left > 0 && n == ChunkLen(size, e.ciphered) && e.key == PAGE_SIZE * e.ciphered % KEY_LEN
       case Xor(n, i) =>
         e.left > 0 && n == ChunkLen(size, e.ciphered) && i <= n && e.key == (PAGE_SIZE * e.ciphered + i) % KEY_LEN
       case EncryptDone => e.left == 0
  }

  /** Chunks the writer has put out: the one in its private buffer is already signalled. */
  function Written(w: Writer): nat {
    if w.pc.Emit? && w.taken > 0 then w.taken - 1 else w.taken
  }

  ghost predicate WriterOk(w: Writer, out: seq<byte>, cipher: seq<byte>) {
    && w.slot == Written(w) % BUFFERS
    && w.left == Rest(|cipher|, Written(w))
    && out == cipher[..|cipher| - w.left]
    && match w.pc
       case WriterTest => true
       case WaitCipher(n) => w.left > 0 && n == ChunkLen(|cipher|, w.taken)
       case Drain(n, buf) =>
         w.left > 0 && n == ChunkLen(|cipher|, w.taken) && |buf| <= n && buf == Chunk(cipher, w.taken)[..|buf|]
       case Emit(n, buf) =>
         w.left > 0 && w.taken > 0 && n == ChunkLen(|cipher|, w.taken - 1) && buf == Chunk(cipher, w.taken - 1)
       case WriterDone => w.left == 0
  }

  /** How many bytes of the chunk that it works on a process has dealt with. */
  function Filled(r: Reader): nat {
    if r.pc.Fill? then r.pc.i else 0
  }

  function Xored(e: Encrypt): nat {
    if e.pc.Xor? then e.pc.i else 0
  }

  /** What byte `j` of chunk `c` is, once `ciphered` chunks and `xored` bytes are under the key. */
  function Expected(key: Key, f: seq<byte>, c: nat, j: nat, ciphered: nat, xored: nat): byte
    requires PAGE_SIZE * c + j < |f|
  {
    var o := PAGE_SIZE * c + j;
    if c < ciphered || (c == ciphered && j < xored) then CipherByte(key, f[o], o) else f[o]
  }

  ghost predicate SlotsOk(slots: seq<seq<byte>>) {
    |slots| == BUFFERS && forall k :: 0 <= k < BUFFERS ==> |slots[k]| == PAGE_SIZE
  }

  function SlotByte(slots: seq<seq<byte>>, c: nat, j: nat): byte
    requires SlotsOk(slots) && j < PAGE_SIZE
  {
    slots[c % BUFFERS][j]
  }

  /**
   Every chunk between the writer and the reader is whole in its page, under the key as far
   as the encrypter has got, and the chunk being filled is there as far as the reader has got.
   */
  ghost predicate ChunksOk(
    slots: seq<seq<byte>>, key: Key, f: seq<byte>,
    taken: nat, ciphered: nat, xored: nat, sent: nat, filled: nat)
    requires SlotsOk(slots)
  {
    && (forall c: nat, j: nat :: taken <= c < sent && j < ChunkLen(|f|, c) ==>
         SlotByte(slots, c, j) == Expected(key, f, c, j, ciphered, xored))
    && (forall j: nat :: j < filled && j < ChunkLen(|f|, sent) ==>
         SlotByte(slots, sent, j) == f[PAGE_SIZE * sent + j])
  }

  ghost predicate Inv(s: State, key: Key, f: seq<byte>) {
    && SlotsOk(s.slots)
    && Tokens(s)
    && ReaderOk(s.r, f) && EncryptOk(s.e, |f|) && WriterOk(s.w, s.out, Cipher(key, f))
    && ChunksOk(s.slots, key, f, s.w.taken, s.e.ciphered, Xored(s.e), s.r.sent, Filled(s.r))
  }
}
