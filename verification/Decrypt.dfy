/**
 `decrypt.c`: undoes the cipher, one `read` at a time, restarting the key at every read. How
 many bytes each `read` yields is up to the host system.
 */
module Decrypt {
  import opened Common
  import opened XorKey

  const BUF_SIZE: nat := 1024

  function DecryptBlock(key: Key, b: seq<byte>): (p: seq<byte>)
    ensures |p| == |b|
  {
    seq(|b|, i requires 0 <= i < |b| => b[i] ^ KeyAt(key, i))
  }

  /** The reads consume the file from offset `o` to its end, and none but the last is empty. */
  ghost predicate Reads(size: nat, o: nat, sizes: seq<nat>)
    decreases |sizes|
  {
    if sizes == [] then o == size
    else 0 < sizes[0] <= BUF_SIZE && Reads(size, o + sizes[0], sizes[1..])
  }

  lemma {:induction false} ReadsWithin(size: nat, o: nat, sizes: seq<nat>)
    requires Reads(size, o, sizes)
    ensures o <= size
    decreases |sizes|
  {
    if sizes != [] {
      ReadsWithin(size, o + sizes[0], sizes[1..]);
    }
  }

  function DecryptFrom(key: Key, c: seq<byte>, o: nat, sizes: seq<nat>): seq<byte>
    requires Reads(|c|, o, sizes)
    decreases |sizes|
  {
    if sizes == [] then []
    else
      ReadsWithin(|c|, o + sizes[0], sizes[1..]);
      DecryptBlock(key, c[o..o + sizes[0]]) + DecryptFrom(key, c, o + sizes[0], sizes[1..])
  }

  /** `i` bytes of the block in the buffer have been decrypted in place. */
  ghost predicate Halfway(key: Key, now: seq<byte>, was: seq<byte>, i: nat) {
    && |now| == |was| && i <= |was|
    && (forall j :: 0 <= j < i ==> now[j] == was[j] ^ KeyAt(key, j))
    && (forall j :: i <= j < |was| ==> now[j] == was[j])
  }

  /** The inner loop; `out` is what has been written to the standard output. */
  method DecryptBuffer(key: Key, buf: array<byte>, n: nat, out: seq<byte>) returns (out': seq<byte>)
    requires n <= buf.Length
    modifies buf
    ensures out' == out + DecryptBlock(key, old(buf[..n]))
  {
    out' := out;
    ghost var was := buf[..n];
    var i := 0;
    while i < n
      invariant 0 <= i <= n
      invariant Halfway(key, buf[..n], was, i)
      invariant out' == out + DecryptBlock(key, was)[..i]
    {
      buf[i] := buf[i] ^ key[i % |key|];
      out' := out' + [buf[i]];
      i := i + 1;
    }
  }

  /** `read`: the next bytes of the file arrive in the buffer. */
  method Read(c: seq<byte>, o: nat, buf: array<byte>, n: nat)
    requires o + n <= |c| && n <= buf.Length
    modifies buf
    ensures buf[..n] == c[o..o + n]
  {
    forall i | 0 <= i < n {
      buf[i] := c[o + i];
    }
  }

  lemma DecryptNext(key: Key, c: seq<byte>, o: nat, sizes: seq<nat>)
    requires Reads(|c|, o, sizes) && sizes != []
    ensures o + sizes[0] <= |c| && Reads(|c|, o + sizes[0], sizes[1..])
    ensures DecryptFrom(key, c, o, sizes)
         == DecryptBlock(key, c[o..o + sizes[0]]) + DecryptFrom(key, c, o + sizes[0], sizes[1..])
  {
    ReadsWithin(|c|, o + sizes[0], sizes[1..]);
  }

  /** One turn of the outer loop. */
  method DecryptTurn(key: Key, c: seq<byte>, o: nat, rest: seq<nat>, buf: array<byte>, out: seq<byte>) returns (out': seq<byte>)
    requires rest != [] && rest[0] <= buf.Length && Reads(|c|, o, rest)
    modifies buf
    ensures o + rest[0] <= |c| && Reads(|c|, o + rest[0], rest[1..])
    ensures out' + DecryptFrom(key, c, o + rest[0], rest[1..]) == out + DecryptFrom(key, c, o, rest)
  {
    DecryptNext(key, c, o, rest);
    Read(c, o, buf, rest[0]);
    out' := DecryptBuffer(key, buf, rest[0], out);
  }

  /** The whole program. */
  method DecryptFile(key: Key, c: seq<byte>, sizes: seq<nat>) returns (out: seq<byte>)
    requires Reads(|c|, 0, sizes)
    ensures out == DecryptFrom(key, c, 0, sizes)
  {
    var buf := new byte[BUF_SIZE];
    out := [];
    var o, rest := 0, sizes;
    while rest != []
      invariant Reads(|c|, o, rest)
      invariant out + DecryptFrom(key, c, o, rest) == DecryptFrom(key, c, 0, sizes)
      decreases |rest|
    {
      out := DecryptTurn(key, c, o, rest, buf, out);
      o, rest := o + rest[0], rest[1..];
    }
  }

  // ---- when it undoes the cipher ------------------------------------------------------------------

  lemma CipherAt(key: Key, f: seq<byte>, o: nat, n: nat, i: nat)
    requires o + n <= |f| && i < n
    ensures Cipher(key, f)[o..o + n][i] == f[o + i] ^ KeyAt(key, o + i)
  {
  }

  lemma DecryptAt(key: Key, b: seq<byte>, i: nat)
    requires i < |b|
    ensures DecryptBlock(key, b)[i] == b[i] ^ KeyAt(key, i)
  {
  }

  /** A byte comes back exactly when both keys agree on it. */
  lemma ByteInverts(f: byte, k: byte, l: byte, c: byte, p: byte)
    requires c == f ^ k && p == c ^ l
    ensures p == f <==> l == k
  {
    XorEqual(f, k, l);
  }

  lemma BlockByteInverts(key: Key, f: seq<byte>, o: nat, n: nat, i: nat)
    requires o + n <= |f| && i < n
    ensures DecryptBlock(key, Cipher(key, f)[o..o + n])[i] == f[o + i] <==> KeyAt(key, i) == KeyAt(key, o + i)
  {
    var c := Cipher(key, f)[o..o + n];
    CipherAt(key, f, o, n, i);
    DecryptAt(key, c, i);
    ByteInverts(f[o + i], KeyAt(key, o + i), KeyAt(key, i), c[i], DecryptBlock(key, c)[i]);
  }

  lemma BlockInverts(key: Key, f: seq<byte>, o: nat, n: nat)
    requires o + n <= |f|
    ensures DecryptBlock(key, Cipher(key, f)[o..o + n]) == f[o..o + n] <==> InStep(key, o, n)
  {
    var c := Cipher(key, f)[o..o + n];
    var p, b := DecryptBlock(key, c), f[o..o + n];
    forall i: nat | i < n ensures p[i] == b[i] <==> KeyAt(key, i) == KeyAt(key, o + i) {
      BlockByteInverts(key, f, o, n, i);
    }
    InStepEqual(key, o, n, p, b);
  }

  lemma InStepEqual(key: Key, o: nat, n: nat, p: seq<byte>, b: seq<byte>)
    requires |p| == |b| == n
    requires forall i: nat :: i < n ==> (p[i] == b[i] <==> KeyAt(key, i) == KeyAt(key, o + i))
    ensures p == b <==> InStep(key, o, n)
  {
    if InStep(key, o, n) {
      forall i: nat | i < n ensures p[i] == b[i] {
        assert KeyAt(key, i) == KeyAt(key, o + i);
      }
    }
  }

  ghost predicate AllInStep(key: Key, o: nat, sizes: seq<nat>)
    decreases |sizes|
  {
    sizes == [] || (InStep(key, o, sizes[0]) && AllInStep(key, o + sizes[0], sizes[1..]))
  }

  /** The file comes back exactly when the key of every block is in step with the stream. */
  lemma {:induction false} DecryptInverts(key: Key, f: seq<byte>, o: nat, sizes: seq<nat>)
    requires Reads(|f|, o, sizes) && o <= |f|
    ensures DecryptFrom(key, Cipher(key, f), o, sizes) == f[o..] <==> AllInStep(key, o, sizes)
    decreases |sizes|
  {
    if sizes != [] {
      var n := sizes[0];
      ReadsWithin(|f|, o + n, sizes[1..]);
      BlockInverts(key, f, o, n);
      DecryptInverts(key, f, o + n, sizes[1..]);
      var p := DecryptBlock(key, Cipher(key, f)[o..o + n]);
      var q := DecryptFrom(key, Cipher(key, f), o + n, sizes[1..]);
      assert f[o..] == f[o..o + n] + f[o + n..];
      assert p + q == f[o..] ==> p == (p + q)[..n] == f[o..o + n] && q == (p + q)[n..] == f[o + n..];
    }
  }

  /** Every read starts at a multiple of the key length. */
  ghost predicate AllAligned(o: nat, sizes: seq<nat>)
    decreases |sizes|
  {
    sizes == [] || (o % KEY_LEN == 0 && AllAligned(o + sizes[0], sizes[1..]))
  }

  ghost predicate AllLong(sizes: seq<nat>) {
    forall k :: 0 <= k < |sizes| ==> sizes[k] >= KEY_LEN
  }

  lemma {:induction false} AlignedInStep(key: Key, o: nat, sizes: seq<nat>)
    requires LastUnique(key)
    ensures AllAligned(o, sizes) ==> AllInStep(key, o, sizes)
    ensures AllLong(sizes) ==> (AllInStep(key, o, sizes) <==> AllAligned(o, sizes))
    decreases |sizes|
  {
    if sizes != [] {
      InStepExactly(key, o, sizes[0]);
      AlignedInStep(key, o + sizes[0], sizes[1..]);
      assert AllLong(sizes) ==> AllLong(sizes[1..]);
    }
  }

  /** With reads of at least one key length, exactly when every read starts at a multiple of it. */
  lemma DecryptNeedsAlignment(f: seq<byte>, sizes: seq<nat>)
    requires Reads(|f|, 0, sizes)
    ensures AllAligned(0, sizes) ==> DecryptFrom(PROGRAM_KEY, Cipher(PROGRAM_KEY, f), 0, sizes) == f
    ensures AllLong(sizes) ==>
      (DecryptFrom(PROGRAM_KEY, Cipher(PROGRAM_KEY, f), 0, sizes) == f <==> AllAligned(0, sizes))
  {
    ProgramKeyLast();
    DecryptInverts(PROGRAM_KEY, f, 0, sizes);
    AlignedInStep(PROGRAM_KEY, 0, sizes);
    assert f[0..] == f;
  }

  /** Full reads up to the last, which is what a file on the host yields. */
  ghost predicate FullReads(sizes: seq<nat>) {
    forall k :: 0 <= k < |sizes| - 1 ==> sizes[k] == BUF_SIZE
  }

  lemma {:induction false} FullReadsAligned(o: nat, sizes: seq<nat>)
    requires FullReads(sizes) && o % KEY_LEN == 0
    ensures AllAligned(o, sizes)
    decreases |sizes|
  {
    if |sizes| > 1 {
      assert FullReads(sizes[1..]);
      FullReadsAligned(o + sizes[0], sizes[1..]);
    }
  }

  /** Then the file always comes back. */
  lemma FullReadsInvert(f: seq<byte>, sizes: seq<nat>)
    requires Reads(|f|, 0, sizes) && FullReads(sizes)
    ensures DecryptFrom(PROGRAM_KEY, Cipher(PROGRAM_KEY, f), 0, sizes) == f
  {
    FullReadsAligned(0, sizes);
    DecryptNeedsAlignment(f, sizes);
  }
}
