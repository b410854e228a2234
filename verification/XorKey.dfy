/**
 The repeating-key cipher of `memkrypto.c` and `krypto.c`, for any key of the program's
 length, and the program's own key.
 */
module XorKey {
  import opened Common

  const KEY_LEN: nat := 32

  type Key = k: seq<byte> | |k| == KEY_LEN witness seq(KEY_LEN, _ => 0)

  /** One byte of the stream, at offset `i`, under the repeating key. */
  function CipherByte(key: Key, b: byte, i: nat): byte {
    b ^ key[i % KEY_LEN]
  }

  /** A whole file under the repeating key. */
  function Cipher(key: Key, f: seq<byte>): (c: seq<byte>)
    ensures |c| == |f|
  {
    seq(|f|, i requires 0 <= i < |f| => CipherByte(key, f[i], i))
  }

  lemma XorEqual(a: byte, k: byte, l: byte)
    ensures (a ^ k) ^ l == a <==> k == l
  {
  }

  // ---- restarting the key --------------------------------------------------------------------

  function KeyAt(key: Key, i: nat): byte {
    key[i % KEY_LEN]
  }

  /** A key restarted at offset `o` of the stream gives the same `n` bytes as the running key. */
  ghost predicate InStep(key: Key, o: nat, n: nat) {
    forall i: nat {:trigger KeyAt(key, o + i)} :: i < n ==> KeyAt(key, i) == KeyAt(key, o + i)
  }

  lemma KeyShift(o: nat, i: nat)
    ensures o % KEY_LEN == 0 ==> (o + i) % KEY_LEN == i % KEY_LEN
    ensures (o + KEY_LEN - 1) % KEY_LEN == KEY_LEN - 1 ==> o % KEY_LEN == 0
  {
    var q, r := o / KEY_LEN, i / KEY_LEN;
    assert o == KEY_LEN * q + o % KEY_LEN && i == KEY_LEN * r + i % KEY_LEN;
  }

  /** The last byte occurs nowhere else in the key. */
  ghost predicate LastUnique(key: Key) {
    forall i :: 0 <= i < KEY_LEN - 1 ==> key[i] != key[KEY_LEN - 1]
  }

  /** For a block of at least one key length that is exactly when it starts at a multiple of the key length. */
  lemma InStepExactly(key: Key, o: nat, n: nat)
    requires LastUnique(key)
    ensures o % KEY_LEN == 0 ==> InStep(key, o, n)
    ensures n >= KEY_LEN ==> (InStep(key, o, n) <==> o % KEY_LEN == 0)
  {
    if o % KEY_LEN == 0 {
      forall i: nat | i < n ensures KeyAt(key, i) == KeyAt(key, o + i) {
        KeyShift(o, i);
      }
    } else if n >= KEY_LEN && InStep(key, o, n) {
      assert KeyAt(key, 31) == KeyAt(key, o + 31);
      KeyShift(o, 0);
    }
  }

  const PROGRAM_KEY: Key := [
    115, 111, 121, 117, 110, 97, 99, 108, 97, 118, 101, 114, 101, 100, 105, 102,
    105, 99, 105, 108, 100, 101, 100, 101, 115, 99, 105, 102, 114, 97, 114, 33]

  /** The program's key ends in its only exclamation mark. */
  lemma ProgramKeyLast()
    ensures LastUnique(PROGRAM_KEY)
  {
    assert forall i :: 0 <= i < KEY_LEN - 1 ==> PROGRAM_KEY[i] != 33;
  }

  const KEY_TEXT: string := "soyunaclaveredificildedescifrar!"

  /** Byte `i` of the key is the code of character `i` of its text. */
  predicate Spells(i: nat)
    requires i < KEY_LEN
  {
    PROGRAM_KEY[i] as int == KEY_TEXT[i] as int
  }

  lemma Quarter1()
    ensures forall i: nat :: 0 <= i < 8 ==> Spells(i)
  {
    assert Spells(0) && Spells(1) && Spells(2) && Spells(3) && Spells(4) && Spells(5) && Spells(6) && Spells(7);
  }

  lemma Quarter2()
    ensures forall i: nat :: 8 <= i < 16 ==> Spells(i)
  {
    assert Spells(8) && Spells(9) && Spells(10) && Spells(11) && Spells(12) && Spells(13) && Spells(14) && Spells(15);
  }

  lemma Quarter3()
    ensures forall i: nat :: 16 <= i < 24 ==> Spells(i)
  {
    assert Spells(16) && Spells(17) && Spells(18) && Spells(19) && Spells(20) && Spells(21) && Spells(22) && Spells(23);
  }

  lemma Quarter4()
    ensures forall i: nat :: 24 <= i < 32 ==> Spells(i)
  {
    assert Spells(24) && Spells(25) && Spells(26) && Spells(27) && Spells(28) && Spells(29) && Spells(30) && Spells(31);
  }

  lemma KeyText()
    ensures |KEY_TEXT| == KEY_LEN && forall i: nat :: i < KEY_LEN ==> Spells(i)
  {
    Quarter1();
    Quarter2();
    Quarter3();
    Quarter4();
  }
}
