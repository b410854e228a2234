/**
 Printing and parsing of integers (`itostr`, `reverse` and `strtoi` of `utils_common.c`), on
 NUL-terminated strings in an array and with 32-bit two's-complement arithmetic.
 */
module Digits {
  import opened Arith

  const INT_MIN: int := -0x8000_0000
  const INT_MAX: int := 0x7fff_ffff
  const NUL: char := '\0'

  predicate IsInt(n: int) {
    INT_MIN <= n <= INT_MAX
  }

  /** The `int` that a computation leaves. */
  function Wrap(n: int): (r: int)
    ensures IsInt(r)
    ensures IsInt(n) ==> r == n
  {
    (n + 0x8000_0000) % 0x1_0000_0000 - 0x8000_0000
  }

  /** C division and remainder, which truncate. */
  function Div10(n: int): int {
    if n >= 0 then n / 10 else -((-n) / 10)
  }

  function Mod10(n: int): int {
    n - 10 * Div10(n)
  }

  predicate IsDigit(c: char) {
    '0' <= c <= '9'
  }

  function DigitChar(d: int): char
    requires -10 < d < 10
  {
    (d + 48) as char
  }

  // ---- the text of a number ---------------------------------------------------------------------

  /** Decimal digits, the last one first. */
  function Backwards(n: nat): (s: seq<char>)
    ensures |s| > 0
  {
    [DigitChar(n % 10)] + if n / 10 > 0 then Backwards(n / 10) else []
  }

  function Reversed(s: seq<char>): (r: seq<char>)
    ensures |r| == |s|
  {
    seq(|s|, i requires 0 <= i < |s| => s[|s| - 1 - i])
  }

  /** What `itostr` has in the buffer before it reverses it. */
  function Built(n: int): seq<char>
    requires IsInt(n)
  {
    if n >= 0 then Backwards(n)
    else if n == INT_MIN then [DigitChar(-8), '-']
    else Backwards(-n) + ['-']
  }

  function Text(n: int): seq<char>
    requires IsInt(n)
  {
    Reversed(Built(n))
  }

  // ---- strings in an array ------------------------------------------------------------------------

  /** The string that starts at `from` is `t`. */
  ghost predicate Holds(s: array<char>, from: nat, t: seq<char>)
    reads s
  {
    from + |t| < s.Length && s[from..from + |t|] == t && s[from + |t|] == NUL && NUL !in t
  }

  method Strlen(s: array<char>, from: nat, ghost t: seq<char>) returns (n: nat)
    requires Holds(s, from, t)
    ensures n == |t|
  {
    n := 0;
    while s[from + n] != NUL
      invariant n <= |t|
      decreases |t| - n
    {
      n := n + 1;
    }
    assert forall k :: 0 <= k < |t| ==> s[from + k] == t[k];
  }

  method Reverse(s: array<char>, ghost t: seq<char>)
    requires Holds(s, 0, t)
    modifies s
    ensures Holds(s, 0, Reversed(t))
  {
    var n := Strlen(s, 0, t);
    ghost var was := s[..];
    var i, j := 0, n - 1;
    while i < j
      invariant 0 <= i <= n && j == n - 1 - i && i <= j + 2
      invariant forall k :: 0 <= k < i ==> s[k] == was[n - 1 - k] && s[n - 1 - k] == was[k]
      invariant forall k :: i <= k <= j ==> s[k] == was[k]
      invariant forall k :: n <= k < s.Length ==> s[k] == was[k]
    {
      s[i], s[j] := s[j], s[i];
      i, j := i + 1, j - 1;
    }
    forall k | 0 <= k < n ensures s[k] == Reversed(t)[k] {
      assert was[..n] == t;
    }
  }

  /** The digit loop of `itostr`, for a number that is not negative. */
  method PutDigits(n: nat, s: array<char>) returns (i: nat)
    requires |Backwards(n)| <= s.Length
    modifies s
    ensures i == |Backwards(n)| && s[..i] == Backwards(n)
  {
    s[0] := DigitChar(n % 10);
    i := 1;
    var rest: nat := n / 10;
    while rest > 0
      invariant 1 <= i <= |Backwards(n)| <= s.Length
      invariant s[..i] + Left(rest) == Backwards(n)
      decreases rest
    {
      ghost var done := s[..i];
      s[i] := DigitChar(rest % 10);
      assert s[..i + 1] == done + [DigitChar(rest % 10)];
      More(done, rest);
      i, rest := i + 1, rest / 10;
    }
  }

  /** The digits that are still to come. */
  function Left(n: nat): seq<char> {
    if n > 0 then Backwards(n) else []
  }

  lemma More(done: seq<char>, n: nat)
    requires n > 0
    ensures done + [DigitChar(n % 10)] + Left(n / 10) == done + Left(n)
  {
    assert Left(n) == [DigitChar(n % 10)] + Left(n / 10);
  }

  /** `itostr`. */
  method Itostr(n0: int, s: array<char>)
    requires IsInt(n0) && |Text(n0)| < s.Length
    modifies s
    ensures Holds(s, 0, Text(n0))
  {
    var n, sign, i := n0, n0, 0;
    if sign < 0 {
      n := Wrap(-n);
    }
    if n >= 0 {
      i := PutDigits(n, s);
    } else {
      s[0] := DigitChar(Mod10(n));
      i := 1;
    }
    if sign < 0 {
      s[i] := '-';
      i := i + 1;
    }
    s[i] := NUL;
    assert s[..i] == Built(n0);
    NoNul(n0);
    Reverse(s, Built(n0));
  }

  lemma {:induction false} DigitsOnly(n: nat)
    ensures forall i :: 0 <= i < |Backwards(n)| ==> IsDigit(Backwards(n)[i])
  {
    if n / 10 > 0 {
      DigitsOnly(n / 10);
    }
  }

  lemma NoNul(n: int)
    requires IsInt(n)
    ensures NUL !in Built(n)
  {
    if n >= 0 {
      DigitsOnly(n);
    } else {
      DigitsOnly(-n);
    }
  }

  // ---- parsing --------------------------------------------------------------------------------------

  /** The loop of `strtoi` from position `i` on; the end of the string counts as a character. */
  function ParseFrom(t: seq<char>, i: nat, num: int, neg: bool): int
    requires i <= |t| + 1
    decreases |t| + 1 - i
  {
    if i < |t| && IsDigit(t[i]) then ParseFrom(t, i + 1, Wrap(num * 10 + t[i] as int - 48), neg)
    else if i == 0 && |t| > 0 && t[0] == '-' then ParseFrom(t, 1, num, true)
    else if neg then Wrap(-num) else num
  }

  function Parse(t: seq<char>): int {
    if t != [] && t[0] == ' ' then Parse(t[1..]) else ParseFrom(t, 0, 0, false)
  }

  /** `strtoi`. */
  method Strtoi(s: array<char>, ghost t: seq<char>) returns (r: int)
    requires Holds(s, 0, t)
    ensures r == Parse(t)
  {
    var str := 0;
    ghost var rest := t;
    while s[str] == ' '
      invariant Holds(s, str, rest) && Parse(rest) == Parse(t)
      decreases |rest|
    {
      assert rest != [] && rest[0] == s[str];
      assert s[str + 1..str + 1 + |rest[1..]|] == rest[1..];
      str, rest := str + 1, rest[1..];
    }
    assert rest != [] ==> rest[0] == s[str];
    r := ParseDigits(s, str, rest);
  }

  method ParseDigits(s: array<char>, str: nat, ghost t: seq<char>) returns (r: int)
    requires Holds(s, str, t)
    ensures r == ParseFrom(t, 0, 0, false)
  {
    var len := Strlen(s, str, t);
    var num, neg, i := 0, false, 0;
    while i <= len
      invariant 0 <= i <= len + 1
      invariant ParseFrom(t, i, num, neg) == ParseFrom(t, 0, 0, false)
      invariant i == len + 1 ==> false
      decreases len + 1 - i
    {
      assert i < len ==> s[str + i] == t[i];
      if IsDigit(s[str + i]) {
        num := Wrap(num * 10 + s[str + i] as int - 48);
      } else if i == 0 && s[str] == '-' {
        neg := true;
      } else {
        break;
      }
      i := i + 1;
    }
    r := if neg then Wrap(-num) else num;
  }

  // ---- the round trip -------------------------------------------------------------------------------

  lemma ReversedCons(x: char, s: seq<char>)
    ensures Reversed([x] + s) == Reversed(s) + [x]
  {
  }

  lemma ReversedStep(n: nat)
    ensures Reversed(Backwards(n)) == Reversed(Left(n / 10)) + [DigitChar(n % 10)]
  {
    assert Backwards(n) == [DigitChar(n % 10)] + Left(n / 10);
    ReversedCons(DigitChar(n % 10), Left(n / 10));
  }

  lemma TextOfPositive(n: nat)
    requires n <= INT_MAX
    ensures Parse(Text(n)) == n
  {
    TextValue(n);
    ParseExactly(0, false, Text(n), []);
    assert Spaces(0) + Sign(false) + Text(n) + [] == Text(n);
  }

  lemma TextOfNegative(n: int)
    requires INT_MIN < n < 0
    ensures Parse(Text(n)) == n
  {
    TextCanonical(n);
    TextValue(-n);
    ParseExactly(0, true, Text(-n), []);
    assert Spaces(0) + Sign(true) + Text(-n) + [] == Text(n);
  }

  lemma TextOfLeast()
    ensures Text(INT_MIN) == ['-', '('] && Parse(Text(INT_MIN)) == 0
  {
    var t := Text(INT_MIN);
    assert t == ['-', '('];
    assert ParseFrom(t, 1, 0, true) == 0;
  }

  /** A number comes back from its text exactly if it is not the least one. */
  lemma RoundTrip(n: int)
    requires IsInt(n)
    ensures Parse(Text(n)) == n <==> n != INT_MIN
  {
    if n >= 0 {
      TextOfPositive(n);
    } else if n == INT_MIN {
      TextOfLeast();
    } else {
      TextOfNegative(n);
    }
  }

  // ---- no other text ---------------------------------------------------------------------------------

  lemma {:induction false} FirstDigit(n: nat)
    ensures var s := Backwards(n); s[|s| - 1] == '0' <==> n == 0
    ensures n < 10 ==> |Backwards(n)| == 1
  {
    if n / 10 > 0 {
      FirstDigit(n / 10);
    }
  }

  lemma ReversedAppend(s: seq<char>, x: char)
    ensures Reversed(s + [x]) == [x] + Reversed(s)
  {
  }

  lemma TextDigits(n: nat)
    requires n <= INT_MAX
    ensures forall i :: 0 <= i < |Text(n)| ==> IsDigit(Text(n)[i])
    ensures Text(n)[0] == '0' <==> n == 0
  {
    DigitsOnly(n);
    FirstDigit(n);
  }

  /** A sign exactly for numbers below zero, then digits, of which the first is a zero only for zero itself. */
  lemma TextCanonical(n: int)
    requires IsInt(n) && n != INT_MIN
    ensures n >= 0 ==> (forall i :: 0 <= i < |Text(n)| ==> IsDigit(Text(n)[i])) && (Text(n)[0] == '0' <==> n == 0)
    ensures n == 0 ==> Text(n) == "0"
    ensures n < 0 ==> Text(n) == ['-'] + Text(-n)
  {
    if n >= 0 {
      TextDigits(n);
      FirstDigit(n);
    } else {
      ReversedAppend(Backwards(-n), '-');
    }
  }

  /** Where parsing meets a text of that form, its digits stand for their decimal value. */
  function Value(d: seq<char>): nat
    requires forall i :: 0 <= i < |d| ==> IsDigit(d[i])
  {
    if d == [] then 0
    else
      assert IsDigit(d[|d| - 1]);
      10 * Value(d[..|d| - 1]) + (d[|d| - 1] as nat - 48)
  }

  lemma ValueNext(d: seq<char>, c: char)
    requires (forall i :: 0 <= i < |d| ==> IsDigit(d[i])) && IsDigit(c)
    ensures forall i :: 0 <= i < |d + [c]| ==> IsDigit((d + [c])[i])
    ensures Value(d + [c]) == 10 * Value(d) + (c as int - 48)
  {
    assert (d + [c])[..|d|] == d;
  }

  lemma TextNext(n: nat)
    requires n <= INT_MAX
    ensures Text(n) == (if n / 10 > 0 then Text(n / 10) else []) + [DigitChar(n % 10)]
  {
    ReversedStep(n);
  }

  lemma LastDigit(n: nat)
    ensures IsDigit(DigitChar(n % 10)) && DigitChar(n % 10) as int - 48 == n - 10 * (n / 10)
  {
  }

  lemma {:induction false} TextValue(n: nat)
    requires n <= INT_MAX
    ensures (forall i :: 0 <= i < |Text(n)| ==> IsDigit(Text(n)[i])) && Value(Text(n)) == n
  {
    TextNext(n);
    LastDigit(n);
    var d := if n / 10 > 0 then Text(n / 10) else [];
    if n / 10 > 0 {
      TextValue(n / 10);
    }
    ValueNext(d, DigitChar(n % 10));
  }

  // ---- any string ----------------------------------------------------------------------------------

  ghost predicate AllDigits(d: seq<char>) {
    forall i :: 0 <= i < |d| ==> IsDigit(d[i])
  }

  /** Wrapping in between makes no difference. */
  lemma WrapStep(v: int, c: int)
    ensures Wrap(Wrap(v) * 10 + c) == Wrap(v * 10 + c)
    ensures Wrap(-Wrap(v)) == Wrap(-v)
  {
    var q := (v + 0x8000_0000) / 0x1_0000_0000;
    assert Wrap(v) == v - q * 0x1_0000_0000;
    WrapPeriod(v * 10 + c, -10 * q);
    WrapPeriod(-v, q);
  }

  lemma WrapPeriod(v: int, q: int)
    ensures Wrap(v + q * 0x1_0000_0000) == Wrap(v)
  {
    var x := v + 0x8000_0000;
    DivModUnique(x + q * 0x1_0000_0000, 0x1_0000_0000, x / 0x1_0000_0000 + q, x % 0x1_0000_0000);
  }

  /** After `m` digits behind a prefix, the number so far is their value. */
  lemma {:induction false} ParseUpTo(p: seq<char>, d: seq<char>, q: seq<char>, neg: bool, m: nat)
    requires AllDigits(d) && m <= |d| && |p| <= 1
    ensures ParseFrom(p + d + q, |p|, 0, neg) == ParseFrom(p + d + q, |p| + m, Wrap(Value(d[..m])), neg)
  {
    if m > 0 {
      ParseUpTo(p, d, q, neg, m - 1);
      var t := p + d + q;
      assert t[|p| + m - 1] == d[m - 1] && IsDigit(d[m - 1]);
      assert d[..m][..m - 1] == d[..m - 1];
      WrapStep(Value(d[..m - 1]), d[m - 1] as int - 48);
    }
  }

  /** What stops the parse behind the digits: the end, or a character that continues neither sign nor number. */
  ghost predicate Stops(sign: bool, d: seq<char>, q: seq<char>) {
    q == [] || (!IsDigit(q[0]) && (d == [] && !sign ==> q[0] != '-' && q[0] != ' '))
  }

  function Sign(neg: bool): seq<char> {
    if neg then ['-'] else []
  }

  lemma ParseSigned(neg: bool, d: seq<char>, q: seq<char>)
    requires AllDigits(d) && Stops(neg, d, q)
    ensures ParseFrom(Sign(neg) + d + q, 0, 0, false) == Wrap(Signed(neg, Value(d)))
  {
    var p := Sign(neg);
    var t := p + d + q;
    assert d[..|d|] == d;
    ParseUpTo(p, d, q, neg, |d|);
    WrapStep(Value(d), 0);
    assert ParseFrom(t, 0, 0, false) == ParseFrom(t, |p|, 0, neg);
    assert |p| + |d| < |t| ==> t[|p| + |d|] == q[0];
  }

  function Signed(neg: bool, v: int): int {
    if neg then -v else v
  }

  function Spaces(n: nat): seq<char> {
    if n == 0 then [] else [' '] + Spaces(n - 1)
  }

  /**
   `strtoi` of any string, which is made of spaces, perhaps a sign, digits and a rest: the
   decimal value of the digits, with the sign, in 32 bits.
   */
  lemma {:induction false} ParseExactly(n: nat, neg: bool, d: seq<char>, q: seq<char>)
    requires AllDigits(d) && Stops(neg, d, q)
    ensures Parse(Spaces(n) + Sign(neg) + d + q) == Wrap(Signed(neg, Value(d)))
  {
    var t := Sign(neg) + d + q;
    if n == 0 {
      assert Spaces(0) + Sign(neg) + d + q == t;
      assert t != [] ==> t[0] == if neg then '-' else if d != [] then d[0] else q[0];
      ParseSigned(neg, d, q);
    } else {
      var u := Spaces(n) + Sign(neg) + d + q;
      assert u[0] == ' ' && u[1..] == Spaces(n - 1) + Sign(neg) + d + q;
      ParseExactly(n - 1, neg, d, q);
    }
  }
}
