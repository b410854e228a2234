/** Facts about multiplication and division by a quantity that is not a literal. */
module Arith {

  function Mul(a: nat, b: nat): nat {
    a * b
  }

  function Div(a: nat, b: nat): nat
    requires b > 0
  {
    a / b
  }

  function Mod(a: nat, b: nat): nat
    requires b > 0
  {
    a % b
  }

  lemma Multiples(p: int, q: int, c: nat)
    requires p < q
    ensures p * c + c <= q * c
  {
    assert (q - p) * c == q * c - p * c;
    assert (q - p - 1) * c >= 0;
  }

  /** Quotient and remainder are unique. */
  lemma DivModUnique(x: int, c: nat, q: int, r: int)
    requires c > 0 && x == q * c + r && 0 <= r < c
    ensures x / c == q && x % c == r
  {
    var p := x / c;
    assert x == p * c + x % c;
    if p < q {
      Multiples(p, q, c);
    } else if q < p {
      Multiples(q, p, c);
    }
  }

  lemma DivModBack(a: nat, b: nat)
    requires b > 0
    ensures a == Mul(Div(a, b), b) + Mod(a, b) && Mod(a, b) < b
  {
  }

  lemma MulDistribute(a: nat, b: nat, c: nat)
    ensures Mul(a + b, c) == Mul(a, c) + Mul(b, c)
  {
  }

  lemma ModAdd(x: int, k: int, c: nat)
    requires c > 0
    ensures (x % c + k) % c == (x + k) % c
  {
    var y := x % c + k;
    assert x == (x / c) * c + x % c;
    assert y == (y / c) * c + y % c;
    assert x + k == (x / c + y / c) * c + y % c;
    DivModUnique(x + k, c, x / c + y / c, y % c);
  }

  lemma Distribute(a: int, b: int, c: int)
    ensures (a + b) * c == a * c + b * c
  {
  }

  lemma Associate(a: int, b: int, c: int)
    ensures a * b * c == a * (b * c)
  {
  }
}
