/** Stock types and the machine arithmetic of the C sources. */
module Basics {

  datatype Option<+T> = None | Some(value: T)

  const TWO_TO_THE_32: int := 0x1_0000_0000
  const TWO_TO_THE_64: int := 0x1_0000_0000_0000_0000

  /** `unsigned long long int` */
  type U64 = x: int | 0 <= x < 0x1_0000_0000_0000_0000

  /** The value an `unsigned long long` expression takes: wrap-around modulo 2^64. */
  function Wrap(x: int): U64 {
    x % 0x1_0000_0000_0000_0000
  }

  /** C division of unsigned values. A zero divisor traps in C; the model goes on with 0,
      so that a statement about all runs also covers the states after which C would have stopped. */
  function Div(a: nat, b: nat): nat {
    if b == 0 then 0 else a / b
  }

  function Max(a: int, b: int): int {
    if a < b then b else a
  }

  function Min(a: int, b: int): int {
    if a < b then a else b
  }

  // ---- division and remainder -------------------------------------------------------------------

  lemma MulMono(x: int, y: int, a: nat)
    requires x <= y
    ensures x * a <= y * a
  {
  }

  lemma QuotientBounds(x: nat, a: nat)
    requires a > 0
    ensures (x / a) * a <= x < (x / a + 1) * a
  {
    assert x == a * (x / a) + x % a;
    assert (x / a + 1) * a == (x / a) * a + a;
  }

  lemma QuotientUnique(x: nat, a: nat, q: nat)
    requires a > 0
    requires q * a <= x < (q + 1) * a
    ensures x / a == q
  {
    QuotientBounds(x, a);
    var p := x / a;
    if p < q {
      MulMono(p + 1, q, a);
      assert false;
    } else if q < p {
      MulMono(q + 1, p, a);
      assert false;
    }
  }

  lemma Distribute(q: int, W: int)
    ensures (q + 1) * W == q * W + W
  {
  }

  lemma DivModUnique(n: nat, W: nat, q: nat, r: nat)
    requires W >= 1 && r < W && n == q * W + r
    ensures n / W == q && n % W == r
  {
    Distribute(q, W);
    QuotientUnique(n, W, q);
  }

  lemma Reassociate(x: int, y: nat, z: nat)
    ensures (x * y) * z == x * (z * y)
    ensures y > 0 && z > 0 ==> z * y > 0
  {
  }

  lemma Distributes(x: int, y: int, a: int)
    ensures (x + y) * a == x * a + y * a
  {
  }

  /** A remainder modulo a multiple has the same remainder. */
  lemma ModMod(x: nat, a: nat, k: nat)
    requires a > 0 && k > 0
    ensures k * a > 0 && (x % (k * a)) % a == x % a
  {
    Reassociate(1, k, a);
    var m := k * a;
    var q, r := x / m, x % m;
    DivModParts(x, m);
    DivModParts(r, a);
    SameRemainder(x, a, k, q, r / a, r % a);
  }

  lemma SameRemainder(x: nat, a: nat, k: nat, q: nat, p: nat, t: nat)
    requires x == q * (k * a) + (p * a + t) && t < a
    ensures x % a == t
  {
    Reassociate(q, k, a);
    Distributes(q * k, p, a);
    DivModUnique(x, a, q * k + p, t);
  }

  lemma DivModParts(n: nat, d: nat)
    requires d > 0
    ensures n == (n / d) * d + n % d && n % d < d
  {
  }

  lemma NestedDivision(x: nat, a: nat, b: nat)
    requires a > 0 && b > 0
    ensures a * b > 0
    ensures x / a / b == x / (a * b)
  {
    var q := x / a;
    var r := q / b;
    QuotientBounds(x, a);
    QuotientBounds(q, b);
    assert r * b <= q && q + 1 <= (r + 1) * b;
    MulMono(r * b, q, a);
    MulMono(q + 1, (r + 1) * b, a);
    Reassociate(r, b, a);
    Reassociate(r + 1, b, a);
    QuotientUnique(x, a * b, r);
  }
}
