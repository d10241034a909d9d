/** Facts about integer division that the solver does not find by itself. */
module DivMod {

  lemma DivModUnique(x: int, d: int, q: int, r: int)
    requires d > 0 && x == q * d + r && 0 <= r < d
    ensures x / d == q && x % d == r
  {
    var k := q - x / d;
    assert x == (x / d) * d + x % d;
    assert k * d == q * d - (x / d) * d;
    if k >= 1 { MulMono(1, k, d); } else if k <= -1 { MulMono(k, -1, d); }
  }

  lemma MulMono(a: int, b: int, d: int)
    requires a <= b && d >= 0
    ensures a * d <= b * d
  {
    assert (b - a) * d >= 0;
    assert (b - a) * d == b * d - a * d;
  }

  /** Adding a multiple of the divisor keeps the remainder. */
  lemma ModShift(x: int, k: int, d: int)
    requires d > 0
    ensures (x + k * d) % d == x % d && (x + k * d) / d == x / d + k
  {
    assert x == (x / d) * d + x % d;
    assert (x / d + k) * d == (x / d) * d + k * d;
    DivModUnique(x + k * d, d, x / d + k, x % d);
  }

  /** A remainder modulo a multiple of `d` has the same remainder modulo `d`. */
  lemma ModOfMod(x: int, m: int, d: int)
    requires d > 0 && m > 0 && m % d == 0
    ensures (x % m) % d == x % d
  {
    var k := m / d;
    assert m == k * d;
    var q := x / m;
    assert x == q * m + x % m;
    assert q * m == q * (k * d) == (q * k) * d;
    ModShift(x % m, q * k, d);
  }

  /** `x` lies in the block of `d` numbers that starts at `q * d` iff its quotient is `q`. */
  lemma BlockOf(x: int, d: int, q: int)
    requires d > 0
    ensures q * d <= x < q * d + d <==> x / d == q
  {
    if q * d <= x < q * d + d { DivModUnique(x, d, q, x - q * d); }
  }

  /** Quotients respect the order, and multiples of the divisor are exact borders. */
  lemma DivBorder(x: int, d: int, q: int)
    requires d > 0
    ensures q * d <= x <==> q <= x / d
  {
    var p := x / d;
    assert x == p * d + x % d;
    if q <= p { MulMono(q, p, d); } else { MulMono(p + 1, q, d); assert (p + 1) * d == p * d + d; }
  }
}
