/** The few facts about products and quotients that the address arithmetic needs. */
module Arithmetic {
  import opened Bytes

  lemma Distribute(a: int, b: int, d: int)
    ensures (a + b) * d == a * d + b * d
  {
  }

  lemma Nonneg(a: int, b: int)
    requires a >= 0 && b >= 0
    ensures a * b >= 0
  {
  }

  lemma DivMod(x: int, d: int)
    requires d > 0
    ensures x == (x / d) * d + x % d && 0 <= x % d < d
  {
  }

  lemma Compare(p: int, q: int, d: int)
    requires d > 0
    ensures p > q ==> p * d >= q * d + d
    ensures p < q ==> q * d >= p * d + d
  {
    if p > q { Distribute(q + 1, p - q - 1, d); Distribute(q, 1, d); Nonneg(p - q - 1, d); }
    if p < q { Distribute(p + 1, q - p - 1, d); Distribute(p, 1, d); Nonneg(q - p - 1, d); }
  }

  lemma ProductBound(a: int, b: int, c: int, d: int)
    requires 0 <= a <= b && 0 <= c <= d
    ensures a * c <= b * d
  {
    Distribute(a, b - a, c);
    Nonneg(b - a, c);
    assert b * d == b * c + b * (d - c);
    Nonneg(b, d - c);
  }

  lemma DivisionUnique(x: int, d: int, q: int, r: int)
    requires d > 0 && 0 <= r < d && x == q * d + r
    ensures x / d == q && x % d == r
  {
    DivMod(x, d);
    Compare(x / d, q, d);
  }

  lemma QuotientRange(x: int, d: int)
    requires d > 0 && x >= 0
    ensures 0 <= x / d && (x / d) * d <= x
    ensures x / d <= x
  {
    DivMod(x, d);
    Compare(x / d, -1, d);
    var q := x / d;
    if q >= 0 { Nonneg(q, d - 1); assert q * d == q * (d - 1) + q; }
  }

  /** A product under a name, so that proofs can treat it as one quantity. */
  function Times(a: nat, b: nat): nat {
    Nonneg(a, b);
    a * b
  }

  lemma TimesDivides(q: nat, d: nat)
    requires d > 0
    ensures Times(q, d) / d == q && Times(q, d) % d == 0
  {
    DivisionUnique(q * d, d, q, 0);
  }

  lemma TimesStep(q: nat, n: nat, d: nat)
    requires d > 0 && q < n
    ensures Times(q, d) + d <= Times(n, d)
  {
    Compare(n, q, d);
  }

  lemma HalveThenDivide(x: nat, d: nat)
    requires d > 0
    ensures x / (2 * d) == x / 2 / d
  {
    var h := x / 2;
    var q, r := h / d, h % d;
    DivMod(h, d);
    Rearrange(q, d);
    DivisionUnique(x, 2 * d, q, 2 * r + x % 2);
  }

  lemma Rearrange(q: int, d: int)
    ensures q * (2 * d) == 2 * (q * d)
  {
  }

  lemma {:induction false} Pow2Add(a: nat, b: nat)
    ensures Pow2(a + b) == Pow2(a) * Pow2(b)
  {
    if a > 0 { Pow2Add(a - 1, b); }
  }

  lemma {:induction false} Pow2Mono(a: nat, b: nat)
    requires a <= b
    ensures Pow2(a) <= Pow2(b)
  {
    if a < b { Pow2Mono(a, b - 1); }
  }

  lemma Pow2Values()
    ensures Pow2(11) == 2048 && Pow2(12) == 4096 && Pow2(14) == 16384 && Pow2(16) == 65536 && Pow2(30) == 0x4000_0000
    ensures Pow2(32) == TWO32 && Pow2(52) == 0x10_0000_0000_0000 && Pow2(64) == TWO64
  {
    assert Pow2(2) == 4 && Pow2(4) == 16 && Pow2(6) == 64;
    Pow2Add(6, 5);
    assert Pow2(5) == 32;
    Pow2Add(11, 1);
    Pow2Add(12, 2);
    Pow2Add(12, 4);
    Pow2Add(14, 16);
    Pow2Add(30, 2);
    Pow2Add(16, 4);
    Pow2Add(32, 20);
    Pow2Add(32, 32);
  }
}
