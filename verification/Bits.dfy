// Fixed-width machine words seen as natural numbers: powers of two, shifts as
// multiplication and division, and the bitwise operators on numbers.
module Bits {

  type byte = x: int | 0 <= x < 256

  function Pow2(k: nat): (r: nat)
    ensures r > 0
  {
    if k == 0 then 1 else 2 * Pow2(k - 1)
  }

  lemma Pow2Add(a: nat, b: nat)
    ensures Pow2(a + b) == Pow2(a) * Pow2(b)
  {
    if a == 0 {
    } else {
      Pow2Add(a - 1, b);
    }
  }

  lemma Pow2Mono(a: nat, b: nat)
    requires a <= b
    ensures Pow2(a) <= Pow2(b)
  {
    if a == b {
    } else {
      Pow2Mono(a, b - 1);
    }
  }

  lemma Pow2Values()
    ensures Pow2(4) == 0x10 && Pow2(8) == 0x100 && Pow2(15) == 0x8000
    ensures Pow2(16) == 0x1_0000 && Pow2(32) == 0x1_0000_0000
  {
    assert Pow2(2) == 4;
    assert Pow2(4) == 16;
    Pow2Add(4, 4);
    Pow2Add(8, 8);
    Pow2Add(16, 16);
  }

  // x | y, bit by bit.
  function Or(x: nat, y: nat): nat
    decreases x + y
  {
    if x == 0 && y == 0 then 0
    else 2 * Or(x / 2, y / 2) + (if x % 2 == 1 || y % 2 == 1 then 1 else 0)
  }

  // (hi << k) | lo, for fields that do not overlap: the precondition is the
  // proof, at every use, that the two operands share no bit, so that `|` adds.
  function Fields(hi: nat, k: nat, lo: nat): (r: nat)
    requires lo < Pow2(k)
    ensures r == hi * Pow2(k) + lo
  {
    FieldsIsOr(hi, k, lo);
    Or(hi * Pow2(k), lo)
  }

  // On non-overlapping fields the bitwise or is the sum.
  lemma {:induction false} FieldsIsOr(hi: nat, k: nat, lo: nat)
    requires lo < Pow2(k)
    ensures Or(hi * Pow2(k), lo) == hi * Pow2(k) + lo
  {
    if k == 0 {
      OrZero(hi);
    } else {
      var h := hi * Pow2(k - 1);
      assert hi * Pow2(k) == 2 * h;
      if lo == 0 {
        OrZero(hi * Pow2(k));
      } else {
        FieldsIsOr(hi, k - 1, lo / 2);
        assert (2 * h) / 2 == h && (2 * h) % 2 == 0;
      }
    }
  }

  lemma OrZero(x: nat)
    ensures Or(x, 0) == x
  {
  }

  lemma ModUnique(x: int, m: int, q: int, r: int)
    requires m > 0 && x == m * q + r && 0 <= r < m
    ensures x / m == q && x % m == r
  {
    assert x == m * (x / m) + x % m;
    QuotientUnique(m, q, r, x / m, x % m);
  }

  lemma QuotientUnique(m: int, q: int, r: int, q': int, r': int)
    requires m > 0 && 0 <= r < m && 0 <= r' < m && m * q + r == m * q' + r'
    ensures q == q' && r == r'
  {
    if q < q' {
      MulStep(m, q, q');
    } else if q' < q {
      MulStep(m, q', q);
    }
  }

  lemma MulStep(m: int, a: int, b: int)
    requires m > 0 && a < b
    ensures m * a + m <= m * b
  {
    MulMono(m, a + 1, b);
    assert m * (a + 1) == m * a + m;
  }

  lemma MulMono(m: int, a: int, b: int)
    requires m >= 0 && a <= b
    ensures m * a <= m * b
  {
  }

  lemma MulLess(m: int, r: int, b: int)
    requires 0 <= r < b && m > 0
    ensures 0 <= m * r && m * r + m <= m * b
  {
    MulMono(m, 0, r);
    MulMono(m, r + 1, b);
    assert m * (r + 1) == m * r + m;
  }

  lemma MulAssoc(a: int, b: int, c: int)
    ensures (a * b) * c == a * (b * c)
  {
  }

  lemma MulDist(a: int, b: int, c: int)
    ensures (a + b) * c == a * c + b * c
  {
  }

  lemma SmallMod(x: nat, p: nat)
    requires x < p
    ensures x % p == x
  {
  }

  function Quotient(v: nat, p: nat): nat
    requires p > 0
  {
    v / p
  }

  lemma QuotientLess(x: nat, p: nat, q: nat)
    requires p > 0 && x < p * q
    ensures Quotient(x, p) < q
  {
    var k := x / p;
    assert x == p * k + x % p;
    if k >= q { MulMono(p, q, k); }
  }

  function Mod(v: nat, p: nat): (r: nat)
    requires p > 0
    ensures r < p && r <= v
  {
    v % p
  }

  lemma HalfMod(v: nat, p: nat)
    requires p > 0
    ensures v % (2 * p) == 2 * ((v / 2) % p) + v % 2
  {
    var h := v / 2;
    var q, r := h / p, h % p;
    assert h == p * q + r;
    MulAssoc(2, p, q);
    ModUnique(v, 2 * p, q, 2 * r + v % 2);
  }

  lemma DivDiv(v: nat, p: nat)
    requires p > 0
    ensures v / 2 / p == v / (2 * p)
  {
    HalfMod(v, p);
    var q := v / 2 / p;
    assert v / 2 == p * q + (v / 2) % p;
    MulAssoc(2, p, q);
    ModUnique(v, 2 * p, q, 2 * ((v / 2) % p) + v % 2);
  }

  lemma Pow2Step(k: nat)
    requires k > 0
    ensures Pow2(k) == 2 * Pow2(k - 1)
  {
  }

  lemma MulCancelLess(p: int, a: int, b: int)
    requires p > 0 && a * p < b * p
    ensures a < b
  {
    if b <= a { MulMono(p, b, a); }
  }

  lemma ModOfMod(v: nat, m: nat, n: nat)
    requires n <= m
    ensures v % Pow2(m) % Pow2(n) == v % Pow2(n)
  {
    hide Pow2;
    Pow2Add(n, m - n);
    var p, k: nat := Pow2(n), Pow2(m - n);
    ModMod(v, p, k);
  }

  lemma ModMod(v: nat, p: nat, k: nat)
    requires p > 0 && k > 0 && p * k > 0
    ensures v % (p * k) % p == v % p
  {
    var q, r := v / (p * k), v % (p * k);
    assert v == (p * k) * q + r;
    MulAssoc(p, k, q);
    var r' := r / p;
    assert r == p * r' + r % p;
    assert v == p * (k * q) + (p * r' + r % p);
    assert p * (k * q) + p * r' == p * (k * q + r');
    ModUnique(v, p, k * q + r', r % p);
  }

  lemma DivideTwice(x: nat, p: nat, q: nat)
    requires p > 0 && q > 0 && p * q > 0
    ensures Quotient(Quotient(x, p), q) == Quotient(x, p * q)
    ensures Quotient(x, p) % q == Quotient(x % (p * q), p)
  {
    var y := x / p;
    assert x == p * y + x % p;
    assert y == q * (y / q) + y % q;
    assert p * (q * (y / q) + y % q) == p * (q * (y / q)) + p * (y % q);
    MulAssoc(p, q, y / q);
    MulLess(p, y % q, q);
    ModUnique(x, p * q, y / q, p * (y % q) + x % p);
    ModUnique(p * (y % q) + x % p, p, y % q, x % p);
  }
}
