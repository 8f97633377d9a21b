// The rolling hash of zlib's deflate.c (UPDATE_HASH): shift, exclusive or, mask.
// It depends only on the last three bytes, and strings with equal hashes that
// agree in two bytes agree in the third.
module RollingHash {
  import opened Bits

  // x ^ y
  function Xor(x: nat, y: nat): nat
    decreases x + y
  {
    if x == 0 && y == 0 then 0
    else 2 * Xor(x / 2, y / 2) + (if x % 2 != y % 2 then 1 else 0)
  }

  lemma XorStep(x: nat, y: nat)
    ensures Xor(x, y) == 2 * Xor(x / 2, y / 2) + (if x % 2 != y % 2 then 1 else 0)
  {
  }

  lemma XorHalves(x: nat, y: nat)
    ensures Xor(x, y) / 2 == Xor(x / 2, y / 2) && Xor(x, y) % 2 == (if x % 2 != y % 2 then 1 else 0)
  {
    XorStep(x, y);
  }

  lemma {:induction false} XorZero(x: nat)
    ensures Xor(x, 0) == x && Xor(0, x) == x
    decreases x
  {
    if x > 0 { XorZero(x / 2); }
  }

  lemma {:induction false} XorAssoc(x: nat, y: nat, z: nat)
    ensures Xor(Xor(x, y), z) == Xor(x, Xor(y, z))
    decreases x + y + z
  {
    if x + y + z > 0 {
      hide Xor;
      XorAssoc(x / 2, y / 2, z / 2);
      XorHalves(x, y);
      XorHalves(y, z);
      XorStep(Xor(x, y), z);
      XorStep(x, Xor(y, z));
    } else {
      XorZero(0);
    }
  }

  lemma {:induction false} XorSelf(x: nat)
    ensures Xor(x, x) == 0
    decreases x
  {
    if x > 0 { XorSelf(x / 2); }
  }

  lemma {:induction false} XorMod(x: nat, y: nat, n: nat)
    ensures Xor(x, y) % Pow2(n) == Xor(x % Pow2(n), y % Pow2(n))
    decreases n
  {
    hide Xor, Pow2;
    if n == 0 {
      assert Pow2(0) == 1 by { PowZero(); }
      XorZero(0);
    } else {
      var p := Pow2(n - 1);
      XorMod(x / 2, y / 2, n - 1);
      Pow2Step(n);
      HalfMod(x, p);
      HalfMod(y, p);
      HalfMod(Xor(x, y), p);
      XorHalves(x, y);
      XorStep(x % Pow2(n), y % Pow2(n));
      Halved(x / 2 % p, x % 2);
      Halved(y / 2 % p, y % 2);
    }
  }

  lemma PowZero()
    ensures Pow2(0) == 1
  {
  }

  lemma Halved(h: nat, b: nat)
    requires b < 2
    ensures (2 * h + b) / 2 == h && (2 * h + b) % 2 == b
  {
  }

  lemma {:induction false} XorShift(x: nat, y: nat, s: nat)
    ensures Xor(x * Pow2(s), y * Pow2(s)) == Xor(x, y) * Pow2(s)
  {
    hide Xor, Pow2;
    if s == 0 {
      PowZero();
    } else {
      var p := Pow2(s - 1);
      XorShift(x, y, s - 1);
      Pow2Step(s);
      Doubled(x, p);
      Doubled(y, p);
      Doubled(Xor(x, y), p);
      XorStep(x * Pow2(s), y * Pow2(s));
    }
  }

  lemma Doubled(x: nat, p: nat)
    ensures x * (2 * p) == 2 * (x * p) && x * (2 * p) / 2 == x * p && x * (2 * p) % 2 == 0 && x * p >= 0
  {
    MulAssoc(x, 2, p);
    MulAssoc(2, x, p);
  }

  // The shift that three steps need to push a byte out of the hash.
  function HashShift(bits: nat): nat
  {
    (bits + 2) / 3
  }

  // UPDATE_HASH
  function Update(bits: nat, h: nat, c: byte): (h': nat)
    ensures h' < Pow2(bits)
  {
    Xor(h * Pow2(HashShift(bits)), c) % Pow2(bits)
  }

  // The hash of three bytes.
  function Hash3(bits: nat, a: byte, b: byte, c: byte): nat
  {
    Update(bits, Update(bits, Update(bits, 0, a), b), c)
  }

  // Reducing first does not matter to a shifted, reduced value.
  lemma ShiftedMod(x: nat, s: nat, n: nat)
    ensures (x % Pow2(n)) * Pow2(s) % Pow2(n) == x * Pow2(s) % Pow2(n)
  {
    hide Pow2;
    ModTimes(x, Pow2(n), Pow2(s));
  }

  lemma ModTimes(x: nat, p: nat, q: nat)
    requires p > 0
    ensures (x % p) * q % p == x * q % p
  {
    var k, r: nat := x / p, x % p;
    assert x == p * k + r;
    MulDist(p * k, r, q);
    MulAssoc(p, k, q);
    assert x * q == r * q + p * (k * q);
    AddMultiple(r * q, p, k * q);
  }

  lemma AddMultiple(x: nat, p: nat, q: nat)
    requires p > 0
    ensures (x + p * q) % p == x % p
  {
    var m := x / p;
    assert x == p * m + x % p;
    assert p * (m + q) == p * m + p * q;
    ModUnique(x + p * q, p, m + q, x % p);
  }

  // One update as exclusive or of reduced parts.
  lemma UpdateParts(bits: nat, h: nat, c: byte)
    ensures Update(bits, h, c) == Xor(h * Pow2(HashShift(bits)) % Pow2(bits), c % Pow2(bits))
  {
    XorMod(h * Pow2(HashShift(bits)), c, bits);
  }

  // The contribution of a value after one more shift.
  lemma ShiftOnce(bits: nat, h: nat, c: byte)
    ensures var s := HashShift(bits);
            Update(bits, h, c) * Pow2(s) % Pow2(bits) == Xor(h * Pow2(2 * s) % Pow2(bits), c * Pow2(s) % Pow2(bits))
  {
    hide Xor, Pow2;
    var s := HashShift(bits);
    var p: nat := Pow2(s);
    ShiftedMod(Xor(h * p, c), s, bits);
    XorShift(h * p, c, s);
    Pow2Add(s, s);
    MulAssoc(h, p, p);
    XorMod(h * p * p, c * p, bits);
  }

  // After three updates nothing is left of what came before.
  lemma UpdateForgets(bits: nat, h: nat, a: byte, b: byte, c: byte)
    ensures Update(bits, Update(bits, Update(bits, h, a), b), c) == Hash3(bits, a, b, c)
  {
    hide Xor, Pow2, Update;
    TwoUpdates(bits, h, a, b);
    TwoUpdates(bits, 0, a, b);
    UpdateParts(bits, Update(bits, Update(bits, h, a), b), c);
    UpdateParts(bits, Update(bits, Update(bits, 0, a), b), c);
  }

  // After two updates and a shift, only the two bytes are left.
  lemma TwoUpdates(bits: nat, h: nat, a: byte, b: byte)
    ensures var s := HashShift(bits);
            Update(bits, Update(bits, h, a), b) * Pow2(s) % Pow2(bits) == Xor(a * Pow2(2 * s) % Pow2(bits),
              b * Pow2(s) % Pow2(bits))
  {
    hide Xor, Pow2;
    var s := HashShift(bits);
    var p: nat := Pow2(s);
    var u := Update(bits, h, a);
    ShiftOnce(bits, u, b);
    ShiftedMod(Xor(h * p, a), 2 * s, bits);
    XorShift(h * p, a, 2 * s);
    Pow2Add(s, 2 * s);
    MulAssoc(h, p, Pow2(2 * s));
    XorMod(h * p * Pow2(2 * s), a * Pow2(2 * s), bits);
    ShiftedOut(h, s, bits);
    XorZero(a * Pow2(2 * s) % Pow2(bits));
  }

  lemma ShiftedOut(h: nat, s: nat, bits: nat)
    requires 3 * s >= bits
    ensures h * Pow2(s + 2 * s) % Pow2(bits) == 0
  {
    hide Pow2;
    var t: nat := s + 2 * s - bits;
    Pow2Add(bits, t);
    MulAssoc(h, Pow2(bits), Pow2(t));
    MulAssoc(Pow2(bits), h, Pow2(t));
    AddMultiple(0, Pow2(bits), h * Pow2(t));
  }

  // A hash is ready for the string that begins with these two bytes.
  ghost predicate Rolled(bits: nat, h: nat, a: byte, b: byte)
  {
    forall c: byte :: Update(bits, h, c) == Hash3(bits, a, b, c)
  }

  lemma RolledOn(bits: nat, a: byte, b: byte, c: byte)
    ensures Rolled(bits, Hash3(bits, a, b, c), b, c)
  {
    hide Update;
    forall d: byte ensures Update(bits, Hash3(bits, a, b, c), d) == Hash3(bits, b, c, d) {
      UpdateForgets(bits, Update(bits, 0, a), b, c, d);
    }
  }

  // Starting afresh from a byte.
  lemma RolledAfresh(bits: nat, a: byte, b: byte)
    requires bits >= 8
    ensures Rolled(bits, Update(bits, a, b), a, b)
  {
    hide Update;
    FirstUpdate(bits, a);
    forall c: byte ensures Update(bits, Update(bits, a, b), c) == Hash3(bits, a, b, c) {}
  }

  lemma FirstUpdate(bits: nat, a: byte)
    requires bits >= 8
    ensures Update(bits, 0, a) == a
  {
    hide Pow2;
    XorZero(a);
    Pow2Mono(8, bits);
    Pow2Values();
    SmallMod(a, Pow2(bits));
    assert 0 * Pow2(HashShift(bits)) == 0;
  }

  // Equal hashes and two equal bytes: the third is equal, since the hash is at least eight bits wide.
  lemma ThirdByte(bits: nat, a: byte, b: byte, c: byte, d: byte)
    requires bits >= 8 && Hash3(bits, a, b, c) == Hash3(bits, a, b, d)
    ensures c == d
  {
    hide Xor, Pow2, Update;
    var h := Update(bits, Update(bits, 0, a), b);
    var x := h * Pow2(HashShift(bits)) % Pow2(bits);
    UpdateParts(bits, h, c);
    UpdateParts(bits, h, d);
    Pow2Mono(8, bits);
    Pow2Values();
    SmallMod(c, Pow2(bits));
    SmallMod(d, Pow2(bits));
    XorCancel(x, c, d);
  }

  lemma XorCancel(x: nat, c: nat, d: nat)
    requires Xor(x, c) == Xor(x, d)
    ensures c == d
  {
    hide Xor;
    XorAssoc(x, x, c);
    XorAssoc(x, x, d);
    XorSelf(x);
    XorZero(c);
    XorZero(d);
  }
}
