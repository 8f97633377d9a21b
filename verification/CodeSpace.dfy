// The code space behind zlib's inflate_table: code lengths in sorted order
// take consecutive intervals of a 15-bit space, and a code word stored
// backwards is the bit reversal of its interval's start.
module CodeSpace {
  import opened Bits

  const MAXBITS: nat := 15

  // ---------------------------------------------------------------------
  // Bit reversal
  // ---------------------------------------------------------------------

  // The low n bits of v in reverse order.
  function Rev(v: nat, n: nat): (r: nat)
    ensures r < Pow2(n)
  {
    if n == 0 then 0 else RevFits(v, n); (v % 2) * Pow2(n - 1) + Rev(v / 2, n - 1)
  }

  lemma RevFits(v: nat, n: nat)
    requires n > 0
    ensures 0 <= (v % 2) * Pow2(n - 1) <= Pow2(n - 1)
    ensures Pow2(n) == 2 * Pow2(n - 1)
  {
  }

  lemma RevStep(v: nat, n: nat)
    requires n > 0
    ensures Rev(v, n) == (v % 2) * Pow2(n - 1) + Rev(v / 2, n - 1) && Pow2(n) == 2 * Pow2(n - 1)
  {
  }

  lemma RevNothing(v: nat)
    ensures Rev(v, 0) == 0 && Pow2(0) == 1
  {
  }

  lemma {:induction false} RevSplit(v: nat, a: nat, b: nat)
    ensures Rev(v, a + b) == Rev(v, a) * Pow2(b) + Rev(Quotient(v, Pow2(a)), b)
  {
    hide Rev, Pow2;
    if a == 0 {
      RevNothing(v);
    } else {
      RevStep(v, a + b);
      RevStep(v, a);
      RevSplit(v / 2, a - 1, b);
      DivDiv(v, Pow2(a - 1));
      Pow2Add(a - 1, b);
      SplitSum(v % 2, Pow2(a - 1), Pow2(b), Rev(v / 2, a - 1));
      assert (a - 1) + b == a + b - 1;
    }
  }

  lemma SplitSum(x: int, p: int, q: int, y: int)
    ensures (x * p + y) * q == x * (p * q) + y * q
  {
    MulDist(x * p, y, q);
    MulAssoc(x, p, q);
  }

  // The top bit of v is the low bit of its reversal.
  lemma LowOfRev(v: nat, n: nat)
    requires n > 0
    ensures Rev(v, n) == 2 * Rev(v, n - 1) + Quotient(v, Pow2(n - 1)) % 2
  {
    hide Rev, Pow2;
    RevSplit(v, n - 1, 1);
    RevStep(Quotient(v, Pow2(n - 1)), 1);
    RevNothing(Quotient(v, Pow2(n - 1)) / 2);
    RevNothing(0);
  }

  // Reversal is its own inverse.
  lemma {:induction false} RevTwice(v: nat, n: nat)
    ensures Rev(Rev(v, n), n) == v % Pow2(n)
  {
    hide Rev, Pow2;
    if n == 0 {
      RevNothing(v);
      RevNothing(Rev(v, 0));
    } else {
      var p := Pow2(n - 1);
      LowOfRev(v, n);
      RevStep(Rev(v, n), n);
      RevTwice(v, n - 1);
      LastBit(v, p);
    }
  }

  lemma LastBit(v: nat, p: nat)
    requires p > 0
    ensures v % (2 * p) == (Quotient(v, p) % 2) * p + v % p
  {
    var q := v / p;
    assert v == p * q + v % p;
    var h := q / 2;
    assert q == 2 * h + q % 2;
    TwoPart(p, h, q % 2, v % p);
    if q % 2 == 1 {
      ModUnique(v, 2 * p, h, p + v % p);
    } else {
      ModUnique(v, 2 * p, h, v % p);
    }
  }

  lemma TwoPart(p: int, h: int, b: int, r: int)
    ensures p * (2 * h + b) + r == (2 * p) * h + b * p + r
  {
    assert p * (2 * h + b) == p * (2 * h) + p * b;
    MulAssoc(p, 2, h);
  }

  // The top a bits of a reversal are the reversal of the low a bits.
  lemma RevTop(v: nat, n: nat, a: nat)
    requires a <= n
    ensures Quotient(Rev(v, n), Pow2(n - a)) == Rev(v, a)
  {
    hide Rev, Pow2;
    RevSplit(v, a, n - a);
    var lo: nat := Rev(Quotient(v, Pow2(a)), n - a);
    ModUnique(Rev(v, n), Pow2(n - a), Rev(v, a), lo);
  }

  // The low a bits of a reversal are the reversal of the top a bits.
  lemma RevLow(v: nat, n: nat, a: nat)
    requires a <= n
    ensures Rev(v, n) % Pow2(a) == Rev(Quotient(v, Pow2(n - a)), a)
  {
    hide Rev, Pow2;
    RevSplit(v, n - a, a);
    var lo: nat := Rev(Quotient(v, Pow2(n - a)), a);
    ModUnique(Rev(v, n), Pow2(a), Rev(v, n - a), lo);
  }

  // Reversal looks at the low bits only.
  lemma RevOfMod(v: nat, n: nat, m: nat)
    requires n <= m
    ensures Rev(v % Pow2(m), n) == Rev(v, n)
  {
    hide Rev, Pow2;
    var w := v % Pow2(m);
    RevTwice(v, n);
    RevTwice(w, n);
    ModOfMod(v, m, n);
    RevTwice(Rev(v, n), n);
    RevTwice(Rev(w, n), n);
    SmallMod(Rev(v, n), Pow2(n));
    SmallMod(Rev(w, n), Pow2(n));
  }

  lemma RevOfMultiple(c: nat, a: nat, b: nat)
    requires c < Pow2(a)
    ensures Rev(c * Pow2(b), a + b) == Rev(c, a)
  {
    hide Rev, Pow2;
    RevSplit(c * Pow2(b), b, a);
    ModUnique(c * Pow2(b), Pow2(b), c, 0);
    RevOfMod(c * Pow2(b), b, b);
    RevZero(b);
  }

  lemma {:induction false} RevZero(n: nat)
    ensures Rev(0, n) == 0
  {
    if n > 0 { RevZero(n - 1); }
  }

  // Incrementing a code that is stored backwards.
  function Next(huff: nat, len: nat): nat
  {
    if len == 0 then 0
    else if huff < Pow2(len - 1) then huff + Pow2(len - 1)
    else Next(huff - Pow2(len - 1), len - 1)
  }

  lemma {:induction false} NextIsIncrement(c: nat, len: nat)
    ensures Next(Rev(c, len), len) == Rev(c + 1, len)
  {
    if len > 0 {
      hide Rev, Pow2;
      RevStep(c, len);
      RevStep(c + 1, len);
      var p := Pow2(len - 1);
      if c % 2 == 0 {
        assert (c + 1) / 2 == c / 2 && (c + 1) % 2 == 1;
        assert 0 * p == 0 && 1 * p == p;
      } else {
        assert (c + 1) / 2 == c / 2 + 1 && (c + 1) % 2 == 0;
        assert 0 * p == 0 && 1 * p == p;
        NextIsIncrement(c / 2, len - 1);
      }
    } else {
      RevNothing(c + 1);
    }
  }

  // ---------------------------------------------------------------------
  // Intervals
  // ---------------------------------------------------------------------

  // Code lengths in the order in which codes are assigned.
  ghost predicate Ascending(ls: seq<nat>)
  {
    && (forall i :: 0 <= i < |ls| ==> 1 <= ls[i] <= MAXBITS)
    && (forall i, j :: 0 <= i <= j < |ls| ==> ls[i] <= ls[j])
  }

  // How much of the space a code of length l takes.
  function Width(l: nat): nat
    requires l <= MAXBITS
  {
    Pow2(MAXBITS - l)
  }

  function Start(ls: seq<nat>, s: nat): nat
    requires s <= |ls| && forall i :: 0 <= i < |ls| ==> ls[i] <= MAXBITS
  {
    if s == 0 then 0 else Start(ls, s - 1) + Width(ls[s - 1])
  }

  lemma StartStep(ls: seq<nat>, s: nat)
    requires Ascending(ls) && s < |ls|
    ensures Start(ls, s + 1) == Start(ls, s) + Width(ls[s]) && Width(ls[s]) > 0
  {
  }

  lemma {:induction false} StartMono(ls: seq<nat>, s: nat, t: nat)
    requires Ascending(ls) && s <= t <= |ls|
    ensures Start(ls, s) <= Start(ls, t)
  {
    if s < t { StartMono(ls, s, t - 1); }
  }

  // The codes do not overrun the space.
  ghost predicate Fits(ls: seq<nat>)
  {
    Ascending(ls) && Start(ls, |ls|) <= Pow2(MAXBITS)
  }

  lemma WidthSplit(l: nat, m: nat)
    requires l <= m <= MAXBITS
    ensures Width(l) == Pow2(m - l) * Width(m)
  {
    Pow2Add(m - l, MAXBITS - m);
  }

  // A start is a multiple of the width of every code that is not shorter.
  lemma {:induction false} StartAligned(ls: seq<nat>, s: nat, l: nat) returns (c: nat)
    requires Ascending(ls) && s <= |ls| && l <= MAXBITS && (s > 0 ==> ls[s - 1] <= l)
    ensures Start(ls, s) == c * Width(l)
  {
    if s == 0 {
      c := 0;
    } else {
      hide Width;
      var c' := StartAligned(ls, s - 1, l);
      WidthSplit(ls[s - 1], l);
      c := c' + Pow2(l - ls[s - 1]);
      MulDist(c', Pow2(l - ls[s - 1]), Width(l));
    }
  }

  function Huff(ls: seq<nat>, s: nat): nat
    requires s <= |ls| && forall i :: 0 <= i < |ls| ==> ls[i] <= MAXBITS
  {
    Rev(Start(ls, s), MAXBITS)
  }

  // Symbol s is the one whose code the bits x, first bit lowest, begin with.
  predicate IsCode(ls: seq<nat>, s: nat, x: nat)
    requires s < |ls| && forall i :: 0 <= i < |ls| ==> ls[i] <= MAXBITS
  {
    x % Pow2(ls[s]) == Huff(ls, s)
  }

  // The code word of s as a number, most significant bit first.
  lemma CodeWord(ls: seq<nat>, s: nat) returns (c: nat)
    requires Fits(ls) && s < |ls|
    ensures Start(ls, s) == c * Width(ls[s]) && c < Pow2(ls[s])
    ensures Huff(ls, s) == Rev(c, ls[s]) < Pow2(ls[s])
    ensures Start(ls, s) < Pow2(MAXBITS)
  {
    hide Rev, Pow2, Width;
    var l := ls[s];
    c := StartAligned(ls, s, l);
    StartStep(ls, s);
    StartMono(ls, s + 1, |ls|);
    WidthSplit(0, l);
    assert Width(0) == Pow2(MAXBITS) by { WidthIs(0); }
    WidthIs(l);
    if c >= Pow2(l) { MulMono(Width(l), Pow2(l), c); }
    RevOfMultiple(c, l, MAXBITS - l);
  }

  lemma WidthIs(l: nat)
    requires l <= MAXBITS
    ensures Width(l) == Pow2(MAXBITS - l)
  {
  }

  // Bits begin with the code of s exactly when their reversal lies in its interval.
  lemma CodeIsInterval(ls: seq<nat>, s: nat, x: nat)
    requires Fits(ls) && s < |ls|
    ensures IsCode(ls, s, x) <==> Start(ls, s) <= Rev(x, MAXBITS) < Start(ls, s + 1)
  {
    hide Rev, Pow2, Start, Width, Quotient;
    var l := ls[s];
    var c := CodeWord(ls, s);
    RevOfMod(x, l, l);
    var p := Rev(x, MAXBITS);
    StartStep(ls, s);
    WidthIs(l);
    RevTop(x, MAXBITS, l);
    InInterval(p, Pow2(MAXBITS - l), c);
    RevTwice(x, l);
    RevTwice(c, l);
    SmallMod(c, Pow2(l));
  }

  lemma InInterval(p: nat, w: nat, c: nat)
    requires w > 0
    ensures Quotient(p, w) == c <==> c * w <= p < c * w + w
  {
    var q := p / w;
    assert p == w * q + p % w;
    if c * w <= p < c * w + w { ModUnique(p, w, c, p - c * w); }
  }

  // Every point below the end of the codes belongs to one code.
  lemma {:induction false} PointHasCode(ls: seq<nat>, n: nat, p: nat) returns (s: nat)
    requires Ascending(ls) && n <= |ls| && p < Start(ls, n)
    ensures s < n && Start(ls, s) <= p < Start(ls, s + 1)
  {
    if p >= Start(ls, n - 1) {
      s := n - 1;
    } else {
      s := PointHasCode(ls, n - 1, p);
    }
  }

  lemma CodeUnique(ls: seq<nat>, s: nat, t: nat, x: nat)
    requires Fits(ls) && s < |ls| && t < |ls| && IsCode(ls, s, x) && IsCode(ls, t, x)
    ensures s == t
  {
    hide Rev, Pow2, Start, IsCode;
    CodeIsInterval(ls, s, x);
    CodeIsInterval(ls, t, x);
    if s < t { StartMono(ls, s + 1, t); }
    if t < s { StartMono(ls, t + 1, s); }
  }

  // No code begins with an earlier one.
  lemma PrefixFree(ls: seq<nat>, t: nat, s: nat)
    requires Fits(ls) && t < s < |ls|
    ensures Huff(ls, s) % Pow2(ls[t]) != Huff(ls, t)
  {
    hide Rev, Pow2, Start;
    var c := CodeWord(ls, s);
    SmallMod(Huff(ls, s), Pow2(ls[s]));
    if IsCode(ls, t, Huff(ls, s)) { CodeUnique(ls, t, s, Huff(ls, s)); }
  }

  // The backwards increment goes from each code to the next, whatever its length.
  lemma HuffNext(ls: seq<nat>, s: nat)
    requires Fits(ls) && s < |ls|
    ensures Next(Huff(ls, s), ls[s]) == Huff(ls, s + 1)
  {
    hide Rev, Pow2, Start, Next;
    var l := ls[s];
    var c := CodeWord(ls, s);
    NextIsIncrement(c, l);
    StartStep(ls, s);
    WidthIs(l);
    MulDist(c, 1, Width(l));
    if c + 1 < Pow2(l) {
      RevOfMultiple(c + 1, l, MAXBITS - l);
    } else {
      Pow2Add(l, MAXBITS - l);
      RevOfMod(c + 1, l, l);
      RevOfMod(Start(ls, s + 1), MAXBITS, MAXBITS);
      ModUnique(Pow2(l), Pow2(l), 1, 0);
      ModUnique(Pow2(MAXBITS), Pow2(MAXBITS), 1, 0);
      RevZero(l);
      RevZero(MAXBITS);
    }
  }

  // ---------------------------------------------------------------------
  // Blocks: the codes that share their first root bits
  // ---------------------------------------------------------------------
  function Block(ls: seq<nat>, s: nat, root: nat): nat
    requires s <= |ls| && root <= MAXBITS && forall i :: 0 <= i < |ls| ==> ls[i] <= MAXBITS
  {
    Quotient(Start(ls, s), Width(root))
  }

  lemma SameBlock(ls: seq<nat>, s: nat, t: nat, root: nat)
    requires Fits(ls) && s < |ls| && t < |ls| && root <= MAXBITS
    ensures Huff(ls, s) % Pow2(root) == Huff(ls, t) % Pow2(root) <==> Block(ls, s, root) == Block(ls, t, root)
  {
    hide Rev, Pow2, Start;
    RevLow(Start(ls, s), MAXBITS, root);
    RevLow(Start(ls, t), MAXBITS, root);
    WidthIs(root);
    BlockSmall(ls, s, root);
    BlockSmall(ls, t, root);
    RevTwice(Block(ls, s, root), root);
    RevTwice(Block(ls, t, root), root);
    SmallMod(Block(ls, s, root), Pow2(root));
    SmallMod(Block(ls, t, root), Pow2(root));
  }

  lemma BlockSmall(ls: seq<nat>, s: nat, root: nat)
    requires Fits(ls) && s < |ls| && root <= MAXBITS
    ensures Block(ls, s, root) < Pow2(root)
  {
    hide Rev, Pow2, Start, Width, Quotient;
    var c := CodeWord(ls, s);
    WidthIs(root);
    Pow2Add(MAXBITS - root, root);
    QuotientLess(Start(ls, s), Width(root), Pow2(root));
  }

  // A code that opens a block starts where the block starts.
  lemma BlockOpens(ls: seq<nat>, s: nat, root: nat)
    requires Fits(ls) && 0 < s < |ls| && root <= MAXBITS
    requires ls[s - 1] <= root || Block(ls, s - 1, root) != Block(ls, s, root)
    ensures Start(ls, s) == Block(ls, s, root) * Width(root)
  {
    hide Rev, Pow2, Start, Width;
    WidthIs(root);
    var w: nat := Width(root);
    if ls[s - 1] <= root {
      var c := StartAligned(ls, s, root);
      ModUnique(Start(ls, s), w, c, 0);
    } else {
      StartStep(ls, s - 1);
      WidthSplit(root, ls[s - 1]);
      var l := ls[s - 1];
      var c := StartAligned(ls, s - 1, l);
      WidthIs(l);
      AlignedStep(c, Width(l), Pow2(l - root), Start(ls, s - 1), w);
      InInterval(Start(ls, s - 1), w, Block(ls, s - 1, root));
      InInterval(Start(ls, s), w, Block(ls, s - 1, root));
      MulDist(Block(ls, s - 1, root), 1, w);
      ModUnique(Start(ls, s), w, Block(ls, s - 1, root) + 1, 0);
    }
  }

  // A step of width v from a multiple of v cannot cross a multiple of k * v.
  lemma AlignedStep(c: nat, v: nat, k: nat, x: nat, w: nat)
    requires v > 0 && k > 0 && x == c * v && w == k * v && w > 0
    ensures x + v <= Quotient(x, w) * w + w
  {
    var q := x / w;
    InInterval(x, w, q);
    MulAssoc(q, k, v);
    MulDist(q * k, k, v);
    assert c * v < (q * k + k) * v;
    if c >= q * k + k { MulMono(v, q * k + k, c); }
    MulMono(v, c + 1, q * k + k);
    MulDist(c, 1, v);
  }
}
