// 64-bit division in base 2^16 digits (Knuth, Algorithm D), after
// src/lib/libstand/qdivrem.c.  Digits are 16 bits, `u_int` intermediates are
// 32 bits and wrap; the wrap is written out wherever the C expression has type
// `u_int`.
module QDivRem {
  import opened Bits

  const B := 0x1_0000
  const U32 := 0x1_0000_0000
  const U64 := 0x1_0000_0000_0000_0000

  type digit = x: int | 0 <= x < 0x1_0000

  function HHALF(x: nat): nat { x / B }

  function LHALF(x: nat): digit { x % B }

  // ((u_long)(a) << HALF_BITS) | (b)
  function COMBINE(a: nat, b: digit): (r: nat)
    ensures r == a * B + b
  {
    Pow2Values();
    Fields(a, 16, b)
  }

  // B^k
  function Pw(k: nat): (r: nat)
    ensures r > 0
  {
    if k == 0 then 1 else B * Pw(k - 1)
  }

  lemma PwAdd(a: nat, b: nat)
    ensures Pw(a + b) == Pw(a) * Pw(b)
  {
    if a == 0 {
    } else {
      PwAdd(a - 1, b);
      assert Pw(a + b) == B * (Pw(a - 1) * Pw(b)) == (B * Pw(a - 1)) * Pw(b);
    }
  }

  // The number a big-endian digit string denotes.
  function Val(s: seq<digit>): nat
  {
    if s == [] then 0 else s[0] * Pw(|s| - 1) + Val(s[1..])
  }

  lemma ValCons(d: digit, s: seq<digit>)
    ensures Val([d] + s) == d * Pw(|s|) + Val(s)
  {
    hide Pw;
    assert ([d] + s)[1..] == s;
  }

  lemma ValUncons(s: seq<digit>)
    requires s != []
    ensures Val(s) == s[0] * Pw(|s| - 1) + Val(s[1..])
  {
  }

  lemma {:induction false} ValConcat(a: seq<digit>, b: seq<digit>)
    ensures Val(a + b) == Val(a) * Pw(|b|) + Val(b)
  {
    if a == [] {
      assert a + b == b;
    } else {
      assert (a + b)[1..] == a[1..] + b;
      ValConcat(a[1..], b);
      PwAdd(|a| - 1, |b|);
      MulDist(a[0] * Pw(|a| - 1), Val(a[1..]), Pw(|b|));
      MulAssoc(a[0], Pw(|a| - 1), Pw(|b|));
    }
  }

  lemma {:induction false} ValBound(s: seq<digit>)
    ensures Val(s) < Pw(|s|)
  {
    if s == [] {
    } else {
      ValBound(s[1..]);
      MulLess(Pw(|s| - 1), s[0], B);
    }
  }

  lemma {:induction false} ValZeros(s: seq<digit>)
    requires forall i :: 0 <= i < |s| ==> s[i] == 0
    ensures Val(s) == 0
  {
    if s != [] {
      ValZeros(s[1..]);
    }
  }

  // A value below B^k in a longer string leaves only zeros in front.
  lemma {:induction false} LeadingZeros(s: seq<digit>, k: nat)
    requires k <= |s| && Val(s) < Pw(|s| - k)
    ensures forall i :: 0 <= i < k ==> s[i] == 0
    ensures Val(s) == Val(s[k..])
    decreases k
  {
    if k == 0 {
      assert s[0..] == s;
    } else {
      ValUncons(s);
      if s[0] >= 1 {
        MulMono(Pw(|s| - 1), 1, s[0]);
        PwMono(|s| - k, |s| - 1);
        assert false;
      }
      LeadingZeros(s[1..], k - 1);
      assert s[1..][k - 1..] == s[k..];
      forall i | 0 <= i < k ensures s[i] == 0 {
        if i > 0 { assert s[i] == s[1..][i - 1]; }
      }
    }
  }

  lemma PwMono(a: nat, b: nat)
    requires a <= b
    ensures Pw(a) <= Pw(b)
  {
    if a < b { PwMono(a, b - 1); }
  }

  // ---------------------------------------------------------------------
  // The static function shl: p[lo..lo+len] shifted left sh bits in place.
  // The bits that fall out on the left are those of the first digit.
  // ---------------------------------------------------------------------

  // h | l, for a digit h whose low k bits are clear: no bit is shared.
  function OrDigit(h: digit, k: nat, l: nat): digit
    requires l < Pow2(k) && (h / Pow2(k)) * Pow2(k) == h && h + Pow2(k) <= B
  {
    h + l
  }

  // Low half of x << up, with the top bits of y or-ed in.
  function JoinShift(x: digit, y: digit, up: nat, down: nat): digit
    requires 1 <= up <= 15 && up + down == 16
  {
    LowHalfClear(x, up);
    HighBitsFit(y, up, down);
    OrDigit(LHALF(x * Pow2(up)), up, y / Pow2(down))
  }

  // The digit shl writes.
  function ShiftedDigit(x: digit, y: digit, sh: nat): digit
    requires 1 <= sh <= 15
  {
    JoinShift(x, y, sh, 16 - sh)
  }

  // x << sh splits into the bits carried out, x >> (16 - sh), and a low half
  // that is a multiple of 2^sh; so or-ing in fewer than sh bits cannot carry.
  lemma ShiftSplit(x: digit, sh: nat)
    requires 1 <= sh <= 15
    ensures var a, h := Pow2(sh), LHALF(x * Pow2(sh));
            && x / Pow2(16 - sh) < a
            && (h / a) * a == h && h + a <= B
            && x * a == (x / Pow2(16 - sh)) * B + h
  {
    Pow2Values();
    Pow2Add(sh, 16 - sh);
    ShiftSplitDiv(x, Pow2(sh), Pow2(16 - sh));
  }

  lemma ShiftSplitDiv(x: digit, a: nat, b: nat)
    requires a > 0 && b > 0 && a * b == B
    ensures x / b < a && ((x * a) % B / a) * a == (x * a) % B && (x * a) % B + a <= B
    ensures x * a == (x / b) * B + (x * a) % B
  {
    ShiftSplitQ(x, a, b, x / b, x % b);
  }

  lemma ShiftSplitQ(x: int, a: int, b: int, q: int, r: int)
    requires a > 0 && b > 0 && a * b == B && 0 <= x < B
    requires x == b * q + r && 0 <= r < b
    ensures q < a && x * a == q * B + r * a && 0 <= r * a && r * a + a <= B
    ensures (x * a) % B == r * a && (r * a) / a == r
  {
    MulDist(b * q, r, a);
    MulAssoc(q, b, a);
    MulLess(a, r, b);
    if q >= a {
      MulMono(b, a, q);
      assert false;
    }
    ModUnique(x * a, B, q, r * a);
    ModUnique(r * a, a, r, 0);
  }

  lemma HighBitsFit(x: digit, sh: nat, cut: nat)
    requires 1 <= sh <= 15 && sh + cut == 16
    ensures x / Pow2(cut) < Pow2(sh)
  {
    ShiftSplit(x, sh);
  }

  lemma LowHalfClear(x: digit, sh: nat)
    requires 1 <= sh <= 15
    ensures var a, h := Pow2(sh), LHALF(x * Pow2(sh));
            (h / a) * a == h && h + a <= B
  {
    ShiftSplit(x, sh);
  }

  method Shl(p: array<digit>, lo: nat, len: nat, sh: nat)
    requires lo + len < p.Length && 1 <= sh <= 15
    modifies p
    ensures p[..lo] == old(p[..lo]) && p[lo + len + 1..] == old(p[lo + len + 1..])
    ensures Val(p[lo..lo + len + 1]) ==
            Val(old(p[lo..lo + len + 1])) * Pow2(sh) - (old(p[lo]) / Pow2(16 - sh)) * Pw(len + 1)
  {
    ghost var s := p[lo..lo + len + 1];
    var i := 0;
    while i < len
      invariant 0 <= i <= len
      invariant forall k :: 0 <= k < lo || lo + i <= k < p.Length ==> p[k] == old(p[k])
      invariant forall k :: 0 <= k < i ==> p[lo + k] == ShiftedDigit(s[k], s[k + 1], sh)
    {
      p[lo + i] := ShiftedDigit(p[lo + i], p[lo + i + 1], sh);
      i := i + 1;
    }
    p[lo + i] := LHALF(p[lo + i] * Pow2(sh));
    ShiftedDigits(s, p[lo..lo + len + 1], sh);
  }

  lemma ShiftedDigits(s: seq<digit>, t: seq<digit>, sh: nat)
    requires 1 <= sh <= 15 && |s| == |t| > 0
    requires forall k :: 0 <= k < |s| - 1 ==> t[k] == ShiftedDigit(s[k], s[k + 1], sh)
    requires t[|s| - 1] == LHALF(s[|s| - 1] * Pow2(sh))
    ensures Val(t) == Val(s) * Pow2(sh) - (s[0] / Pow2(16 - sh)) * Pw(|s|)
  {
    var h := seq(|s|, k requires 0 <= k < |s| => LHALF(s[k] * Pow2(sh)));
    var c := seq(|s|, k requires 0 <= k < |s| => s[k] / Pow2(16 - sh));
    forall k | 0 <= k < |s| ensures s[k] * Pow2(sh) == c[k] * B + h[k] {
      ShiftSplit(s[k], sh);
    }
    ShiftedValue(s, h, c, t, Pow2(sh));
  }

  // Carries c and low halves h of the scaled digits, one step apart.
  lemma {:induction false} ShiftedValue(s: seq<digit>, h: seq<int>, c: seq<int>, t: seq<digit>, a: nat)
    requires |s| == |t| == |h| == |c| > 0
    requires forall k :: 0 <= k < |s| ==> s[k] * a == c[k] * B + h[k]
    requires forall k :: 0 <= k < |s| ==> t[k] == h[k] + (if k + 1 < |s| then c[k + 1] else 0)
    ensures Val(t) == Val(s) * a - c[0] * Pw(|s|)
  {
    var p := Pw(|s| - 1);
    var c1, rest := 0, 0;
    ValUncons(s);
    ValUncons(t);
    if |s| == 1 {
      assert s[1..] == [] && t[1..] == [];
    } else {
      c1, rest := c[1], Val(t[1..]);
      ShiftedValue(s[1..], h[1..], c[1..], t[1..], a);
    }
    ShiftStep(s[0], h[0], c[0], t[0], c1, a, p, Val(s[1..]), Val(t[1..]), Val(s));
  }

  lemma ShiftStep(s0: int, h0: int, c0: int, t0: int, c1: int, a: int, p: int, sr: int, tr: int, sFull: int)
    requires s0 * a == c0 * B + h0 && t0 == h0 + c1
    requires tr == sr * a - c1 * p && sFull == s0 * p + sr
    ensures t0 * p + tr == sFull * a - c0 * (B * p)
  {
    MulDist(h0, c1, p);
    MulDist(s0 * a, -(c0 * B), p);
    MulAssoc(c0, B, p);
    MulAssoc(s0, a, p);
    MulAssoc(s0, p, a);
    MulDist(s0 * p, sr, a);
  }

  // ---------------------------------------------------------------------
  // D3: the trial quotient digit is exactly the three-by-two digit quotient
  // cut off at B - 1.
  // ---------------------------------------------------------------------
  method TrialDigit(uj0: digit, uj1: digit, uj2: digit, v1: digit, v2: digit) returns (qhat: nat)
    requires uj0 <= v1 && v1 >= B / 2
    ensures IsTrial(qhat, (uj0 * B + uj1) * B + uj2, v1 * B + v2)
  {
    hide COMBINE, ProductWord, IsDivision, Exceeds;
    ghost var nn, u, v := uj0 * B + uj1, (uj0 * B + uj1) * B + uj2, v1 * B + v2;
    var rhat: nat;
    var tooBig := uj0 == v1;      // the jump to qhat_too_big
    if tooBig {
      qhat, rhat := B, uj1;
    } else {
      qhat, rhat := FirstDigit(uj0, uj1, v1, uj2, v2);
    }
    TooBigIsDivision(v1, uj1);
    while tooBig || ProductWord(v2, qhat) > COMBINE(rhat, uj2)
      invariant IsDivision(nn, v1, qhat, rhat)
      invariant rhat < B && qhat <= B && (tooBig <==> qhat == B)
      invariant qhat >= B - 1 || Exceeds(qhat + 1, u, v)
      decreases qhat
    {
      if !tooBig {
        TrialTest(qhat, rhat, nn, uj2, v1, v2);
      }
      tooBig := false;
      StepDown(nn, v1, qhat, rhat);
      qhat := qhat - 1;
      rhat := rhat + v1;
      if rhat >= B {
        TrialTest(qhat, rhat, nn, uj2, v1, v2);
        return;
      }
    }
    TrialTest(qhat, rhat, nn, uj2, v1, v2);
  }

  // v2 * qhat in u_int
  function ProductWord(v2: digit, q: nat): nat
  {
    (v2 * q) % U32
  }

  // The division of two digits by one.
  method FirstDigit(uj0: digit, uj1: digit, v1: digit, ghost uj2: digit, ghost v2: digit) returns (q: nat, r: nat)
    requires uj0 < v1
    ensures IsDivision(uj0 * B + uj1, v1, q, r) && r < v1 && q < B
    ensures Exceeds(q + 1, (uj0 * B + uj1) * B + uj2, v1 * B + v2)
  {
    hide COMBINE, IsDivision, Exceeds;
    var nn := COMBINE(uj0, uj1);
    FirstGuess(nn, v1, uj0, uj2, v2);
    q, r := nn / v1, nn % v1;
  }

  lemma TooBigIsDivision(v1: digit, uj1: digit)
    ensures IsDivision(v1 * B + uj1, v1, B, uj1)
  {
  }

  // q is too large a multiplier.
  predicate Exceeds(q: nat, u: nat, v: nat) { q * v > u }

  predicate IsTrial(q: nat, u: nat, v: nat)
  {
    q < B && !Exceeds(q, u, v) && (q == B - 1 || Exceeds(q + 1, u, v))
  }

  predicate IsDivision(nn: nat, v: nat, q: nat, r: nat) { q * v + r == nn }

  lemma FirstGuess(nn: nat, v1: digit, uj0: digit, uj2: digit, v2: digit)
    requires uj0 < v1 && nn < (uj0 + 1) * B
    ensures nn / v1 < B
    ensures IsDivision(nn, v1, nn / v1, nn % v1)
    ensures Exceeds(nn / v1 + 1, nn * B + uj2, v1 * B + v2)
  {
    var q := nn / v1;
    if q >= B {
      MulMono(v1, B, q);
      MulMono(B, uj0 + 1, v1);
      assert false;
    }
    assert (q + 1) * v1 > nn;
    NextExceeds(q + 1, (q + 1) * v1, nn, uj2, v1, v2);
  }

  lemma NextExceeds(q: nat, qv: nat, nn: nat, u2: digit, v1: digit, v2: digit)
    requires qv == q * v1 && qv > nn
    ensures Exceeds(q, nn * B + u2, v1 * B + v2)
  {
    SplitProduct(q, v1, v2);
    MulMono(q, 0, v2);
  }

  lemma SplitProduct(q: nat, v1: nat, v2: nat)
    ensures q * (v1 * B + v2) == (q * v1) * B + q * v2
  {
  }

  lemma StepDown(nn: nat, v: nat, q: nat, r: nat)
    requires IsDivision(nn, v, q, r) && q > 0
    ensures IsDivision(nn, v, q - 1, r + v)
  {
    MulDist(q, -1, v);
  }

  // The test v2 * qhat > rhat * B + u2 decides exactly whether qhat is too
  // large, the product does not wrap, and zero is never too large.
  lemma TrialTest(q: nat, r: nat, nn: nat, u2: digit, v1: digit, v2: digit)
    requires IsDivision(nn, v1, q, r) && q < B
    ensures ProductWord(v2, q) == v2 * q < B * B
    ensures ProductWord(v2, q) > r * B + u2 <==> Exceeds(q, nn * B + u2, v1 * B + v2)
    ensures ProductWord(v2, q) > r * B + u2 ==> q > 0 && r < B
  {
    SplitProduct(q, v1, v2);
    MulMono(v2, q, B - 1);
    MulMono(v2, 0, q);
  }

  // Knuth's theorem B: with a normalised divisor the trial digit for the
  // leading three digits is the true digit or one more.
  lemma TrialDigitBound(qhat: nat, u2: nat, v2: nat, p: nat, ur: nat, vr: nat)
    requires v2 >= B / 2 * B && ur < p && vr < p
    requires u2 * p + ur < B * (v2 * p + vr)
    requires IsTrial(qhat, u2, v2)
    ensures qhat * (v2 * p + vr) <= u2 * p + ur + (v2 * p + vr)
    ensures u2 * p + ur < (qhat + 1) * (v2 * p + vr)
  {
    if qhat < B - 1 {
      TrialTooLow(qhat + 1, u2, v2, p, vr);
    }
    TrialTooHigh(qhat, u2, v2, p, vr);
  }

  lemma TrialTooLow(q: nat, u2: nat, v2: nat, p: nat, vr: nat)
    requires q * v2 > u2
    ensures q * (v2 * p + vr) >= u2 * p + p
  {
    WeightedProduct(q, v2, p, vr);
    MulMono(p, u2 + 1, q * v2);
    MulDist(u2, 1, p);
    MulMono(q, 0, vr);
  }

  lemma TrialTooHigh(q: nat, u2: nat, v2: nat, p: nat, vr: nat)
    requires q * v2 <= u2 && q <= v2 && vr < p
    ensures q * (v2 * p + vr) <= u2 * p + v2 * p
  {
    WeightedProduct(q, v2, p, vr);
    MulMono(p, q * v2, u2);
    MulMono(q, vr, p);
    MulMono(p, q, v2);
  }

  lemma WeightedProduct(q: nat, v2: nat, p: nat, vr: nat)
    ensures q * (v2 * p + vr) == (q * v2) * p + q * vr
  {
    MulAssoc(q, v2, p);
  }

  // ---------------------------------------------------------------------
  // D4: u[j..j+n] -= qhat * v[1..n], borrowing through wrapped 32-bit words.
  // ---------------------------------------------------------------------

  // The word computed for one digit, and the borrow taken from it.
  function SubWord(u: digit, v: digit, q: nat, t: nat): (w: nat)
    ensures w < U32
  {
    (u - v * q - t) % U32
  }

  function BorrowOf(w: nat): (t: nat)
    ensures t < B
  {
    (B - HHALF(w)) % B                                       // & (B - 1)
  }

  // Digits and final borrow of u - q * v, both of the same length.
  function Subtracted(u: seq<digit>, v: seq<digit>, q: nat): (seq<digit>, nat)
    requires |u| == |v|
  {
    if u == [] then ([], 0)
    else
      var (r, t) := Subtracted(u[1..], v[1..], q);
      var w := SubWord(u[0], v[0], q, t);
      ([LHALF(w)] + r, BorrowOf(w))
  }

  lemma SubtractedEmpty(u: seq<digit>, v: seq<digit>, q: nat)
    requires u == v == []
    ensures Subtracted(u, v, q) == ([], 0)
  {
  }

  lemma SubtractedUnfold(u: seq<digit>, v: seq<digit>, q: nat)
    requires |u| == |v| > 0
    ensures var rt := Subtracted(u[1..], v[1..], q);
            var w := SubWord(u[0], v[0], q, rt.1);
            Subtracted(u, v, q) == ([LHALF(w)] + rt.0, BorrowOf(w))
  {
    hide LHALF, BorrowOf, SubWord;
  }

  lemma {:induction false} SubtractedValue(u: seq<digit>, v: seq<digit>, q: nat)
    requires |u| == |v| && q < B
    ensures var (r, t) := Subtracted(u, v, q);
            |r| == |u| && t < B && Val(r) == Val(u) - q * Val(v) + t * Pw(|u|)
  {
    if u != [] {
      ValUncons(u);
      ValUncons(v);
      var (r, t0) := Subtracted(u[1..], v[1..], q);
      SubtractedValue(u[1..], v[1..], q);
      var w := SubWord(u[0], v[0], q, t0);
      SubtractDigit(u[0], v[0], q, t0);
      ValCons(LHALF(w), r);
      SubtractStep(LHALF(w), u[0], v[0], q, t0, BorrowOf(w), Pw(|r|), Val(r), Val(u[1..]), Val(v[1..]), Val(v));
    }
  }

  // One digit: the wrapped word splits into the new digit and the borrow.
  lemma SubtractDigit(u: digit, v: digit, q: nat, t: nat)
    requires q < B && t < B
    ensures var w := SubWord(u, v, q, t);
            u - v * q - t == LHALF(w) - BorrowOf(w) * B
  {
    MulMono(v, q, B - 1);
    MulMono(v, 0, q);
    BorrowSplit(u - v * q - t);
  }

  lemma BorrowSplit(x: int)
    requires -(B - 1) * B <= x < B
    ensures x == LHALF(x % U32) - BorrowOf(x % U32) * B
  {
  }

  lemma SubtractStep(r0: int, u0: int, v0: int, q: int, t0: int, t1: int, p: int, r: int, u: int, v: int,
                     vFull: int)
    requires u0 - v0 * q - t0 == r0 - t1 * B && vFull == v0 * p + v
    requires r == u - q * v + t0 * p
    ensures r0 * p + r == u0 * p + u - q * vFull + t1 * (B * p)
  {
    var a := v0 * q;
    calc {
      r0 * p + t0 * p;
      { MulDist(r0, t0, p); }
      (u0 - a + t1 * B) * p;
      { MulDist(u0 - a, t1 * B, p); MulDist(u0, -a, p); }
      u0 * p - a * p + (t1 * B) * p;
      { MulAssoc(t1, B, p); }
      u0 * p - a * p + t1 * (B * p);
      { MulAssoc(q, v0, p); }
      u0 * p - q * (v0 * p) + t1 * (B * p);
      { MulDist(v0 * p, v, q); assert q * vFull == q * (v0 * p) + q * v; }
      u0 * p - q * vFull + q * v + t1 * (B * p);
    }
  }

  // p[k] = d, in front of the digits k+1..hi already computed.
  method PutDigit(p: array<digit>, k: nat, hi: nat, d: digit)
    requires k < hi <= p.Length
    modifies p
    ensures p[k..hi] == [d] + old(p[k + 1..hi])
    ensures forall i :: 0 <= i < p.Length && i != k ==> p[i] == old(p[i])
  {
    p[k] := d;
  }

  method MultiplySubtract(us: array<digit>, j: nat, vs: array<digit>, vo: nat, n: nat, qhat: nat)
    returns (borrow: bool)
    requires us != vs && j + n < us.Length && vo + n <= vs.Length && qhat < B
    modifies us
    ensures us[..j] == old(us[..j]) && us[j + n + 1..] == old(us[j + n + 1..])
    ensures var (r, t) := Subtracted(old(us[j + 1..j + n + 1]), vs[vo..vo + n], qhat);
            && us[j + 1..j + n + 1] == r
            && borrow == (old(us[j]) < t)
            && us[j] == (old(us[j]) - t) % B
  {
    hide Val, Pw, Subtracted;
    ghost var u0 := us[j + 1..j + n + 1];
    ghost var v0 := vs[vo..vo + n];
    var t, i := 0, n;
    SubtractedEmpty(u0[n..], v0[n..], qhat);
    while i > 0
      invariant 0 <= i <= n && 0 <= t < B
      invariant forall k :: 0 <= k <= j + i || j + n < k < us.Length ==> us[k] == old(us[k])
      invariant (us[j + i + 1..j + n + 1], t) == Subtracted(u0[i..], v0[i..], qhat)
      decreases i
    {
      assert u0[i - 1..][1..] == u0[i..] && v0[i - 1..][1..] == v0[i..];
      assert us[i + j] == u0[i - 1..][0] && vs[vo + i - 1] == v0[i - 1..][0];
      SubtractedUnfold(u0[i - 1..], v0[i - 1..], qhat);
      t := SubWord(us[i + j], vs[vo + i - 1], qhat, t);
      PutDigit(us, i + j, j + n + 1, LHALF(t));
      t := BorrowOf(t);
      i := i - 1;
    }
    assert u0[0..] == u0 && v0[0..] == v0;
    LastBorrow(us[j], t);
    t := (us[j] - t) % U32;
    us[j] := LHALF(t);
    borrow := HHALF(t) != 0;
  }

  lemma LastBorrow(u: digit, t: nat)
    requires t < B
    ensures var w := (u - t) % U32;
            LHALF(w) == (u - t) % B && (HHALF(w) != 0 <==> u < t)
  {
  }

  // ---------------------------------------------------------------------
  // D6: add v[1..n] back to u[j..j+n], dropping the carry out of u[j].
  // ---------------------------------------------------------------------
  function SumWord(u: digit, v: digit, t: nat): nat { t + u + v }

  function Added(u: seq<digit>, v: seq<digit>): (seq<digit>, nat)
    requires |u| == |v|
  {
    if u == [] then ([], 0)
    else
      var (r, t) := Added(u[1..], v[1..]);
      var w := SumWord(u[0], v[0], t);
      ([LHALF(w)] + r, HHALF(w))
  }

  lemma AddedUnfold(u: seq<digit>, v: seq<digit>)
    requires |u| == |v| > 0
    ensures var rt := Added(u[1..], v[1..]);
            var w := SumWord(u[0], v[0], rt.1);
            Added(u, v) == ([LHALF(w)] + rt.0, HHALF(w))
  {
    hide LHALF, HHALF, SumWord;
  }

  lemma {:induction false} AddedValue(u: seq<digit>, v: seq<digit>)
    requires |u| == |v|
    ensures var (r, t) := Added(u, v);
            |r| == |u| && t <= 1 && Val(r) == Val(u) + Val(v) - t * Pw(|u|)
  {
    if u != [] {
      ValUncons(u);
      ValUncons(v);
      var (r, t0) := Added(u[1..], v[1..]);
      AddedValue(u[1..], v[1..]);
      var w := SumWord(u[0], v[0], t0);
      ValCons(LHALF(w), r);
      AddStep(LHALF(w), u[0], v[0], t0, HHALF(w), Pw(|r|));
    }
  }

  // One digit of the addition.
  method AddDigit(us: array<digit>, p: nat, hi: nat, v: digit, t0: nat, ghost u: seq<digit>, ghost w: seq<digit>)
    returns (t: nat)
    requires p < hi <= us.Length && |u| == |w| == hi - p && us[p] == u[0] && v == w[0] && t0 <= 1
    requires us[p + 1..hi] == Added(u[1..], w[1..]).0 && t0 == Added(u[1..], w[1..]).1
    modifies us
    ensures us[p..hi] == Added(u, w).0 && t == Added(u, w).1 && t <= 1
    ensures forall i :: 0 <= i < us.Length && i != p ==> us[i] == old(us[i])
  {
    AddedUnfold(u, w);
    hide Added;
    t := SumWord(us[p], v, t0);
    PutDigit(us, p, hi, LHALF(t));
    t := HHALF(t);
  }


  lemma AddStep(r0: int, u0: int, v0: int, t0: int, t1: int, p: int)
    requires u0 + v0 + t0 == r0 + t1 * B
    ensures r0 * p == u0 * p + v0 * p + t0 * p - t1 * (B * p)
  {
    MulAssoc(t1, B, p);
    MulDist(r0, t1 * B, p);
    MulDist(u0 + v0, t0, p);
    MulDist(u0, v0, p);
  }

  method AddBack(us: array<digit>, j: nat, vs: array<digit>, vo: nat, n: nat)
    requires us != vs && j + n < us.Length && vo + n <= vs.Length
    modifies us
    ensures us[..j] == old(us[..j]) && us[j + n + 1..] == old(us[j + n + 1..])
    ensures var (r, t) := Added(old(us[j + 1..j + n + 1]), vs[vo..vo + n]);
            && us[j + 1..j + n + 1] == r
            && us[j] == (old(us[j]) + t) % B
  {
    hide Val, Pw, Added;
    ghost var u0 := us[j + 1..j + n + 1];
    ghost var v0 := vs[vo..vo + n];
    NoneAdded(u0[n..], v0[n..]);
    var t: nat, i: nat := 0, n;
    while i > 0
      invariant 0 <= i <= n && 0 <= t <= 1
      invariant forall k :: 0 <= k <= j + i || j + n < k < us.Length ==> us[k] == old(us[k])
      invariant us[j + i + 1..j + n + 1] == Added(u0[i..], v0[i..]).0 && t == Added(u0[i..], v0[i..]).1
      decreases i
    {
      assert u0[i - 1..][1..] == u0[i..] && v0[i - 1..][1..] == v0[i..];
      assert us[i + j] == u0[i - 1..][0] && vs[vo + i - 1] == v0[i - 1..][0];
      t := AddDigit(us, i + j, j + n + 1, vs[vo + i - 1], t, u0[i - 1..], v0[i - 1..]);
      i := i - 1;
    }
    assert u0[0..] == u0 && v0[0..] == v0;
    us[j] := LHALF(us[j] + t);
  }

  lemma NoneAdded(u: seq<digit>, v: seq<digit>)
    requires u == v == []
    ensures Added(u, v) == ([], 0)
  {
  }

  // Leading digits against the rest of a digit string.
  lemma LeadingThree(s: seq<digit>)
    requires |s| >= 3
    ensures Val(s) == ((s[0] * B + s[1]) * B + s[2]) * Pw(|s| - 3) + Val(s[3..])
    ensures Val(s[3..]) < Pw(|s| - 3)
  {
    hide Val;
    LeadingTwo(s);
    ValUncons(s[2..]);
    assert s[2..][1..] == s[3..];
    ValBound(s[3..]);
    TwoWeights(s[0] * B + s[1], s[2], Pw(|s| - 3));
  }

  lemma LeadingTwo(s: seq<digit>)
    requires |s| >= 2
    ensures Val(s) == (s[0] * B + s[1]) * Pw(|s| - 2) + Val(s[2..])
    ensures Val(s[2..]) < Pw(|s| - 2)
  {
    hide Val;
    ValUncons(s);
    ValUncons(s[1..]);
    assert s[1..][1..] == s[2..];
    ValBound(s[2..]);
    TwoWeights(s[0], s[1], Pw(|s| - 2));
  }

  lemma TwoWeights(x: int, y: int, p: int)
    ensures x * (B * p) + y * p == (x * B + y) * p
  {
    MulDist(x * B, y, p);
    MulAssoc(x, B, p);
  }

  // The leading digit of u cannot pass that of v while u < B * v.
  lemma LeadingDigitBound(u: seq<digit>, v: seq<digit>)
    requires |u| == |v| + 1 && |v| >= 1 && Val(u) < B * Val(v)
    ensures u[0] <= v[0]
  {
    ValBound(v[1..]);
    ValUncons(u);
    ValUncons(v);
    LeadingDigitArith(u[0], v[0], Val(u[1..]), Val(v[1..]), Pw(|v| - 1));
  }

  lemma LeadingDigitArith(u0: nat, v0: nat, ur: nat, vr: nat, p: nat)
    requires u0 * (B * p) + ur < B * (v0 * p + vr) && vr < p
    ensures u0 <= v0
  {
    if u0 > v0 {
      MulMono(B * p, v0 + 1, u0);
      MulDist(v0, 1, p);
      MulAssoc(B, p, v0 + 1);
      assert false;
    }
  }

  lemma DigitDifference(u0: digit, r0: digit, ur: int, rr: int, t: nat, x: int, p: int)
    requires t < B && r0 == (u0 - t) % B
    requires rr == ur - x + t * p
    ensures r0 * p + rr == u0 * p + ur - x + (if u0 < t then B * p else 0)
  {
    AddStep(r0, u0, -(t as int), 0, if u0 < t then -1 else 0, p);
  }

  lemma DigitSum(u0: digit, r0: digit, ur: int, rr: int, t: nat, v: int, p: int)
    requires t <= 1 && r0 == (u0 + t) % B
    requires rr == ur + v - t * p
    ensures r0 * p + rr == u0 * p + ur + v - (if u0 + t < B then 0 else B * p)
  {
    AddStep(r0, u0, 0, t, if u0 + t < B then 0 else 1, p);
  }

  // The digit after D4, and after D6 when D4 borrowed: u is the dividend
  // window, w its value after D4, w' after D6, x = qhat * v.
  lemma DigitResult(u: int, v: int, x: int, p: int, borrow: bool, w: int)
    requires x <= u + v && u < x + v && 0 <= w < p
    requires w == u - x + (if borrow then p else 0)
    ensures !borrow ==> w < v
    ensures borrow ==> u < x && w + v - p == u - x + v < v && p <= w + v
  {
  }

  // ---------------------------------------------------------------------
  // D3 to D6 for one quotient digit.
  // ---------------------------------------------------------------------
  ghost predicate QuotientWindow(u: seq<digit>, v: seq<digit>)
  {
    |u| == |v| + 1 >= 3 && v[0] >= B / 2 && Val(u) < B * Val(v)
  }

  method D3(us: array<digit>, j: nat, vs: array<digit>, vo: nat, n: nat) returns (qhat: nat)
    requires n >= 2 && j + n < us.Length && vo + n <= vs.Length
    requires QuotientWindow(us[j..j + n + 1], vs[vo..vo + n])
    ensures qhat < B
    ensures qhat * Val(vs[vo..vo + n]) <= Val(us[j..j + n + 1]) + Val(vs[vo..vo + n])
    ensures Val(us[j..j + n + 1]) < qhat * Val(vs[vo..vo + n]) + Val(vs[vo..vo + n])
  {
    ghost var u, v := us[j..j + n + 1], vs[vo..vo + n];
    LeadingDigitBound(u, v);
    qhat := TrialDigit(us[j], us[j + 1], us[j + 2], vs[vo], vs[vo + 1]);
    TrialIsClose(u, v, qhat);
  }

  lemma TrialIsClose(u: seq<digit>, v: seq<digit>, qhat: nat)
    requires QuotientWindow(u, v)
    requires IsTrial(qhat, (u[0] * B + u[1]) * B + u[2], v[0] * B + v[1])
    ensures qhat * Val(v) <= Val(u) + Val(v) && Val(u) < qhat * Val(v) + Val(v)
  {
    hide Val;
    LeadingThree(u);
    LeadingTwo(v);
    TrialDigitBound(qhat, (u[0] * B + u[1]) * B + u[2], v[0] * B + v[1], Pw(|v| - 2), Val(u[3..]), Val(v[2..]));
    MulDist(qhat, 1, Val(v));
  }

  // The window after D4.
  ghost predicate IsDifference(u: seq<digit>, v: seq<digit>, q: nat, u1: seq<digit>, borrow: bool)
    requires |u| == |v| + 1
  {
    var (r, t) := Subtracted(u[1..], v, q);
    |u1| == |u| && u1[1..] == r && u1[0] == (u[0] - t) % B && borrow == (u[0] < t)
  }

  lemma DifferenceValue(u: seq<digit>, v: seq<digit>, q: nat, u1: seq<digit>, borrow: bool)
    requires |u| == |v| + 1 && q < B && IsDifference(u, v, q, u1, borrow)
    ensures Val(u1) == Val(u) - q * Val(v) + (if borrow then Pw(|u|) else 0)
  {
    hide Val;
    var (r, t) := Subtracted(u[1..], v, q);
    SubtractedValue(u[1..], v, q);
    DigitDifference(u[0], u1[0], Val(u[1..]), Val(r), t, q * Val(v), Pw(|v|));
    ValUncons(u);
    ValUncons(u1);
  }

  // The window after D6.
  ghost predicate IsSum(u1: seq<digit>, v: seq<digit>, u2: seq<digit>)
    requires |u1| == |v| + 1
  {
    var (r, t) := Added(u1[1..], v);
    |u2| == |u1| && u2[1..] == r && u2[0] == (u1[0] + t) % B
  }

  lemma SumValue(u1: seq<digit>, v: seq<digit>, u2: seq<digit>)
    requires |u1| == |v| + 1 && IsSum(u1, v, u2)
    ensures Val(u2) == Val(u1) + Val(v) || Val(u2) == Val(u1) + Val(v) - Pw(|u1|)
  {
    hide Val;
    var (r, t) := Added(u1[1..], v);
    AddedValue(u1[1..], v);
    DigitSum(u1[0], u2[0], Val(u1[1..]), Val(r), t, Val(v), Pw(|v|));
    ValUncons(u1);
    ValUncons(u2);
  }

  lemma DigitFound(u: seq<digit>, v: seq<digit>, q: nat, u1: seq<digit>, borrow: bool)
    requires QuotientWindow(u, v) && q < B && IsDifference(u, v, q, u1, borrow)
    requires q * Val(v) <= Val(u) + Val(v) && Val(u) < q * Val(v) + Val(v)
    ensures !borrow ==> Val(u) == q * Val(v) + Val(u1) && Val(u1) < Val(v)
    ensures borrow ==> q > 0 && forall u2 :: IsSum(u1, v, u2) ==>
                         Val(u) == (q - 1) * Val(v) + Val(u2) && Val(u2) < Val(v)
  {
    hide Val;
    DifferenceValue(u, v, q, u1, borrow);
    ValBound(u1);
    DigitResult(Val(u), Val(v), q * Val(v), Pw(|u|), borrow, Val(u1));
    if borrow {
      forall u2 | IsSum(u1, v, u2)
        ensures Val(u) == (q - 1) * Val(v) + Val(u2) && Val(u2) < Val(v)
      {
        SumValue(u1, v, u2);
        ValBound(u2);
        MulDist(q, -1, Val(v));
      }
    }
  }

  method QuotientDigit(us: array<digit>, j: nat, vs: array<digit>, vo: nat, n: nat) returns (q: digit)
    requires us != vs && n >= 2 && j + n < us.Length && vo + n <= vs.Length
    requires QuotientWindow(us[j..j + n + 1], vs[vo..vo + n])
    modifies us
    ensures us[..j] == old(us[..j]) && us[j + n + 1..] == old(us[j + n + 1..])
    ensures Val(old(us[j..j + n + 1])) == q * Val(vs[vo..vo + n]) + Val(us[j..j + n + 1])
    ensures Val(us[j..j + n + 1]) < Val(vs[vo..vo + n])
  {
    hide Val;
    ghost var u, v := us[j..j + n + 1], vs[vo..vo + n];
    var qhat := D3(us, j, vs, vo, n);
    var borrow := MultiplySubtract(us, j, vs, vo, n, qhat);
    ghost var u1 := us[j..j + n + 1];
    assert IsDifference(u, v, qhat, u1, borrow) by {
      assert u[1..] == old(us[j + 1..j + n + 1]) && u1[1..] == us[j + 1..j + n + 1] && v == vs[vo..vo + n];
    }
    DigitFound(u, v, qhat, u1, borrow);
    label D4:
    if borrow {
      qhat := qhat - 1;
      AddBack(us, j, vs, vo, n);
      assert IsSum(u1, v, us[j..j + n + 1]) by {
        assert us[j..j + n + 1][1..] == us[j + 1..j + n + 1] && u1[1..] == old@D4(us[j + 1..j + n + 1]);
      }
    }
    q := qhat;
  }

  // ---------------------------------------------------------------------
  // Digits of a 64-bit word, and back (union uu with HHALF, LHALF, COMBINE).
  // ---------------------------------------------------------------------
  method Break(a: array<digit>, x: nat)
    requires a.Length == 5 && x < U64
    modifies a
    ensures a[0] == old(a[0]) && Val(a[1..]) == x
  {
    var hi, lo := x / U32, x % U32;
    a[1] := HHALF(hi);
    a[2] := LHALF(hi);
    a[3] := HHALF(lo);
    a[4] := LHALF(lo);
    FourDigits(a[1..]);
  }

  lemma FourDigits(s: seq<digit>)
    requires |s| == 4
    ensures Val(s) == ((s[0] * B + s[1]) * B + s[2]) * B + s[3]
    ensures Val(s) == COMBINE(s[0], s[1]) * U32 + COMBINE(s[2], s[3])
  {
    LeadingThree(s);
    assert s[3..] == [s[3]] && Val([s[3]]) == s[3] && Pw(1) == B;
    Pow2Values();
  }

  // ---------------------------------------------------------------------
  // One-digit divisor: exercise 16, unrolled.
  // ---------------------------------------------------------------------
  method ShortDivide(u: array<digit>, t: digit) returns (q: nat, r: nat)
    requires u.Length == 5 && t != 0
    ensures Val(u[1..]) == q * t + r && r < t
  {
    Pow2Values();
    FourDigits(u[1..]);
    var q1, r1 := ShortDigit(0, u[1], t);
    var q2, r2 := ShortDigit(r1, u[2], t);
    var q3, r3 := ShortDigit(r2, u[3], t);
    var q4, r4 := ShortDigit(r3, u[4], t);
    ShortArith(u[1], u[2], u[3], u[4], t, q1, q2, q3, q4, r1, r2, r3, r4);
    q := COMBINE(q1, q2) * U32 + COMBINE(q3, q4);
    r := r4;
  }

  // q[j] = floor((r*B + u[j]) / v), r = (r*B + u[j]) % v
  method ShortDigit(r: nat, d: digit, t: digit) returns (q: digit, r': nat)
    requires r < t
    ensures r * B + d == q * t + r' && r' < t
  {
    hide COMBINE;
    var rbj := COMBINE(r, d);
    ShortQuotient(r, d, t);
    q := rbj / t;
    r' := rbj % t;
  }

  lemma ShortQuotient(r: nat, d: digit, t: digit)
    requires r < t
    ensures var x := r * B + d; x == (x / t) * t + x % t && 0 <= x / t < B && 0 <= x % t < t
  {
    var x := r * B + d;
    var q, y := x / t, x % t;
    assert x == t * q + y;
    if q >= B {
      MulMono(t, B, q);
      MulMono(B, r + 1, t);
    }
  }

  lemma ShortArith(u1: int, u2: int, u3: int, u4: int, t: int, q1: int, q2: int, q3: int, q4: int,
                   r1: int, r2: int, r3: int, r4: int)
    requires u1 == q1 * t + r1 && r1 * B + u2 == q2 * t + r2
    requires r2 * B + u3 == q3 * t + r3 && r3 * B + u4 == q4 * t + r4
    ensures ((u1 * B + u2) * B + u3) * B + u4 == ((q1 * B + q2) * U32 + (q3 * B + q4)) * t + r4
  {
    MulDist((q1 * B + q2) * U32, q3 * B + q4, t);
    MulDist(q1 * B, q2, t);
    MulDist(q3 * B, q4, t);
  }

  // ---------------------------------------------------------------------
  // Undoing the normalisation: u[m+1..m+n] >> d, in place from the right.
  // lo is the offset of u[m].
  // ---------------------------------------------------------------------
  function UnshiftedDigit(p: digit, x: digit, d: nat): digit
    requires 1 <= d <= 15
  {
    JoinShift(p, x, 16 - d, d)
  }

  method Unshift(us: array<digit>, lo: nat, n: nat, d: nat)
    requires lo + n + 1 == us.Length && 1 <= d <= 15 && us[lo] == 0
    modifies us
    ensures us[..lo + 1] == old(us[..lo + 1])
    ensures Val(us[lo + 1..]) * Pow2(d) <= Val(old(us[lo + 1..])) < Val(us[lo + 1..]) * Pow2(d) + Pow2(d)
  {
    ghost var s := us[lo..];
    var i := n;
    while i > 0
      invariant 0 <= i <= n
      invariant forall k :: 0 <= k <= lo + i ==> us[k] == old(us[k])
      invariant forall k :: i < k <= n ==> us[lo + k] == UnshiftedDigit(s[k - 1], s[k], d)
    {
      us[lo + i] := UnshiftedDigit(us[lo + i - 1], us[lo + i], d);
      i := i - 1;
    }
    us[lo] := 0;
    assert s[1..] == old(us[lo + 1..]);
    UnshiftedValue(s, us[lo + 1..], d, Pow2(d));
    UnshiftedDigitOf(0, s[n], d);
  }

  // s carries the digit before the string in front; remainders pass one digit down.
  lemma {:induction false} UnshiftedValue(s: seq<digit>, t: seq<digit>, d: nat, a: nat)
    requires 1 <= d <= 15 && |s| == |t| + 1 && a == Pow2(d)
    requires forall k :: 0 <= k < |t| ==> t[k] == UnshiftedDigit(s[k], s[k + 1], d)
    ensures Val(t) * a + s[|t|] % a == Val(s[1..]) + (s[0] % a) * Pw(|t|)
    decreases |s|
  {
    if t != [] {
      ValUncons(s[1..]);
      ValUncons(t);
      UnshiftedValue(s[1..], t[1..], d, a);
      assert s[1..][1..] == s[1..][1..];
      UnshiftedDigitOf(s[0], s[1], d);
      UnshiftStep(t[0], s[1], s[1] % a, s[0] % a, a, Pw(|t| - 1), Val(t[1..]), Val(t));
    }
  }

  lemma UnshiftedDigitOf(p: digit, x: digit, d: nat)
    requires 1 <= d <= 15
    ensures UnshiftedDigit(p, x, d) * Pow2(d) == x - x % Pow2(d) + (p % Pow2(d)) * B
    ensures 0 <= x % Pow2(d) < Pow2(d) && 0 % Pow2(d) == 0
  {
    UnshiftedDigitValue(p, x, UnshiftedDigit(p, x, d), d, 16 - d);
  }

  lemma UnshiftedDigitValue(p: digit, x: digit, y: digit, d: nat, up: nat)
    requires 1 <= d <= 15 && up + d == 16
    requires y == LHALF(p * Pow2(up)) + x / Pow2(d)
    ensures y * Pow2(d) == x - x % Pow2(d) + (p % Pow2(d)) * B
  {
    Pow2Add(d, up);
    Pow2Values();
    UnshiftDivMod(p, x, y, Pow2(d), Pow2(up));
  }

  lemma UnshiftDivMod(p: digit, x: digit, y: digit, a: nat, b: nat)
    requires a > 0 && b > 0 && a * b == B && y == (p * b) % B + x / a
    ensures y * a == x - x % a + (p % a) * B
  {
    ShiftSplitQ(p, b, a, p / a, p % a);
    UnshiftArith(p % a, x / a, x % a, x, a, b, y);
  }

  lemma UnshiftStep(t0: int, s0: int, e: int, pa: int, a: int, w: int, tr: int, tFull: int)
    requires t0 * a == s0 - e + pa * B && tFull == t0 * w + tr
    ensures tFull * a == s0 * w - e * w + pa * (B * w) + tr * a
  {
    MulDist(t0 * w, tr, a);
    MulAssoc(t0, w, a);
    MulAssoc(t0, a, w);
    MulDist(s0 - e, pa * B, w);
    MulDist(s0, -e, w);
    MulAssoc(pa, B, w);
  }

  lemma UnshiftArith(pa: int, q: int, r: int, x: int, a: int, b: int, y: int)
    requires a * b == B && x == a * q + r && y == pa * b + q
    ensures y * a == x - r + pa * B
  {
    MulDist(pa * b, q, a);
    MulAssoc(pa, b, a);
  }

  // ---------------------------------------------------------------------
  // D1: scale both operands by 2^d so that the divisor's first digit is at
  // least B/2; nothing falls out on the left.
  // ---------------------------------------------------------------------
  method Normalise(us: array<digit>, uo: nat, vs: array<digit>, vo: nat) returns (d: nat)
    requires us != vs && us.Length == vs.Length == 5 && uo < 4 && 1 <= vo <= 3
    requires us[uo] == 0 && vs[vo] > 0
    modifies us, vs
    ensures d <= 15 && vs[vo] >= B / 2 && us[..uo] == old(us[..uo])
    ensures Val(us[uo..]) == Val(old(us[uo..])) * Pow2(d)
    ensures Val(vs[vo..]) == Val(old(vs[vo..])) * Pow2(d)
  {
    d := LeadingShift(vs[vo]);
    if d > 0 {
      ScaleUp(us, uo, d);
      ghost var v0 := vs[vo..];
      ScaleUp(vs, vo, d);
      ScaledLeadingDigit(v0, vs[vo..], Pow2(d));
    }
  }

  method LeadingShift(v1: digit) returns (d: nat)
    requires v1 > 0
    ensures d <= 15 && B / 2 <= v1 * Pow2(d) < B
  {
    d := 0;
    Pow2Values();
    var t: nat := v1;
    while t < B / 2
      invariant t == v1 * Pow2(d) && Pow2(d) <= t < B && d <= 15
      decreases B - t
    {
      DoubleShift(v1, d, t);
      d := d + 1;
      t := t * 2;
    }
  }

  lemma DoubleShift(x: nat, d: nat, t: nat)
    requires t == x * Pow2(d) && Pow2(d) <= t < B / 2 && d <= 15
    ensures 2 * t == x * Pow2(d + 1) && d < 15
  {
    Pow2Values();
    MulAssoc(x, Pow2(d), 2);
    assert Pow2(d) * 2 == Pow2(d + 1);
  }

  method ScaleUp(p: array<digit>, lo: nat, d: nat)
    requires p.Length == 5 && lo <= 4 && 1 <= d <= 15 && p[lo] * Pow2(d) < B
    modifies p
    ensures p[..lo] == old(p[..lo])
    ensures Val(p[lo..]) == Val(old(p[lo..])) * Pow2(d)
  {
    NoCarryOut(p[lo], d);
    assert p[lo..5] == p[lo..];
    Shl(p, lo, 4 - lo, d);
    assert p[lo..5] == p[lo..];
  }

  lemma NoCarryOut(x: digit, d: nat)
    requires 1 <= d <= 15 && x * Pow2(d) < B
    ensures x / Pow2(16 - d) == 0
  {
    ShiftSplit(x, d);
  }

  lemma ScaledLeadingDigit(s: seq<digit>, t: seq<digit>, a: nat)
    requires |s| == |t| > 0 && s[0] * a >= B / 2 && Val(t) == Val(s) * a
    ensures t[0] >= B / 2
  {
    ValBound(t[1..]);
    ValUncons(s);
    ValUncons(t);
    ScaledArith(s[0], t[0], a, Pw(|s| - 1), Val(s[1..]), Val(t[1..]), Val(s));
  }

  lemma ScaledArith(s0: nat, t0: nat, a: nat, p: nat, sr: nat, tr: nat, sFull: nat)
    requires s0 * a >= B / 2 && sFull == s0 * p + sr && t0 * p + tr == sFull * a && tr < p
    ensures t0 >= B / 2
  {
    MulDist(s0 * p, sr, a);
    MulMono(a, 0, sr);
    MulAssoc(s0, p, a);
    MulAssoc(s0, a, p);
    MulMono(p, B / 2, s0 * a);
    if t0 < B / 2 {
      MulMono(p, t0 + 1, B / 2);
      assert false;
    }
  }

  // ---------------------------------------------------------------------
  // D2 to D7: the quotient digits, most significant first.  uo, vo and qo
  // are the offsets of u[0], v[1] and q[0].
  // ---------------------------------------------------------------------
  method QuotientDigits(us: array<digit>, uo: nat, vs: array<digit>, vo: nat, n: nat, m: nat,
                        qs: array<digit>, qo: nat)
    requires us != vs && us != qs && vs != qs && us.Length == vs.Length == qs.Length == 5
    requires n >= 2 && uo + m + n == 4 && vo + n == 5 && qo + m == 4
    requires vs[vo] >= B / 2 && Val(us[uo..]) < Val(vs[vo..]) * Pw(m + 1)
    modifies us, qs
    ensures us[..uo] == old(us[..uo]) && qs[..qo] == old(qs[..qo])
    ensures Val(us[uo..]) < Val(vs[vo..])
    ensures Val(old(us[uo..])) == Val(qs[qo..]) * Val(vs[vo..]) + Val(us[uo..])
  {
    hide Val, Pw, Progress, Below;
    ghost var u := Val(us[uo..]);
    ghost var q := 0;
    var j := 0;
    DivisionStart(u, Val(vs[vo..]), m, qs[qo..qo]);
    while j <= m
      invariant 0 <= j <= m + 1
      invariant us[..uo] == old(us[..uo]) && qs[..qo] == old(qs[..qo])
      invariant Val(qs[qo..qo + j]) == q
      invariant Below(Val(us[uo..]), Val(vs[vo..]), Pw(m + 1 - j))
      invariant Progress(u, q, Val(vs[vo..]), Pw(m + 1 - j), Val(us[uo..]))
      decreases m + 1 - j
    {
      q := DigitStep(us, uo, j, vs, vo, n, m, qs, qo, u, q);
      j := j + 1;
    }
    assert qs[qo..qo + j] == qs[qo..];
    DivisionEnd(u, q, Val(vs[vo..]), Val(us[uo..]));
  }

  lemma DivisionStart(u: nat, v: nat, m: nat, none: seq<digit>)
    requires u < v * Pw(m + 1) && none == []
    ensures Below(u, v, Pw(m + 1)) && Progress(u, 0, v, Pw(m + 1), u) && Val(none) == 0
  {
  }

  lemma DivisionEnd(u: nat, q: nat, v: nat, w: nat)
    requires Below(w, v, Pw(0)) && Progress(u, q, v, Pw(0), w)
    ensures w < v && u == q * v + w
  {
  }

  ghost predicate Progress(u: int, q: int, v: int, p: int, w: int) { u == (q * v) * p + w }

  ghost predicate Below(w: int, v: int, p: int) { w < v * p }

  // One round of the loop: the digit is found and stored.
  method DigitStep(us: array<digit>, uo: nat, j: nat, vs: array<digit>, vo: nat, n: nat, m: nat,
                   qs: array<digit>, qo: nat, ghost u: nat, ghost q: nat) returns (ghost q': nat)
    requires us != vs && us != qs && vs != qs && us.Length == vs.Length == qs.Length == 5
    requires n >= 2 && uo + m + n == 4 && vo + n == 5 && qo + m == 4 && j <= m && vs[vo] >= B / 2
    requires Val(qs[qo..qo + j]) == q
    requires Below(Val(us[uo..]), Val(vs[vo..]), Pw(m + 1 - j))
    requires Progress(u, q, Val(vs[vo..]), Pw(m + 1 - j), Val(us[uo..]))
    modifies us, qs
    ensures us[..uo] == old(us[..uo]) && qs[..qo] == old(qs[..qo])
    ensures Val(qs[qo..qo + j + 1]) == q'
    ensures Below(Val(us[uo..]), Val(vs[vo..]), Pw(m - j))
    ensures Progress(u, q', Val(vs[vo..]), Pw(m - j), Val(us[uo..]))
  {
    hide Val;
    ghost var w := Val(us[uo..]);
    var qj := NextDigit(us, uo, j, vs, vo, n, m);
    Store(qs, qo, j, qj);
    CollectDigit(u, q, Val(vs[vo..]), qj, Pw(m - j), w, Val(us[uo..]));
    q' := q * B + qj;
  }

  // q[j] = qhat
  method Store(qs: array<digit>, qo: nat, j: nat, qj: digit)
    requires qo + j < qs.Length
    modifies qs
    ensures qs[..qo] == old(qs[..qo])
    ensures Val(qs[qo..qo + j + 1]) == Val(old(qs[qo..qo + j])) * B + qj
  {
    ghost var qd := qs[qo..qo + j];
    qs[qo + j] := qj;
    assert qs[qo..qo + j + 1] == qd + [qj];
    AppendDigit(qd, qj);
  }

  lemma AppendDigit(s: seq<digit>, d: digit)
    ensures Val(s + [d]) == Val(s) * B + d
  {
    ValConcat(s, [d]);
    assert Val([d]) == d && Pw(1) == B;
  }

  method NextDigit(us: array<digit>, uo: nat, j: nat, vs: array<digit>, vo: nat, n: nat, m: nat) returns (q: digit)
    requires us != vs && us.Length == vs.Length == 5
    requires n >= 2 && uo + m + n == 4 && vo + n == 5 && j <= m
    requires vs[vo] >= B / 2 && Val(us[uo..]) < Val(vs[vo..]) * Pw(m + 1 - j)
    modifies us
    ensures us[..uo] == old(us[..uo])
    ensures Val(old(us[uo..])) == (q * Val(vs[vo..])) * Pw(m - j) + Val(us[uo..])
    ensures Val(us[uo..]) < Val(vs[vo..]) * Pw(m - j)
  {
    hide Val, Pw;
    ghost var a, s, v := us[..], us[uo..], vs[vo..];
    WindowOf(s, j, n, m, v);
    SliceOfDrop(us[..], uo, j, j + n + 1);
    assert us[uo + j..uo + j + n + 1] == s[j..j + n + 1];
    assert vs[vo..vo + n] == v;
    q := QuotientDigit(us, uo + j, vs, vo, n);
    ghost var s' := us[uo..];
    SliceOfDrop(us[..], uo, j, j + n + 1);
    assert us[uo + j..uo + j + n + 1] == s'[j..j + n + 1];
    OutsideWindow(a, us[..], uo, j, n);
    WindowReduced(s, s', j, n, m, Val(v), q);
  }

  // What is outside a window of the dividend stays.
  lemma OutsideWindow(a: seq<digit>, a': seq<digit>, o: nat, j: nat, n: nat)
    requires |a| == |a'| && o + j + n + 1 <= |a|
    requires a'[..o + j] == a[..o + j] && a'[o + j + n + 1..] == a[o + j + n + 1..]
    ensures a'[..o] == a[..o] && a'[o..][..j] == a[o..][..j] && a'[o..][j + n + 1..] == a[o..][j + n + 1..]
  {
    assert a'[..o] == a'[..o + j][..o];
    assert a'[o..][..j] == a'[..o + j][o..] && a[o..][..j] == a[..o + j][o..];
    assert a'[o..][j + n + 1..] == a'[o + j + n + 1..] && a[o..][j + n + 1..] == a[o + j + n + 1..];
  }

  lemma SliceOfDrop(a: seq<digit>, o: nat, i: nat, k: nat)
    requires i <= k && o + k <= |a|
    ensures a[o..][i..k] == a[o + i..o + k]
  {
  }

  // The n + 1 digits at j are below B * v, and those before them are zero.
  lemma WindowOf(s: seq<digit>, j: nat, n: nat, m: nat, v: seq<digit>)
    requires |s| == m + n + 1 && j <= m && |v| == n && Val(s) < Val(v) * Pw(m + 1 - j)
    ensures Val(s[j..j + n + 1]) < B * Val(v)
    ensures forall i :: 0 <= i < j ==> s[i] == 0
  {
    hide Val;
    ValBound(v);
    MulMono(Pw(m + 1 - j), Val(v), Pw(n));
    PwAdd(n, m + 1 - j);
    LeadingZeros(s, j);
    SplitAt(s, j, n, m);
    WindowArith(Val(s[j..j + n + 1]), Val(v), Pw(m - j));
  }

  lemma WindowArith(w: nat, v: nat, p: nat)
    requires w * p < v * (B * p)
    ensures w < B * v
  {
    if w >= B * v {
      MulMono(p, B * v, w);
      MulAssoc(v, B, p);
      assert false;
    }
  }

  lemma WindowReduced(s: seq<digit>, s': seq<digit>, j: nat, n: nat, m: nat, v: nat, q: digit)
    requires |s| == |s'| == m + n + 1 && j <= m
    requires s'[..j] == s[..j] && s'[j + n + 1..] == s[j + n + 1..]
    requires forall i :: 0 <= i < j ==> s[i] == 0
    requires Val(s[j..j + n + 1]) == q * v + Val(s'[j..j + n + 1])
    requires Val(s'[j..j + n + 1]) < v
    ensures Val(s) == (q * v) * Pw(m - j) + Val(s')
    ensures Val(s') < v * Pw(m - j)
  {
    hide Val;
    var p := Pw(m - j);
    forall i | 0 <= i < j ensures s'[i] == 0 { assert s'[i] == s'[..j][i] == s[..j][i]; }
    SplitAt(s, j, n, m);
    SplitAt(s', j, n, m);
    ValBound(s[j + n + 1..]);
    MulDist(q * v, Val(s'[j..j + n + 1]), p);
    MulLess(p, Val(s'[j..j + n + 1]), v);
  }

  lemma SplitAt(s: seq<digit>, j: nat, n: nat, m: nat)
    requires |s| == m + n + 1 && j <= m && forall i :: 0 <= i < j ==> s[i] == 0
    ensures Val(s) == Val(s[j..j + n + 1]) * Pw(m - j) + Val(s[j + n + 1..])
  {
    assert s == s[..j] + s[j..];
    ValConcat(s[..j], s[j..]);
    ValZeros(s[..j]);
    assert s[j..] == s[j..j + n + 1] + s[j + n + 1..];
    ValConcat(s[j..j + n + 1], s[j + n + 1..]);
  }

  lemma CollectDigit(u: int, q: int, v: int, qj: int, p: int, w: int, w': int)
    requires Progress(u, q, v, B * p, w) && w == (qj * v) * p + w'
    ensures Progress(u, q * B + qj, v, p, w')
  {
    MulDist(q * B, qj, v);
    MulDist((q * B) * v, qj * v, p);
    assert ((q * B) * v) * p == (q * v) * (B * p) by {
      assert (q * B) * v == (q * v) * B;
      MulAssoc(q * v, B, p);
    }
  }

  // ---------------------------------------------------------------------
  // __qdivrem
  // ---------------------------------------------------------------------
  datatype Division = DivideByZero | Division(q: nat, r: nat)

  ghost predicate Divides(d: Division, u: nat, v: nat)
  {
    d.Division? && u == d.q * v + d.r && d.r < v
  }

  method QDivRem(uq: nat, vq: nat) returns (res: Division)
    requires uq < U64 && vq < U64
    ensures vq == 0 ==> res == DivideByZero
    ensures vq > 0 ==> Divides(res, uq, vq) && res.q < U64
  {
    if vq == 0 {
      return DivideByZero;          // the C code divides by a volatile zero
    }
    if uq < vq {
      return Division(0, uq);
    }
    var us, vs := new digit[5], new digit[5];
    us[0] := 0;
    Break(us, uq);
    Break(vs, vq);
    var n, vo := 4, 1;              // v[k] is vs[vo - 1 + k]
    while vs[vo] == 0
      invariant 1 <= vo <= 3 && n == 5 - vo && Val(vs[vo..]) == vq
      decreases n
    {
      n := n - 1;
      assert vs[vo..][1..] == vs[vo + 1..];
      if n == 1 {
        assert vs[4..] == [vs[4]];
        assert Val([vs[4]]) == vs[4];
        var q, r := ShortDivide(us, vs[vo + 1]);
        QuotientBound(uq, vq, q, r);
        return Division(q, r);
      }
      vo := vo + 1;
    }
    var q, r := LongDivide(us, vs, vo, n, uq, vq);
    QuotientBound(uq, vq, q, r);
    return Division(q, r);
  }

  lemma QuotientBound(u: nat, v: nat, q: nat, r: nat)
    requires u == q * v + r && v > 0
    ensures q <= u
  {
    MulMono(q, 1, v);
  }

  // m and the offset of u[0] once the leading zero digits are skipped.
  method SkipZeros(us: array<digit>, n: nat, ghost uq: nat) returns (m: nat, uo: nat)
    requires us.Length == 5 && 2 <= n <= 4 && us[0] == 0 && Val(us[1..]) == uq >= Pw(n - 1)
    ensures uo + m + n == 4 && Val(us[uo..]) == uq < Pw(m + n)
    ensures forall k :: 0 <= k <= uo ==> us[k] == 0
  {
    m, uo := 4 - n, 0;              // u[k] is us[uo + k]
    while us[uo + 1] == 0
      invariant uo + m + n == 4 && Val(us[uo + 1..]) == uq
      invariant forall k :: 0 <= k <= uo ==> us[k] == 0
      decreases m
    {
      assert us[uo + 1..][1..] == us[uo + 2..];
      if m == 0 {
        ValBound(us[uo + 2..]);
        assert false;
      }
      uo := uo + 1;
      m := m - 1;
    }
    assert us[uo..][1..] == us[uo + 1..];
    ValBound(us[uo + 1..]);
  }

  // Two to four divisor digits: Program D.
  method LongDivide(us: array<digit>, vs: array<digit>, vo: nat, n: nat, ghost uq: nat, ghost vq: nat)
    returns (q: nat, r: nat)
    requires us != vs && us.Length == vs.Length == 5 && 1 <= vo <= 3 && n == 5 - vo
    requires us[0] == 0 && Val(us[1..]) == uq && Val(vs[vo..]) == vq && vs[vo] > 0 && uq >= vq
    modifies us, vs
    ensures uq == q * vq + r && r < vq
  {
    hide Val, Pw, Pow2;
    LeadingLower(vs[vo..]);
    var m, uo := SkipZeros(us, n, uq);
    BelowPower(uq, vq, n, m);
    ghost var head := us[..uo];
    var d := Normalise(us, uo, vs, vo);
    ScaleBelow(uq, vq, Pw(m + 1), Pow2(d));
    var qs := new digit[5];
    ZeroDigits(qs, 4 - m);
    ghost var qhead := qs[..4 - m];
    QuotientDigits(us, uo, vs, vo, n, m, qs, 4 - m);
    ghost var big := Val(us[uo..]);
    ValBound(vs[vo..]);
    assert us[..uo] == head && qs[..4 - m] == qhead;
    forall k | 0 <= k < uo ensures us[k] == 0 { assert us[k] == head[k]; }
    forall k | 1 <= k < 4 - m ensures qs[k] == 0 { assert qs[k] == qhead[k]; }
    q := Join(qs, 4 - m);
    r := Remainder(us, uo, n, m, d);
    Unscale(uq, vq, q, big, Pow2(d), r);
  }

  // u[m..m+n] >> d
  method Remainder(us: array<digit>, uo: nat, n: nat, m: nat, d: nat) returns (r: nat)
    requires us.Length == 5 && uo + m + n == 4 && d <= 15 && Val(us[uo..]) < Pw(n)
    requires forall k :: 0 <= k < uo ==> us[k] == 0
    modifies us
    ensures r * Pow2(d) <= Val(old(us[uo..])) < r * Pow2(d) + Pow2(d)
  {
    RemainderDigits(us[..], uo, n, m);
    assert us[uo..] == us[..][uo..] && us[5 - n..] == us[..][5 - n..];
    if d > 0 {
      assert 4 - n + 1 == 5 - n;
      Unshift(us, 4 - n, n, d);
      assert forall k :: 0 <= k < 5 - n ==> us[k] == us[..5 - n][k];
    }
    r := Join(us, 5 - n);
  }

  // What is left is below v, so it lies in the last n digits.
  lemma RemainderDigits(u: seq<digit>, uo: nat, n: nat, m: nat)
    requires |u| == 5 && uo + m + n == 4 && Val(u[uo..]) < Pw(n)
    requires forall k :: 0 <= k < uo ==> u[k] == 0
    ensures forall k :: 0 <= k < 5 - n ==> u[k] == 0
    ensures Val(u[uo..]) == Val(u[5 - n..])
  {
    LeadingZeros(u[uo..], m + 1);
    assert u[uo..][m + 1..] == u[5 - n..];
    forall k | uo <= k < 5 - n ensures u[k] == 0 {
      assert u[k] == u[uo..][k - uo];
    }
  }

  // q[i] = 0 below the offset of the quotient
  method ZeroDigits(qs: array<digit>, k: nat)
    requires k <= qs.Length
    modifies qs
    ensures forall i :: 0 <= i < k ==> qs[i] == 0
  {
    var i := k;
    while i > 0
      invariant 0 <= i <= k
      invariant forall j :: i <= j < k ==> qs[j] == 0
    {
      i := i - 1;
      qs[i] := 0;
    }
  }

  // tmp.q from digits 1..4, the first of which are zero.
  method Join(a: array<digit>, z: nat) returns (x: nat)
    requires a.Length == 5 && 1 <= z <= 5 && forall k :: 1 <= k < z ==> a[k] == 0
    ensures x == Val(a[z..])
  {
    FourDigits(a[1..]);
    x := COMBINE(a[1], a[2]) * U32 + COMBINE(a[3], a[4]);
    assert a[1..] == a[1..z] + a[z..];
    ValConcat(a[1..z], a[z..]);
    ValZeros(a[1..z]);
  }

  lemma LeadingLower(s: seq<digit>)
    requires s != [] && s[0] > 0
    ensures Val(s) >= Pw(|s| - 1)
  {
    ValUncons(s);
    MulMono(Pw(|s| - 1), 1, s[0]);
  }

  lemma BelowPower(u: nat, v: nat, n: nat, m: nat)
    requires n >= 1 && u < Pw(m + n) && v >= Pw(n - 1)
    ensures u < v * Pw(m + 1)
  {
    PwAdd(n - 1, m + 1);
    MulMono(Pw(m + 1), Pw(n - 1), v);
  }

  lemma ScaleBelow(u: nat, v: nat, p: nat, a: nat)
    requires u < v * p && a > 0
    ensures u * a < (v * a) * p
  {
    MulLess(a, u, v * p);
    MulAssoc(v, p, a);
    MulAssoc(v, a, p);
  }

  // Dividing the scaled remainder by the scale gives the true remainder.
  lemma Unscale(u: nat, v: nat, q: nat, big: nat, a: nat, r: nat)
    requires a > 0 && u * a == q * (v * a) + big && big < v * a
    requires r * a <= big < r * a + a
    ensures u == q * v + r && r < v
  {
    MulAssoc(q, v, a);
    MulDist(u, -(q * v), a);
    var x := u - q * v;
    assert x * a == big;
    if x < r { MulMono(a, x + 1, r); assert false; }
    if x > r { MulMono(a, r + 1, x); assert false; }
    if r >= v { MulMono(a, v, r); assert false; }
  }

  // ---------------------------------------------------------------------
  // The signed wrappers, in two's complement.
  // ---------------------------------------------------------------------
  const MIN := -0x8000_0000_0000_0000
  const MAX := 0x7FFF_FFFF_FFFF_FFFF

  // (u_quad_t)-(u_quad_t)x and the conversion back to quad_t.
  function Negate(x: nat): nat { (-(x as int)) % U64 }

  function ToUnsigned(x: int): nat { x % U64 }

  function ToSigned(x: nat): int { if x > MAX then x - U64 else x }

  function Abs(x: int): nat { if x < 0 then -x else x }

  // Division truncating toward zero, the remainder taking the dividend's sign.
  ghost predicate Truncates(a: int, b: int, q: int, r: int)
  {
    a == q * b + r && Abs(r) < Abs(b) && (r != 0 ==> (r < 0 <==> a < 0))
  }

  // Outside MIN / -1 the quotient truncates toward zero; there it is wrong.
  method DivDI3(a: int, b: int) returns (q: int)
    requires MIN <= a <= MAX && MIN <= b <= MAX && b != 0
    ensures MIN <= q <= MAX
    ensures (exists r :: Truncates(a, b, q, r)) <==> !(a == MIN && b == -1)
  {
    Magnitude(a);
    Magnitude(b);
    var ua: nat, ub: nat, neg: bool;
    if a < 0 { ua, neg := Negate(ToUnsigned(a)), true; } else { ua, neg := ToUnsigned(a), false; }
    if b < 0 { ub, neg := Negate(ToUnsigned(b)), !neg; } else { ub := ToUnsigned(b); }
    var d := QDivRem(ua, ub);
    q := ToSigned(if neg then Negate(d.q) else d.q);
    SignedQuotient(a, b, d.q, d.r, q);
  }

  method ModDI3(a: int, b: int) returns (r: int)
    requires MIN <= a <= MAX && MIN <= b <= MAX && b != 0
    ensures exists q :: Truncates(a, b, q, r)
  {
    Magnitude(a);
    Magnitude(b);
    var ua: nat, ub: nat, neg: bool;
    if a < 0 { ua, neg := Negate(ToUnsigned(a)), true; } else { ua, neg := ToUnsigned(a), false; }
    if b < 0 { ub := Negate(ToUnsigned(b)); } else { ub := ToUnsigned(b); }
    var d := QDivRem(ua, ub);
    r := ToSigned(if neg then Negate(d.r) else d.r);
    SignedRemainder(a, b, d.q, d.r, r);
  }

  lemma Magnitude(x: int)
    requires MIN <= x <= MAX
    ensures (if x < 0 then Negate(ToUnsigned(x)) else ToUnsigned(x)) == Abs(x)
  {
    if x < 0 {
      ModUnique(x, U64, -1, x + U64);
      ModUnique(-(x + U64), U64, -1, -x);
    } else {
      ModUnique(x, U64, 0, x);
    }
  }

  lemma SignedRemainder(a: int, b: int, q: nat, ur: nat, r: int)
    requires MIN <= b <= MAX && b != 0 && Abs(a) == q * Abs(b) + ur && ur < Abs(b)
    requires r == ToSigned(if a < 0 then Negate(ur) else ur)
    ensures exists q' :: Truncates(a, b, q', r)
  {
    SignedParts(a, b, q, ur);
    assert Truncates(a, b, if (a < 0) != (b < 0) then -(q as int) else q, r);
  }

  lemma SignedParts(a: int, b: int, q: nat, r: nat)
    requires Abs(a) == q * Abs(b) + r && r < Abs(b)
    ensures Truncates(a, b, if (a < 0) != (b < 0) then -(q as int) else q, if a < 0 then -(r as int) else r)
  {
  }

  lemma SignedQuotient(a: int, b: int, uq: nat, r: nat, q: int)
    requires MIN <= a <= MAX && MIN <= b <= MAX && b != 0
    requires Abs(a) == uq * Abs(b) + r && r < Abs(b) && uq < U64
    requires q == ToSigned(if (a < 0) != (b < 0) then Negate(uq) else uq)
    ensures MIN <= q <= MAX
    ensures (exists r :: Truncates(a, b, q, r)) <==> !(a == MIN && b == -1)
  {
    SignedParts(a, b, uq, r);
    QuotientBound(Abs(a), Abs(b), uq, r);
    if a == MIN && b == -1 {
      assert uq == -MIN && q == MIN;
    } else {
      if uq > MAX {
        if Abs(b) > 1 { MulMono(uq, 2, Abs(b)); assert false; }
      }
      assert Truncates(a, b, q, if a < 0 then -(r as int) else r);
    }
  }
}
