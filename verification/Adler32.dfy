// zlib's adler32.c: the checksum with its modulo deferred over blocks of NMAX
// bytes and taken by shifts and additions, and the checksum of a concatenation.
// Sums are held in 32-bit words, so every assignment also proves that nothing
// overflows.
module Adler32 {
  import opened Bits

  const BASE: nat := 65521
  const NMAX: nat := 5552

  type word = x: int | 0 <= x < 0x1_0000_0000

  // ---------------------------------------------------------------------
  // The definition, a byte at a time
  // ---------------------------------------------------------------------
  function SumA(a: nat, s: seq<byte>): nat
  {
    if s == [] then a % BASE else (SumA(a, s[..|s| - 1]) + s[|s| - 1]) % BASE
  }

  function SumB(a: nat, b: nat, s: seq<byte>): nat
  {
    if s == [] then b % BASE else (SumB(a, b, s[..|s| - 1]) + SumA(a, s)) % BASE
  }

  function Pack(a: nat, b: nat): nat
    requires a < 0x1_0000
  {
    b * 0x1_0000 + a
  }

  // The checksum of s, continued from another.
  function Checksum(adler: word, s: seq<byte>): nat
  {
    Pack(SumA(adler % 0x1_0000, s), SumB(adler % 0x1_0000, adler / 0x1_0000, s))
  }

  // Both halves are below the modulus.
  predicate Reduced(adler: word)
  {
    adler % 0x1_0000 < BASE && adler / 0x1_0000 < BASE
  }

  // ---------------------------------------------------------------------
  // Sums without modulo
  // ---------------------------------------------------------------------
  function RawA(a: nat, s: seq<byte>): nat
  {
    if s == [] then a else RawA(a, s[..|s| - 1]) + s[|s| - 1]
  }

  function RawB(a: nat, b: nat, s: seq<byte>): nat
  {
    if s == [] then b else RawB(a, b, s[..|s| - 1]) + RawA(a, s)
  }

  lemma {:induction false} RawIsSum(a: nat, b: nat, s: seq<byte>)
    ensures RawA(a, s) % BASE == SumA(a, s) && RawB(a, b, s) % BASE == SumB(a, b, s)
  {
    if s != [] {
      hide SumA, SumB, RawA, RawB;
      var t := s[..|s| - 1];
      RawIsSum(a, b, t);
      SumsLast(a, b, s);
      RawLast(a, b, s);
      ModSum(RawA(a, t), s[|s| - 1]);
      ModSum(RawB(a, b, t), RawA(a, s));
      ModSum(RawA(a, s), SumB(a, b, t));
    }
  }

  lemma ModSum(x: nat, y: nat)
    ensures (x % BASE + y) % BASE == (x + y) % BASE
  {
    AddMultiple(x % BASE + y, x / BASE);
  }

  // Reducing in between does not change the result.
  lemma {:induction false} SumsAppend(a: nat, b: nat, s: seq<byte>, t: seq<byte>)
    ensures SumA(a, s + t) == SumA(SumA(a, s), t)
    ensures SumB(a, b, s + t) == SumB(SumA(a, s), SumB(a, b, s), t)
  {
    hide SumA, SumB;
    if t == [] {
      assert s + t == s;
      SumsReduced(a, b, s);
      SumsNothing(SumA(a, s), SumB(a, b, s));
    } else {
      assert (s + t)[..|s + t| - 1] == s + t[..|t| - 1];
      SumsAppend(a, b, s, t[..|t| - 1]);
      SumsLast(a, b, s + t);
      SumsLast(SumA(a, s), SumB(a, b, s), t);
    }
  }

  lemma SumsLast(a: nat, b: nat, s: seq<byte>)
    requires s != []
    ensures var t := s[..|s| - 1];
            SumA(a, s) == (SumA(a, t) + s[|s| - 1]) % BASE && SumB(a, b, s) == (SumB(a, b, t) + SumA(a, s)) % BASE
  {
  }

  lemma RawLast(a: nat, b: nat, s: seq<byte>)
    requires s != []
    ensures var t := s[..|s| - 1];
            RawA(a, s) == RawA(a, t) + s[|s| - 1] && RawB(a, b, s) == RawB(a, b, t) + RawA(a, s)
  {
  }

  lemma SumsNothing(a: nat, b: nat)
    requires a < BASE && b < BASE
    ensures SumA(a, []) == a && SumB(a, b, []) == b
  {
  }

  lemma SumsReduced(a: nat, b: nat, s: seq<byte>)
    ensures SumA(a, s) < BASE && SumB(a, b, s) < BASE
  {
  }

  // ---------------------------------------------------------------------
  // How large the sums can get
  // ---------------------------------------------------------------------

  // The largest value of sum2 after k bytes from reduced sums.
  function Most(k: nat): nat
  {
    if k == 0 then BASE - 1 else Most(k - 1) + (BASE - 1) + 255 * k
  }

  lemma {:induction false} MostIs(k: nat)
    ensures 2 * Most(k) == 2 * (k + 1) * (BASE - 1) + 255 * k * (k + 1)
  {
    if k > 0 {
      MostIs(k - 1);
      Polynomial(k);
    }
  }

  lemma Polynomial(k: int)
    ensures 255 * k * (k + 1) == 255 * (k - 1) * (k - 1 + 1) + 2 * 255 * k
    ensures 2 * (k + 1) * (BASE - 1) == 2 * (k - 1 + 1) * (BASE - 1) + 2 * (BASE - 1)
  {
  }

  lemma {:induction false} MostMono(j: nat, k: nat)
    requires j <= k
    ensures Most(j) <= Most(k)
  {
    if j < k { MostMono(j, k - 1); }
  }

  // NMAX is the largest number of bytes for which 32 bits always suffice.
  lemma NmaxIsLargest(k: nat)
    ensures Most(k) < 0x1_0000_0000 <==> k <= NMAX
  {
    MostIs(NMAX);
    MostIs(NMAX + 1);
    if k <= NMAX { MostMono(k, NMAX); } else { MostMono(NMAX + 1, k); }
  }

  lemma {:induction false} RawBounds(a: nat, b: nat, s: seq<byte>)
    requires a < BASE && b < BASE
    ensures RawA(a, s) <= BASE - 1 + 255 * |s| && RawB(a, b, s) <= Most(|s|)
    ensures RawA(a, s) <= RawB(a, b, s) || s == []
  {
    if s != [] { RawBounds(a, b, s[..|s| - 1]); }
  }

  // The bound is reached: all bytes 255 from the largest reduced sums.
  lemma {:induction false} BoundReached(k: nat) returns (s: seq<byte>)
    ensures |s| == k && RawA(BASE - 1, s) == BASE - 1 + 255 * k && RawB(BASE - 1, BASE - 1, s) == Most(k)
  {
    if k == 0 {
      s := [];
    } else {
      var t := BoundReached(k - 1);
      s := t + [255];
      assert s[..|s| - 1] == t;
    }
  }

  lemma BytesFit(a: nat, b: nat, s: seq<byte>)
    requires a < BASE && b < BASE && |s| <= NMAX
    ensures RawA(a, s) < 0x1_0000_0000 && RawB(a, b, s) < 0x1_0000_0000
  {
    RawBounds(a, b, s);
    NmaxIsLargest(|s|);
  }

  // ---------------------------------------------------------------------
  // Modulo by shifts: 2^16 is 15 modulo the base
  // ---------------------------------------------------------------------
  method Chop(a: nat) returns (r: nat)
    ensures r % BASE == a % BASE && r == a % 0x1_0000 + 15 * (a / 0x1_0000)
    ensures (a < 0x100_0000_0000 ==> r < 0x1000_0000) && (a < 0x1000_0000 ==> r < 2 * BASE)
  {
    var tmp := a / 0x1_0000;
    r := a % 0x1_0000;
    r := r + (tmp * 0x10 - tmp);
    Congruent(a % 0x1_0000, tmp, 15, 1);
  }

  // Replacing a multiple of x by a multiple of a congruent y.
  lemma Congruent(r: nat, tmp: nat, y: nat, k: nat)
    ensures (r + y * tmp) % BASE == (r + (y + k * BASE) * tmp) % BASE
  {
    MulDist(y, k * BASE, tmp);
    MulAssoc(BASE, k, tmp);
    MulAssoc(k, BASE, tmp);
    AddMultiple(r + y * tmp, k * tmp);
  }

  lemma AddMultiple(x: nat, q: nat)
    ensures (x + BASE * q) % BASE == x % BASE
  {
    var m := x / BASE;
    assert x == BASE * m + x % BASE;
    ModUnique(x + BASE * q, BASE, m + q, x % BASE);
  }

  method Mod28(a: nat) returns (r: nat)
    requires a < 0x1000_0000
    ensures r == a % BASE
  {
    r := Chop(a);
    if r >= BASE { r := r - BASE; }
  }

  method Mod(a: nat) returns (r: nat)
    requires a < 0x1_0000_0000
    ensures r == a % BASE
  {
    r := Chop(a);
    r := Mod28(r);
  }

  // For lengths up to 2^63; 2^32 is 225 modulo the base.
  method Mod63(a: nat) returns (r: nat)
    requires a < 0x8000_0000_0000_0000
    ensures r == a % BASE
  {
    var tmp := a / 0x1_0000_0000;
    r := a % 0x1_0000_0000;
    r := r + (tmp * 0x100 - tmp * 0x20 + tmp);
    Fold63(a);
    r := Chop(r);
    r := Mod28(r);
  }

  lemma Fold63(a: nat)
    requires a < 0x8000_0000_0000_0000
    ensures var tmp, low := a / 0x1_0000_0000, a % 0x1_0000_0000;
            low + (tmp * 0x100 - tmp * 0x20 + tmp) == low + 225 * tmp < 0x100_0000_0000
            && (low + 225 * tmp) % BASE == a % BASE
  {
    Congruent(a % 0x1_0000_0000, a / 0x1_0000_0000, 225, 65551);
  }

  // ---------------------------------------------------------------------
  // adler32
  // ---------------------------------------------------------------------

  // The two running sums: nothing read since the last reduction but t.
  ghost predicate Running(a: nat, b: nat, t: seq<byte>, adler: nat, sum2: nat)
  {
    a < BASE && b < BASE && adler == RawA(a, t) && sum2 == RawB(a, b, t)
  }

  // DO1
  method Do1(x: byte, adler: word, sum2: word, ghost a: nat, ghost b: nat, ghost t: seq<byte>) returns (adler': word,
    sum2': word)
    requires Running(a, b, t, adler, sum2) && |t| < NMAX
    ensures Running(a, b, t + [x], adler', sum2')
  {
    assert (t + [x])[..|t + [x]| - 1] == t;
    BytesFit(a, b, t + [x]);
    adler' := adler + x;
    sum2' := sum2 + adler';
  }

  // DO2, DO4, DO8 and DO16
  method Do2(buf: seq<byte>, i: nat, adler: word, sum2: word, ghost a: nat, ghost b: nat,
    ghost t: seq<byte>) returns (adler': word, sum2': word)
    requires i + 2 <= |buf| && Running(a, b, t, adler, sum2) && |t| + 2 <= NMAX
    ensures Running(a, b, t + buf[i..i + 2], adler', sum2')
  {
    adler', sum2' := Do1(buf[i], adler, sum2, a, b, t);
    adler', sum2' := Do1(buf[i + 1], adler', sum2', a, b, t + [buf[i]]);
    assert t + [buf[i]] + [buf[i + 1]] == t + buf[i..i + 2];
  }

  method Do4(buf: seq<byte>, i: nat, adler: word, sum2: word, ghost a: nat, ghost b: nat,
    ghost t: seq<byte>) returns (adler': word, sum2': word)
    requires i + 4 <= |buf| && Running(a, b, t, adler, sum2) && |t| + 4 <= NMAX
    ensures Running(a, b, t + buf[i..i + 4], adler', sum2')
  {
    adler', sum2' := Do2(buf, i, adler, sum2, a, b, t);
    adler', sum2' := Do2(buf, i + 2, adler', sum2', a, b, t + buf[i..i + 2]);
    assert t + buf[i..i + 2] + buf[i + 2..i + 4] == t + buf[i..i + 4];
  }

  method Do8(buf: seq<byte>, i: nat, adler: word, sum2: word, ghost a: nat, ghost b: nat,
    ghost t: seq<byte>) returns (adler': word, sum2': word)
    requires i + 8 <= |buf| && Running(a, b, t, adler, sum2) && |t| + 8 <= NMAX
    ensures Running(a, b, t + buf[i..i + 8], adler', sum2')
  {
    adler', sum2' := Do4(buf, i, adler, sum2, a, b, t);
    adler', sum2' := Do4(buf, i + 4, adler', sum2', a, b, t + buf[i..i + 4]);
    assert t + buf[i..i + 4] + buf[i + 4..i + 8] == t + buf[i..i + 8];
  }

  method Do16(buf: seq<byte>, i: nat, adler: word, sum2: word, ghost a: nat, ghost b: nat,
    ghost t: seq<byte>) returns (adler': word, sum2': word)
    requires i + 16 <= |buf| && Running(a, b, t, adler, sum2) && |t| + 16 <= NMAX
    ensures Running(a, b, t + buf[i..i + 16], adler', sum2')
  {
    adler', sum2' := Do8(buf, i, adler, sum2, a, b, t);
    adler', sum2' := Do8(buf, i + 8, adler', sum2', a, b, t + buf[i..i + 8]);
    assert t + buf[i..i + 8] + buf[i + 8..i + 16] == t + buf[i..i + 16];
  }

  datatype Buffer = Null | Bytes(s: seq<byte>)

  // The sums of a prefix, reduced.
  ghost predicate Sums(a: nat, b: nat, s: seq<byte>, adler: nat, sum2: nat)
  {
    a < BASE && b < BASE && adler == SumA(a, s) && sum2 == SumB(a, b, s)
  }

  lemma StartSums(a: nat, b: nat)
    requires a < BASE && b < BASE
    ensures Sums(a, b, [], a, b) && Running(a, b, [], a, b)
  {
    SumsNothing(a, b);
  }

  // Reducing the running sums reaches the sums of the longer prefix.
  lemma Reduce(a: nat, b: nat, s: seq<byte>, a1: nat, b1: nat, t: seq<byte>, adler: nat, sum2: nat)
    requires Sums(a, b, s, a1, b1) && Running(a1, b1, t, adler, sum2)
    ensures Sums(a, b, s + t, adler % BASE, sum2 % BASE)
  {
    RawIsSum(a1, b1, t);
    SumsAppend(a, b, s, t);
  }

  // Blocks of NMAX bytes, one modulo each.
  method LongBlocks(buf: seq<byte>, adler0: word, sum20: word) returns (at: nat, adler: word, sum2: word)
    requires adler0 < BASE && sum20 < BASE
    ensures at <= |buf| && |buf| - at < NMAX && Sums(adler0, sum20, buf[..at], adler, sum2)
  {
    hide SumA, SumB, RawA, RawB;
    at, adler, sum2 := 0, adler0, sum20;
    StartSums(adler, sum2);
    while |buf| - at >= NMAX
      invariant at <= |buf| && Sums(adler0, sum20, buf[..at], adler, sum2)
    {
      SumsReduced(adler0, sum20, buf[..at]);
      ghost var a, b, from: nat := adler, sum2, at;
      StartSums(a, b);
      assert buf[from..at] == [];
      var n := NMAX / 16;
      while n > 0
        invariant 0 <= n <= NMAX / 16 && at == from + 16 * (NMAX / 16 - n)
        invariant Running(a, b, buf[from..at], adler, sum2)
      {
        adler, sum2 := Do16(buf, at, adler, sum2, a, b, buf[from..at]);
        assert buf[from..at] + buf[at..at + 16] == buf[from..at + 16];
        at := at + 16;
        n := n - 1;
      }
      Reduce(adler0, sum20, buf[..from], a, b, buf[from..at], adler, sum2);
      adler := Mod(adler);
      sum2 := Mod(sum2);
      assert buf[..from] + buf[from..at] == buf[..at];
    }
  }

  // What is left, less than a block, one modulo in all.
  method LastBytes(buf: seq<byte>, from: nat, adler0: word, sum20: word, ghost a0: nat,
    ghost b0: nat) returns (adler: word, sum2: word)
    requires from < |buf| < from + NMAX && Sums(a0, b0, buf[..from], adler0, sum20)
    ensures Sums(a0, b0, buf, adler, sum2)
  {
    hide SumA, SumB, RawA, RawB;
    SumsReduced(a0, b0, buf[..from]);
    adler, sum2 := adler0, sum20;
    StartSums(adler0, sum20);
    var at := from;
    assert buf[from..from] == [];
    while |buf| - at >= 16
      invariant from <= at <= |buf| && Running(adler0, sum20, buf[from..at], adler, sum2)
    {
      adler, sum2 := Do16(buf, at, adler, sum2, adler0, sum20, buf[from..at]);
      assert buf[from..at] + buf[at..at + 16] == buf[from..at + 16];
      at := at + 16;
    }
    while at < |buf|
      invariant from <= at <= |buf| && Running(adler0, sum20, buf[from..at], adler, sum2)
    {
      adler, sum2 := Do1(buf[at], adler, sum2, adler0, sum20, buf[from..at]);
      assert buf[from..at] + [buf[at]] == buf[from..at + 1];
      at := at + 1;
    }
    assert buf[from..at] == buf[from..] && buf[..from] + buf[from..] == buf;
    Reduce(a0, b0, buf[..from], adler0, sum20, buf[from..], adler, sum2);
    adler := Mod(adler);
    sum2 := Mod(sum2);
  }

  // Of so few bytes a single subtraction reduces the first sum, and MOD28 the second.
  lemma FewFit(a: nat, b: nat, s: seq<byte>)
    requires a < BASE && b < BASE && |s| < 16
    ensures RawA(a, s) < 2 * BASE && RawB(a, b, s) < 0x1000_0000
  {
    hide RawA, RawB, Most;
    RawBounds(a, b, s);
    MostIs(15);
    MostMono(|s|, 15);
  }

  // Fewer than 16 bytes.
  method FewBytes(buf: seq<byte>, adler0: word, sum20: word) returns (adler: word, sum2: word)
    requires adler0 < BASE && sum20 < BASE && |buf| < 16
    ensures Sums(adler0, sum20, buf, adler, sum2)
  {
    hide SumA, SumB, RawA, RawB;
    adler, sum2 := adler0, sum20;
    StartSums(adler, sum2);
    var at := 0;
    while at < |buf|
      invariant 0 <= at <= |buf| && Running(adler0, sum20, buf[..at], adler, sum2)
    {
      adler, sum2 := Do1(buf[at], adler, sum2, adler0, sum20, buf[..at]);
      assert buf[..at] + [buf[at]] == buf[..at + 1];
      at := at + 1;
    }
    assert buf[..at] == buf && [] + buf == buf;
    FewFit(adler0, sum20, buf);
    Reduce(adler0, sum20, [], adler0, sum20, buf, adler, sum2);
    StartSums(adler0, sum20);
    if adler >= BASE { adler := adler - BASE; }
    sum2 := Mod28(sum2);
  }

  // A single byte is added without any modulo.
  method OneByteSums(x: byte, adler0: word, sum20: word) returns (adler: word, sum2: word)
    requires adler0 < BASE && sum20 < BASE
    ensures adler == SumA(adler0, [x]) < BASE && sum2 == SumB(adler0, sum20, [x]) < BASE
  {
    hide SumA, SumB;
    OneByte(adler0, sum20, x);
    adler := adler0 + x;
    if adler >= BASE { adler := adler - BASE; }
    sum2 := sum20 + adler;
    if sum2 >= BASE { sum2 := sum2 - BASE; }
  }

  method Adler32(adler0: word, buf: Buffer, len: nat) returns (r: word)
    requires Reduced(adler0) && (buf.Bytes? ==> len == |buf.s|) && (buf.Null? ==> len != 1)
    ensures buf.Null? ==> r == 1
    ensures buf.Bytes? ==> r == Checksum(adler0, buf.s) && Reduced(r)
  {
    hide SumA, SumB, RawA, RawB;
    var sum2: word := adler0 / 0x1_0000 % 0x1_0000;
    var adler: word := adler0 % 0x1_0000;
    ghost var a, b := adler, sum2;
    StartSums(a, b);
    if len == 1 {
      adler, sum2 := OneByteSums(buf.s[0], adler, sum2);
      assert buf.s == [buf.s[0]];
      return sum2 * 0x1_0000 + adler;
    }
    if buf.Null? { return 1; }
    if len < 16 {
      adler, sum2 := FewBytes(buf.s, adler, sum2);
    } else {
      var at;
      at, adler, sum2 := LongBlocks(buf.s, adler, sum2);
      if at < len {
        adler, sum2 := LastBytes(buf.s, at, adler, sum2, a, b);
      } else {
        assert buf.s[..at] == buf.s;
      }
    }
    SumsReduced(a, b, buf.s);
    r := sum2 * 0x1_0000 + adler;
  }

  lemma OneByte(a: nat, b: nat, x: byte)
    requires a < BASE && b < BASE
    ensures SumA(a, [x]) == (if a + x >= BASE then a + x - BASE else a + x)
    ensures SumB(a, b, [x]) == (if b + SumA(a, [x]) >= BASE then b + SumA(a, [x]) - BASE else b + SumA(a, [x]))
    ensures SumA(a, [x]) < BASE && SumB(a, b, [x]) < BASE
  {
    assert [x][..0] == [];
    StartSums(a, b);
  }

  // ---------------------------------------------------------------------
  // adler32_combine
  // ---------------------------------------------------------------------

  // Starting from a instead of 1 adds a - 1 once to the first sum and |s| times to the second.
  lemma {:induction false} ShiftStart(a: nat, b: nat, s: seq<byte>)
    ensures RawA(a, s) == RawA(0, s) + a
    ensures RawB(a, b, s) == RawB(0, 0, s) + b + |s| * a
  {
    if s != [] {
      ShiftStart(a, b, s[..|s| - 1]);
      MulDist(|s| - 1, 1, a);
    }
  }

  // The formula of adler32_combine_ on the definition.
  lemma CombineSums(s: seq<byte>, t: seq<byte>)
    ensures SumA(1, s + t) == (SumA(1, s) + SumA(1, t) + BASE - 1) % BASE
    ensures SumB(1, 0, s + t) ==
            ((|t| % BASE) * SumA(1, s) % BASE + SumB(1, 0, s) + SumB(1, 0, t) + BASE - |t| % BASE) % BASE
  {
    hide SumA, SumB, RawA, RawB;
    var a1, b1, n := SumA(1, s), SumB(1, 0, s), |t|;
    SumsAppend(1, 0, s, t);
    RawIsSum(a1, b1, t);
    RawIsSum(1, 0, t);
    ShiftStart(a1, b1, t);
    ShiftStart(1, 0, t);
    var x, y := RawA(0, t), RawB(0, 0, t);
    FirstSum(x, a1, SumA(1, t));
    SecondSum(y, n, a1, b1, SumB(1, 0, t));
  }

  lemma FirstSum(x: nat, a1: nat, a2: nat)
    requires a2 == (x + 1) % BASE
    ensures (x + a1) % BASE == (a1 + a2 + BASE - 1) % BASE
  {
    assert x + 1 == BASE * ((x + 1) / BASE) + a2;
    SameMod(x + a1, a1 + a2 + BASE - 1, (x + 1) / BASE - 1);
  }

  lemma SecondSum(y: nat, n: nat, a1: nat, b1: nat, b2: nat)
    requires b2 == (y + n) % BASE
    ensures (y + b1 + n * a1) % BASE == (n % BASE * a1 % BASE + b1 + b2 + BASE - n % BASE) % BASE
  {
    var rem, k: nat := n % BASE, n / BASE;
    var p, j: nat := rem * a1, (y + n) / BASE;
    assert n == BASE * k + rem && y + n == BASE * j + b2 && p == BASE * (p / BASE) + p % BASE;
    MulDist(BASE * k, rem, a1);
    MulAssoc(BASE, k, a1);
    SameMod(y + b1 + n * a1, p % BASE + b1 + b2 + BASE - rem, k * a1 + p / BASE + j - k - 1);
  }

  lemma SameMod(x: nat, y: nat, q: int)
    requires x == y + BASE * q
    ensures x % BASE == y % BASE
  {
    if q >= 0 { AddMultiple(y, q); } else { AddMultiple(x, -q); }
  }

  // The conditional subtractions that reduce the two sums.
  method Below3(sum1: word) returns (r: word)
    requires sum1 < 3 * BASE
    ensures r == sum1 % BASE
  {
    Wrap(sum1);
    r := sum1;
    if r >= BASE { r := r - BASE; }
    if r >= BASE { r := r - BASE; }
  }

  method Below4(sum2: word) returns (r: word)
    requires sum2 < 4 * BASE
    ensures r == sum2 % BASE
  {
    Wrap(sum2);
    r := sum2;
    if r >= 2 * BASE { r := r - 2 * BASE; }
    if r >= BASE { r := r - BASE; }
  }

  method Combine(adler1: word, adler2: word, len2: int) returns (r: word)
    requires Reduced(adler1) && Reduced(adler2) && len2 < 0x8000_0000_0000_0000
    ensures len2 < 0 ==> r == 0xffff_ffff
    ensures len2 >= 0 ==> r == Combined(adler1, adler2, len2)
  {
    hide Checksum;
    if len2 < 0 { return 0xffff_ffff; }
    var rem := Mod63(len2);
    Halves(adler1);
    Halves(adler2);
    var sum1: word := adler1 % 0x1_0000;
    RemFits(rem, sum1);
    var sum2: word := rem * sum1;
    sum2 := Mod(sum2);
    sum1 := sum1 + adler2 % 0x1_0000 + BASE - 1;
    sum2 := sum2 + (adler1 / 0x1_0000) % 0x1_0000 + (adler2 / 0x1_0000) % 0x1_0000 + BASE - rem;
    sum1 := Below3(sum1);
    sum2 := Below4(sum2);
    r := sum2 * 0x1_0000 + sum1;
  }

  lemma Halves(adler: word)
    requires Reduced(adler)
    ensures adler / 0x1_0000 % 0x1_0000 == adler / 0x1_0000
  {
  }

  lemma Wrap(x: nat)
    ensures x < BASE ==> x % BASE == x
    ensures BASE <= x < 2 * BASE ==> x % BASE == x - BASE
    ensures 2 * BASE <= x < 3 * BASE ==> x % BASE == x - 2 * BASE
    ensures 3 * BASE <= x < 4 * BASE ==> x % BASE == x - 3 * BASE
  {
  }

  lemma RemFits(rem: nat, sum1: nat)
    requires rem < BASE && sum1 < BASE
    ensures 0 <= rem * sum1 < 0x1_0000_0000
  {
    MulMono(rem, 0, sum1);
    MulMono(rem, sum1, BASE);
    MulMono(BASE, rem, BASE);
  }

  // The combination of two checksums as numbers modulo the base.
  function Combined(adler1: word, adler2: word, len2: nat): nat
    requires Reduced(adler1) && Reduced(adler2)
  {
    var a1, b1, a2, b2, rem := adler1 % 0x1_0000, adler1 / 0x1_0000, adler2 % 0x1_0000, adler2 / 0x1_0000, len2 % BASE;
    Pack((a1 + a2 + BASE - 1) % BASE, (rem * a1 % BASE + b1 + b2 + BASE - rem) % BASE)
  }

  lemma Unpacked(a: nat, b: nat)
    requires a < BASE && b < BASE
    ensures Pack(a, b) % 0x1_0000 == a && Pack(a, b) / 0x1_0000 == b && Pack(a, b) < 0x1_0000_0000
  {
  }

  // Combining the checksums of two strings gives the checksum of their concatenation.
  lemma CombineIsConcat(s: seq<byte>, t: seq<byte>)
    ensures Checksum(1, s) < 0x1_0000_0000 && Checksum(1, t) < 0x1_0000_0000
    ensures Reduced(Checksum(1, s)) && Reduced(Checksum(1, t))
    ensures Combined(Checksum(1, s), Checksum(1, t), |t|) == Checksum(1, s + t)
  {
    hide SumA, SumB;
    SumsReduced(1, 0, s);
    SumsReduced(1, 0, t);
    Unpacked(SumA(1, s), SumB(1, 0, s));
    Unpacked(SumA(1, t), SumB(1, 0, t));
    CombineSums(s, t);
  }
}
