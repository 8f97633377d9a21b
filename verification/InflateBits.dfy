// The bit accumulator of zlib's inflate: hold keeps bits already taken from the
// input, lowest first. The unread bits are a number and how many bits it has,
// whatever has been moved from the input into hold.
module InflateBits {
  import opened Bits

  // A byte string as a number, first byte lowest.
  function Val(s: seq<byte>): nat
  {
    if s == [] then 0 else s[0] + 0x100 * Val(s[1..])
  }

  // n bits, the first of them lowest in x.
  datatype Queue = Queue(x: nat, n: nat)

  function Dropped(q: Queue, k: nat): Queue
    requires k <= q.n
  {
    Queue(Quotient(q.x, Pow2(k)), q.n - k)
  }

  // The same bits when more bytes are going to follow.
  function Extended(q: Queue, more: seq<byte>): Queue
  {
    Queue(q.x + Pow2(q.n) * Val(more), q.n + 8 * |more|)
  }

  // The unread bits: hold, then the input from place i.
  function Unread(hold: nat, bits: nat, input: seq<byte>, i: nat): Queue
    requires i <= |input|
  {
    Queue(hold + Pow2(bits) * Val(input[i..]), bits + 8 * (|input| - i))
  }

  lemma ExtendedNothing(q: Queue)
    ensures Extended(q, []) == q
  {
    hide Pow2;
  }

  // What follows does not change the bits that are there.
  lemma ExtendedLow(q: Queue, more: seq<byte>, k: nat)
    requires k <= q.n
    ensures Extended(q, more).x % Pow2(k) == q.x % Pow2(k)
    ensures Dropped(Extended(q, more), k) == Extended(Dropped(q, k), more)
  {
    hide Pow2, Val;
    Pow2Add(k, q.n - k);
    var p, r, v: nat := Pow2(k), Pow2(q.n - k), Val(more);
    MulAssoc(p, r, v);
    ModPlus(q.x, p, r * v);
  }

  lemma {:induction false} ValConcat(s: seq<byte>, t: seq<byte>)
    ensures Val(s + t) == Val(s) + Pow2(8 * |s|) * Val(t)
  {
    if s == [] {
      assert s + t == t && Pow2(0) == 1;
    } else {
      hide Pow2;
      ValConcat(s[1..], t);
      assert (s + t)[1..] == s[1..] + t;
      Pow2Add(8, 8 * |s[1..]|);
      Pow2Values();
      MulAssoc(0x100, Pow2(8 * |s[1..]|), Val(t));
    }
  }

  lemma ExtendedTwice(q: Queue, s: seq<byte>, t: seq<byte>)
    ensures Extended(Extended(q, s), t) == Extended(q, s + t)
  {
    hide Pow2, Val;
    var p, r, v, w: nat := Pow2(q.n), Pow2(8 * |s|), Val(s), Val(t);
    ValConcat(s, t);
    Pow2Add(q.n, 8 * |s|);
    MulAssoc(p, r, w);
    Factor(p, v, r * w);
  }

  lemma Factor(p: int, v: int, w: int)
    ensures p * v + p * w == p * (v + w)
  {
  }

  // New input behind what is left of the old.
  lemma UnreadMore(hold: nat, bits: nat, input: seq<byte>, i: nat, more: seq<byte>)
    requires i <= |input|
    ensures Unread(hold, bits, input[i..] + more, 0) == Extended(Unread(hold, bits, input, i), more)
  {
    hide Pow2, Val;
    var s := input[i..];
    var p, r, v, w: nat := Pow2(bits), Pow2(8 * |s|), Val(s), Val(more);
    assert (s + more)[0..] == s + more;
    ValConcat(s, more);
    Pow2Add(bits, 8 * |s|);
    MulAssoc(p, r, w);
    Factor(p, v, r * w);
  }

  // With less than a byte in hold, the unread bits fix where the decoder is.
  lemma SamePlace(hold: nat, bits: nat, i: nat, hold': nat, bits': nat, i': nat, input: seq<byte>)
    requires bits < 8 && bits' < 8 && i <= |input| && i' <= |input|
    requires Unread(hold, bits, input, i) == Unread(hold', bits', input, i')
    ensures hold == hold' && bits == bits' && i == i'
  {
    hide Pow2, Val;
  }

  // Moving a byte into hold (PULLBYTE, or PUP in inflate_fast).
  lemma Pull(hold: nat, bits: nat, input: seq<byte>, i: nat)
    requires i < |input| && hold < Pow2(bits)
    ensures hold + input[i] * Pow2(bits) < Pow2(bits + 8)
    ensures Unread(hold + input[i] * Pow2(bits), bits + 8, input, i + 1) == Unread(hold, bits, input, i)
  {
    hide Pow2, Val;
    var b, p, v: nat := input[i], Pow2(bits), Val(input[i + 1..]);
    ValStep(input, i);
    Pow2Add(bits, 8);
    Pow2Values();
    PullArithmetic(hold, b, p, v);
  }

  lemma ValStep(input: seq<byte>, i: nat)
    requires i < |input|
    ensures Val(input[i..]) == input[i] + 0x100 * Val(input[i + 1..])
  {
    assert input[i..][1..] == input[i + 1..];
  }

  lemma PullArithmetic(hold: nat, b: nat, p: nat, v: nat)
    requires hold < p && b < 0x100
    ensures hold + b * p < p * 0x100
    ensures hold + b * p + (p * 0x100) * v == hold + p * (b + 0x100 * v)
  {
    MulMono(p, b, 0xff);
    MulAssoc(p, 0x100, v);
    assert p * (b + 0x100 * v) == p * b + p * (0x100 * v);
  }

  // The low bits of hold are the next bits (BITS).
  lemma LowBits(hold: nat, bits: nat, input: seq<byte>, i: nat, k: nat)
    requires i <= |input| && k <= bits
    ensures Unread(hold, bits, input, i).x % Pow2(k) == hold % Pow2(k)
  {
    hide Pow2, Val;
    Pow2Add(k, bits - k);
    var p, q, v: nat := Pow2(k), Pow2(bits - k), Val(input[i..]);
    MulAssoc(p, q, v);
    ModPlus(hold, p, q * v);
  }

  lemma ModPlus(x: nat, p: nat, q: nat)
    requires p > 0
    ensures (x + p * q) % p == x % p && Quotient(x + p * q, p) == Quotient(x, p) + q
  {
    var k := x / p;
    assert x == p * k + x % p;
    assert p * (k + q) == p * k + p * q;
    ModUnique(x + p * q, p, k + q, x % p);
  }

  // Dropping bits that are in hold (DROPBITS).
  lemma Drop(hold: nat, bits: nat, input: seq<byte>, i: nat, n: nat)
    requires i <= |input| && n <= bits && hold < Pow2(bits)
    ensures Quotient(hold, Pow2(n)) < Pow2(bits - n)
    ensures Unread(Quotient(hold, Pow2(n)), bits - n, input, i) == Dropped(Unread(hold, bits, input, i), n)
  {
    hide Pow2, Val;
    Pow2Add(n, bits - n);
    var p, q, v: nat := Pow2(n), Pow2(bits - n), Val(input[i..]);
    MulAssoc(p, q, v);
    ModPlus(hold, p, q * v);
    QuotientLess(hold, p, q);
  }

  lemma {:induction false} ValBound(s: seq<byte>)
    ensures Val(s) < Pow2(8 * |s|)
  {
    if s != [] {
      hide Pow2;
      ValBound(s[1..]);
      Pow2Add(8, 8 * |s[1..]|);
      Pow2Values();
    } else {
      assert Pow2(0) == 1;
    }
  }

  // The whole bytes in hold are the bytes just before place i of the input, as
  // far as they are from this input at all.
  ghost predicate Tail(hold: nat, bits: nat, input: seq<byte>, i: nat)
    requires i <= |input|
    decreases bits
  {
    bits < 8 || i == 0 || (Quotient(hold, Pow2(bits - 8)) == input[i - 1]
      && Tail(hold % Pow2(bits - 8), bits - 8, input, i - 1))
  }

  lemma TailPull(hold: nat, bits: nat, input: seq<byte>, i: nat)
    requires i < |input| && hold < Pow2(bits) && Tail(hold, bits, input, i)
    ensures Tail(hold + input[i] * Pow2(bits), bits + 8, input, i + 1)
  {
    hide Pow2;
    assert bits + 8 - 8 == bits;
    ModUnique(hold + input[i] * Pow2(bits), Pow2(bits), input[i], hold);
  }

  lemma {:induction false} TailDrop(hold: nat, bits: nat, input: seq<byte>, i: nat, n: nat)
    requires i <= |input| && n <= bits && Tail(hold, bits, input, i)
    ensures Tail(Quotient(hold, Pow2(n)), bits - n, input, i)
    decreases bits
  {
    if bits - n >= 8 && i > 0 {
      hide Pow2;
      var p, q: nat := Pow2(n), Pow2(bits - n - 8);
      Pow2Add(n, bits - n - 8);
      DivideTwice(hold, p, q);
      TailDrop(hold % Pow2(bits - 8), bits - 8, input, i - 1, n);
      assert Pow2(bits - 8) == p * q;
    }
  }

  // Giving whole bytes back to the input, as inflate_fast does when it ends.
  lemma {:induction false} GiveBack(hold: nat, bits: nat, input: seq<byte>, i: nat, n: nat)
    requires n <= i <= |input| && hold < Pow2(bits) && Tail(hold, bits, input, i) && 8 * n <= bits
    ensures hold % Pow2(bits - 8 * n) < Pow2(bits - 8 * n)
    ensures Unread(hold % Pow2(bits - 8 * n), bits - 8 * n, input, i - n) == Unread(hold, bits, input, i)
    decreases n
  {
    hide Pow2, Val;
    if n == 0 {
      SmallMod(hold, Pow2(bits));
    } else {
      var p: nat := Pow2(bits - 8);
      var h: nat := hold % p;
      assert hold == p * input[i - 1] + h by { assert Quotient(hold, p) == hold / p; }
      hide Quotient, Tail;
      GiveBack(h, bits - 8, input, i - 1, n - 1);
      ModOfMod(hold, bits - 8, bits - 8 * n);
      ValStep(input, i - 1);
      Pow2Add(bits - 8, 8);
      Pow2Values();
      PullArithmetic(h, input[i - 1], p, Val(input[i..]));
    }
  }
}
