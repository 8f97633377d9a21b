// The bit reader of bzip2's decompress.c (GET_BITS): a 32-bit buffer that is
// refilled a byte at a time and read from the top, against the plain sequence
// of bits of the stream, most significant first. The stream comes in pieces,
// one for each call of the decompressor: where a call runs out of input, it
// saves its locals, returns, and goes on from there when the next call comes.
module BitReader {
  import opened Bits

  type bit = x: int | 0 <= x < 2

  // The low n bits of v, most significant first.
  function Word(v: nat, n: nat): (w: seq<bit>)
    ensures |w| == n
  {
    if n == 0 then [] else Word(v / 2, n - 1) + [v % 2]
  }

  function Value(w: seq<bit>): nat
  {
    if w == [] then 0 else 2 * Value(w[..|w| - 1]) + w[|w| - 1]
  }

  lemma {:induction false} ValueOfWord(v: nat, n: nat)
    ensures Value(Word(v, n)) == v % Pow2(n)
  {
    if n > 0 {
      ValueOfWord(v / 2, n - 1);
      assert Word(v, n)[..n - 1] == Word(v / 2, n - 1);
      HalfMod(v, Pow2(n - 1));
    }
  }

  lemma Unfold(v: nat, n: nat)
    requires n > 0
    ensures Word(v, n) == Word(v / 2, n - 1) + [v % 2] && Pow2(n) == 2 * Pow2(n - 1)
  {
  }

  lemma {:induction false} WordSplit(v: nat, m: nat, n: nat)
    ensures Word(v, m + n) == Word(Quotient(v, Pow2(n)), m) + Word(v, n)
  {
    if n > 0 {
      hide Word, Pow2;
      WordSplit(v / 2, m, n - 1);
      DivDiv(v, Pow2(n - 1));
      Unfold(v, n);
      Unfold(v, m + n);
      assert m + n - 1 == m + (n - 1);
    }
  }

  lemma {:induction false} WordMod(v: nat, n: nat, m: nat)
    requires n <= m
    ensures Word(v % Pow2(m), n) == Word(v, n)
  {
    if n > 0 {
      hide Word, Pow2;
      WordMod(v / 2, n - 1, m - 1);
      Unfold(v, m);
      HalfMod(v, Pow2(m - 1));
      Unfold(v, n);
      Unfold(v % Pow2(m), n);
      Halves(v / 2 % Pow2(m - 1), v % 2);
    }
  }

  lemma Halves(x: nat, r: nat)
    requires r < 2
    ensures (2 * x + r) / 2 == x && (2 * x + r) % 2 == r
  {
  }

  // The bits of a byte string.
  function Stream(bytes: seq<byte>): (w: seq<bit>)
    ensures |w| == 8 * |bytes|
  {
    if bytes == [] then [] else Word(bytes[0], 8) + Stream(bytes[1..])
  }

  // The pieces in one.
  function Joined(pieces: seq<seq<byte>>): seq<byte>
  {
    if pieces == [] then [] else pieces[0] + Joined(pieces[1..])
  }

  class Reader {
    var bsBuff: nat               // 32 bits wide
    var bsLive: nat
    var nextIn: seq<byte>         // the input of this call that is not yet taken
    var pieces: seq<seq<byte>>    // the input of the calls to come

    ghost predicate Valid()
      reads this
    {
      bsBuff < Pow2(32) && bsLive <= 32
    }

    // The bits not yet handed out.
    ghost function Unread(): seq<bit>
      reads this
    {
      Word(bsBuff, bsLive) + Stream(nextIn + Joined(pieces))
    }

    constructor (pieces: seq<seq<byte>>)
      ensures Valid() && Unread() == Stream(Joined(pieces))
    {
      bsBuff, bsLive, nextIn, this.pieces := 0, 0, [], pieces;
      new;
      assert nextIn + Joined(pieces) == Joined(pieces);
    }

    // GET_BITS. At the end of a piece the decompressor returns and is called
    // again with the next one; not ok is that no further call comes.
    method GetBits(n: nat) returns (ok: bool, v: nat)
      requires Valid() && n <= 25
      modifies this
      ensures Valid()
      ensures ok <==> n <= |old(Unread())|
      ensures ok ==> Word(v, n) == old(Unread())[..n] && v == Value(old(Unread())[..n])
                     && Unread() == old(Unread())[n..]
      ensures !ok ==> Unread() == old(Unread())
    {
      hide Word, Stream, Pow2, Value;
      v := 0;
      while true
        invariant Valid() && Unread() == old(Unread())
        decreases |pieces|, |nextIn|
      {
        if bsLive >= n {
          v := (bsBuff / Pow2(bsLive - n)) % Pow2(n);
          TopBits(bsBuff, bsLive, n);
          WordLength(bsBuff, bsLive);
          assert Unread()[..n] == Word(v, n);
          assert Unread()[n..] == Word(bsBuff, bsLive - n) + Stream(nextIn + Joined(pieces));
          bsLive := bsLive - n;
          return true, v;
        }
        if nextIn == [] {
          if pieces == [] {
            EmptyStream();
            return false, v;
          }
          NextPiece(pieces);
          nextIn, pieces := pieces[0], pieces[1..];
          continue;
        }
        Refilled(bsBuff, bsLive, nextIn[0]);
        StreamStep(nextIn, Joined(pieces));
        assert Unread() == Word(bsBuff, bsLive) + Word(nextIn[0], 8) + Stream(nextIn[1..] + Joined(pieces));
        bsBuff := bsBuff * 0x100 % 0x1_0000_0000 + nextIn[0];
        bsLive := bsLive + 8;
        nextIn := nextIn[1..];
      }
    }
  }

  lemma EmptyStream()
    ensures Stream([]) == [] && Joined([]) == [] && forall s: seq<byte> :: s + [] == s
  {
  }

  lemma NextPiece(pieces: seq<seq<byte>>)
    requires pieces != []
    ensures [] + Joined(pieces) == pieces[0] + Joined(pieces[1..])
  {
  }

  lemma WordLength(v: nat, n: nat)
    ensures |Word(v, n)| == n
  {
  }

  lemma StreamStep(bytes: seq<byte>, more: seq<byte>)
    requires bytes != []
    ensures Stream(bytes + more) == Word(bytes[0], 8) + Stream(bytes[1..] + more)
  {
    assert (bytes + more)[1..] == bytes[1..] + more;
  }

  lemma TopBits(buff: nat, live: nat, n: nat)
    requires n <= live
    ensures Word(buff, live) == Word(buff / Pow2(live - n) % Pow2(n), n) + Word(buff, live - n)
    ensures Value(Word(buff / Pow2(live - n) % Pow2(n), n)) == buff / Pow2(live - n) % Pow2(n)
  {
    WordSplit(buff, n, live - n);
    WordMod(buff / Pow2(live - n), n, n);
    ValueOfWord(buff / Pow2(live - n), n);
  }

  // (bsBuff << 8) | byte in 32 bits loses only bits above the live ones.
  lemma Refilled(buff: nat, live: nat, c: byte)
    requires live + 8 <= 32
    ensures Word(buff * 0x100 % 0x1_0000_0000 + c, live + 8) == Word(buff, live) + Word(c, 8)
    ensures buff * 0x100 % 0x1_0000_0000 + c < Pow2(32)
  {
    Pow2Values();
    var w := buff * 0x100 + c;
    assert w % 0x1_0000_0000 == buff * 0x100 % 0x1_0000_0000 + c;
    WordMod(w, live + 8, 32);
    WordSplit(w, live, 8);
    WordMod(w, 8, 8);
    assert w / 0x100 == buff && w % 0x100 == c;
    WordMod(c, 8, 8);
  }
}
