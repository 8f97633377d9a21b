// The bits of a deflate block's body as sections 3.2.3 and 3.2.5 of RFC 1951
// write them: canonical codes first bit lowest, extra bits behind the length
// and distance codes, and the end-of-block code. Inflate reads back what was
// written, whatever the codes are.
module DeflateFormat {
  import opened Bits
  import opened CountingRank
  import opened CodeSpace
  import opened SortedCodes
  import opened InflateTable
  import opened InflateBits
  import opened InflateSymbols
  import opened Lz77

  const END_BLOCK: nat := 256
  const FIRST_LENGTH: nat := 257
  const LENGTHS: nat := 29
  const DISTANCES: nat := 30

  // ---------------------------------------------------------------------
  // Writing
  // ---------------------------------------------------------------------

  // n bits of v in front of q.
  ghost function Put(v: nat, n: nat, q: Queue): Queue
  {
    Queue(v + Pow2(n) * q.x, q.n + n)
  }

  lemma PutTaken(v: nat, n: nat, q: Queue)
    requires v < Pow2(n)
    ensures Put(v, n, q).x % Pow2(n) == v && Dropped(Put(v, n, q), n) == q
  {
    hide Pow2;
    ModPlus(v, Pow2(n), q.x);
    ModUnique(v, Pow2(n), 0, v);
  }

  ghost predicate Coded(lens: seq<byte>, sym: nat)
  {
    Bounded(lens) && sym < |lens| && lens[sym] != 0
  }

  // Where a symbol is in canonical order.
  ghost function Place(lens: seq<byte>, sym: nat): (u: nat)
    requires Coded(lens, sym)
    ensures u < |Sorted(lens)| && Sorted(lens)[u] == lens[sym] && Order(lens)[u] == sym
  {
    OrderAt(lens, sym);
    Rank(lens, sym) - Zeros(lens)
  }

  // A symbol's code in front of q.
  ghost function PutSymbol(lens: seq<byte>, sym: nat, q: Queue): Queue
    requires Coded(lens, sym)
  {
    SortedAscends(lens);
    Put(Huff(Sorted(lens), Place(lens, sym)), lens[sym], q)
  }

  // The last of the first i + 1 entries that does not exceed v, or the first.
  function LastUpTo(base: seq<nat>, i: nat, v: nat): (r: nat)
    requires i < |base|
    ensures r <= i
  {
    if i == 0 || base[i] <= v then i else LastUpTo(base, i - 1, v)
  }

  lemma {:induction false} LastUpToIs(base: seq<nat>, i: nat, v: nat)
    requires i < |base| && base[0] <= v
    ensures var r := LastUpTo(base, i, v); base[r] <= v && (r < i ==> v < base[r + 1])
  {
    if i > 0 && base[i] > v { LastUpToIs(base, i - 1, v); }
  }

  // The number of the length code for a match's length.
  function LengthIndex(len: nat): nat
  {
    LastUpTo(LENGTH_BASE, LENGTHS - 1, len)
  }

  function DistanceIndex(dist: nat): nat
  {
    LastUpTo(DIST_BASE, DISTANCES - 1, dist)
  }

  // The extra bits of code k reach up to the next code, or up to the top.
  ghost predicate ReachesNext(base: seq<nat>, extra: seq<nat>, n: nat, top: nat, k: nat)
  {
    k < n <= |base| && n <= |extra| && 16 <= extra[k] < 32
      && base[k] + Pow2(extra[k] - 16) >= if k + 1 < n then base[k + 1] else top
  }

  // Code k and its extra bits stand for v.
  ghost predicate CodeFor(base: seq<nat>, extra: seq<nat>, k: nat, v: nat)
  {
    k < |base| && k < |extra| && 16 <= extra[k] < 32 && base[k] <= v < base[k] + Pow2(extra[k] - 16)
  }

  lemma Covered(base: seq<nat>, extra: seq<nat>, n: nat, top: nat, v: nat)
    requires 0 < n <= |base| && n <= |extra| && base[0] <= v < top
    requires forall k: nat :: k < n ==> ReachesNext(base, extra, n, top, k)
    ensures CodeFor(base, extra, LastUpTo(base, n - 1, v), v)
  {
    hide Pow2;
    LastUpToIs(base, n - 1, v);
    assert ReachesNext(base, extra, n, top, LastUpTo(base, n - 1, v));
  }

  lemma LengthSteps(k: nat)
    requires k < LENGTHS
    ensures ReachesNext(LENGTH_BASE, LENGTH_EXTRA, LENGTHS, 259, k)
  {
    hide Pow2;
    SmallPowers();
    if k + 1 < LENGTHS { assert LENGTH_BASE[k] + Pow2(LENGTH_EXTRA[k] - 16) >= LENGTH_BASE[k + 1]; }
  }

  lemma DistanceSteps(k: nat)
    requires k < DISTANCES
    ensures ReachesNext(DIST_BASE, DIST_EXTRA, DISTANCES, 32769, k)
  {
    hide Pow2;
    SmallPowers();
    if k + 1 < DISTANCES { assert DIST_BASE[k] + Pow2(DIST_EXTRA[k] - 16) >= DIST_BASE[k + 1]; }
  }

  // Every length from 3 to 258 has a code whose extra bits hold the rest.
  lemma LengthCovered(len: nat)
    requires 3 <= len <= 258
    ensures CodeFor(LENGTH_BASE, LENGTH_EXTRA, LengthIndex(len), len)
  {
    hide ReachesNext, CodeFor, LastUpTo;
    forall k: nat | k < LENGTHS ensures ReachesNext(LENGTH_BASE, LENGTH_EXTRA, LENGTHS, 259, k) { LengthSteps(k); }
    Covered(LENGTH_BASE, LENGTH_EXTRA, LENGTHS, 259, len);
  }

  // Every distance from 1 to 32768 has a code whose extra bits hold the rest.
  lemma DistanceCovered(dist: nat)
    requires 1 <= dist <= 32768
    ensures CodeFor(DIST_BASE, DIST_EXTRA, DistanceIndex(dist), dist)
  {
    hide ReachesNext, CodeFor, LastUpTo;
    forall k: nat | k < DISTANCES ensures ReachesNext(DIST_BASE, DIST_EXTRA, DISTANCES, 32769, k) { DistanceSteps(k); }
    Covered(DIST_BASE, DIST_EXTRA, DISTANCES, 32769, dist);
  }

  // There are codes for a token.
  ghost predicate HasCodes(ll: seq<byte>, dl: seq<byte>, t: Token)
  {
    match t
    case Literal(c) => Coded(ll, c)
    case Match(dist, len) =>
      InRange(t) && Coded(ll, FIRST_LENGTH + LengthIndex(len)) && Coded(dl, DistanceIndex(dist))
  }

  ghost function PutDistance(dl: seq<byte>, dist: nat, q: Queue): Queue
    requires 1 <= dist <= 32768 && Coded(dl, DistanceIndex(dist))
  {
    DistanceCovered(dist);
    var j := DistanceIndex(dist);
    PutSymbol(dl, j, Put(dist - DIST_BASE[j], DIST_EXTRA[j] - 16, q))
  }

  ghost function PutLength(ll: seq<byte>, len: nat, q: Queue): Queue
    requires 3 <= len <= 258 && Coded(ll, FIRST_LENGTH + LengthIndex(len))
  {
    LengthCovered(len);
    var i := LengthIndex(len);
    PutSymbol(ll, FIRST_LENGTH + i, Put(len - LENGTH_BASE[i], LENGTH_EXTRA[i] - 16, q))
  }

  ghost function PutToken(ll: seq<byte>, dl: seq<byte>, t: Token, q: Queue): Queue
    requires HasCodes(ll, dl, t)
  {
    match t
    case Literal(c) => PutSymbol(ll, c, q)
    case Match(dist, len) => PutLength(ll, len, PutDistance(dl, dist, q))
  }

  ghost predicate AllHaveCodes(ll: seq<byte>, dl: seq<byte>, ts: seq<Token>)
  {
    forall k :: 0 <= k < |ts| ==> HasCodes(ll, dl, ts[k])
  }

  // All tokens, one after another, in front of q.
  ghost function PutTokens(ll: seq<byte>, dl: seq<byte>, ts: seq<Token>, q: Queue): Queue
    requires AllHaveCodes(ll, dl, ts)
  {
    if ts == [] then q else PutTokens(ll, dl, ts[..|ts| - 1], PutToken(ll, dl, ts[|ts| - 1], q))
  }

  // ---------------------------------------------------------------------
  // Reading it back
  // ---------------------------------------------------------------------

  // A lookup finds the symbol whose code is in front and drops just that code.
  lemma SymbolFound(t: seq<Code>, root: nat, kind: CodeType, lens: seq<byte>, sym: nat, q: Queue)
    requires TableOf(t, root, kind, lens) && Coded(lens, sym)
    ensures lens[sym] <= PutSymbol(lens, sym, q).n && Dropped(PutSymbol(lens, sym, q), lens[sym]) == q
    ensures exists b: nat :: Look(t, root, PutSymbol(lens, sym, q).x) == (Entry(kind, sym, b), lens[sym] as nat)
  {
    hide Pow2, Rev, Start, Entry, Decodes, Look, Put, Quotient;
    SortedAscends(lens);
    var ls, u, p := Sorted(lens), Place(lens, sym), PutSymbol(lens, sym, q);
    AcceptedFits(kind, ls);
    var cw := CodeSpace.CodeWord(ls, u);
    PutTaken(Huff(ls, u), lens[sym], q);
    assert p.n == q.n + lens[sym] by { PutCounts(Huff(ls, u), lens[sym], q); }
    assert IsCode(ls, u, p.x);
    LookCoded(t, root, kind, lens, u, p.x);
    var b: nat := if ls[u] <= root then ls[u] else ls[u] - root;
    assert Look(t, root, p.x) == (Entry(kind, sym, b), ls[u]);
  }

  lemma PutCounts(v: nat, n: nat, q: Queue)
    ensures Put(v, n, q).n == q.n + n
  {
  }

  lemma AcceptedFits(kind: CodeType, ls: seq<nat>)
    requires Ascending(ls) && Accepted(kind, ls)
    ensures CodeSpace.Fits(ls)
  {
    if ls == [1] {
      OneBitHuff(ls);
    } else if ls == [] {
      assert Start(ls, 0) == 0;
    }
  }

  lemma LengthEntry(i: nat, b: nat)
    requires i < LENGTHS
    ensures Entry(LENS, FIRST_LENGTH + i, b) == Code(LENGTH_EXTRA[i], b, LENGTH_BASE[i])
  {
  }

  // A length code and its extra bits.
  lemma LengthRead(g: Tables, ll: seq<byte>, i: nat, base: nat, extra: nat, len: nat, q: Queue, total: seq<byte>)
    requires TableOf(g.lcode, g.lbits, LENS, ll) && i < LENGTHS && Coded(ll, FIRST_LENGTH + i)
    requires base == LENGTH_BASE[i] && extra == LENGTH_EXTRA[i] && 16 <= extra < 32
      && base <= len < base + Pow2(extra - 16)
    ensures Symbol(g, PutSymbol(ll, FIRST_LENGTH + i, Put(len - base, extra - 16, q)), total)
         == AtDistance(g, len, q, total)
  {
    hide Pow2, TableOf, Look, PutSymbol, Put, Dropped, AtDistance, Entry;
    var n, sym: nat := extra - 16, FIRST_LENGTH + i;
    SymbolFound(g.lcode, g.lbits, LENS, ll, sym, Put(len - base, n, q));
    forall b: nat ensures Entry(LENS, sym, b) == Code(extra, b, base) { LengthEntry(i, b); }
    PutTaken(len - base, n, q);
    PutCounts(len - base, n, q);
    assert extra % 16 == n && Flag16(extra);
  }

  // A distance code and its extra bits.
  lemma DistanceRead(g: Tables, dl: seq<byte>, j: nat, base: nat, extra: nat, dist: nat, len: nat, q: Queue,
    total: seq<byte>)
    requires TableOf(g.dcode, g.dbits, DISTS, dl) && j < DISTANCES && Coded(dl, j)
    requires base == DIST_BASE[j] && extra == DIST_EXTRA[j] && 16 <= extra < 32
      && base <= dist < base + Pow2(extra - 16)
    ensures AtDistance(g, len, PutSymbol(dl, j, Put(dist - base, extra - 16, q)), total) == Matched(len, dist, q, total)
  {
    hide Pow2, TableOf, Look, PutSymbol, Put, Dropped, Matched, Entry;
    var n := extra - 16;
    SymbolFound(g.dcode, g.dbits, DISTS, dl, j, Put(dist - base, n, q));
    forall b: nat ensures Entry(DISTS, j, b) == Code(extra, b, base) { DistanceEntry(j, b); }
    PutTaken(dist - base, n, q);
    PutCounts(dist - base, n, q);
    assert extra % 16 == n && Flag16(extra);
  }

  lemma DistanceEntry(j: nat, b: nat)
    requires j < DISTANCES
    ensures Entry(DISTS, j, b) == Code(DIST_EXTRA[j], b, DIST_BASE[j])
  {
  }

  // One token.
  lemma TokenRead(g: Tables, ll: seq<byte>, dl: seq<byte>, t: Token, q: Queue, total: seq<byte>)
    requires TablesOk(g, ll, dl) && HasCodes(ll, dl, t) && Lz77.Fits(total, t)
    ensures Symbol(g, PutToken(ll, dl, t, q), total) == More(q, Apply(total, t))
  {
    hide Pow2, TableOf, Look, PutSymbol, Dropped, Symbol, AtDistance, Put, LastUpTo;
    if t.Literal? {
      LiteralRead(g, ll, t.c, q, total);
    } else {
      LengthCovered(t.len);
      DistanceCovered(t.dist);
      var i, j := LengthIndex(t.len), DistanceIndex(t.dist);
      LengthRead(g, ll, i, LENGTH_BASE[i], LENGTH_EXTRA[i], t.len, PutDistance(dl, t.dist, q), total);
      DistanceRead(g, dl, j, DIST_BASE[j], DIST_EXTRA[j], t.dist, t.len, q, total);
    }
  }

  lemma LiteralRead(g: Tables, ll: seq<byte>, c: byte, q: Queue, total: seq<byte>)
    requires TableOf(g.lcode, g.lbits, LENS, ll) && Coded(ll, c)
    ensures Symbol(g, PutSymbol(ll, c, q), total) == More(q, total + [c])
  {
    hide Pow2, TableOf, Look, PutSymbol, Dropped;
    SymbolFound(g.lcode, g.lbits, LENS, ll, c, q);
  }

  lemma EndRead(g: Tables, ll: seq<byte>, q: Queue, total: seq<byte>)
    requires TableOf(g.lcode, g.lbits, LENS, ll) && Coded(ll, END_BLOCK)
    ensures Symbol(g, PutSymbol(ll, END_BLOCK, q), total) == Ended(q, total)
  {
    hide Pow2, TableOf, Look, PutSymbol, Dropped;
    SymbolFound(g.lcode, g.lbits, LENS, ll, END_BLOCK, q);
  }

  // All tokens written one after another are read as what they stand for.
  lemma {:induction false} TokensRead(g: Tables, ll: seq<byte>, dl: seq<byte>, before: seq<Token>, ts: seq<Token>,
    q: Queue)
    requires TablesOk(g, ll, dl) && AllHaveCodes(ll, dl, ts) && Sound(before + ts)
    ensures Symbols(g, PutTokens(ll, dl, ts, q), Expand(before), |ts|) == More(q, Expand(before + ts))
    decreases |ts|
  {
    hide TablesOk, HasCodes, PutToken, Symbol, Apply;
    if ts == [] {
      assert before + ts == before;
    } else {
      var us, t, all := ts[..|ts| - 1], ts[|ts| - 1], before + ts;
      assert all[..|all| - 1] == before + us && all[|all| - 1] == t;
      TokensRead(g, ll, dl, before, us, PutToken(ll, dl, t, q));
      TokenRead(g, ll, dl, t, q, Expand(before + us));
    }
  }

  // The body of a block: its tokens and the end-of-block code.
  ghost function PutBody(ll: seq<byte>, dl: seq<byte>, ts: seq<Token>, q: Queue): Queue
    requires AllHaveCodes(ll, dl, ts) && Coded(ll, END_BLOCK)
  {
    PutTokens(ll, dl, ts, PutSymbol(ll, END_BLOCK, q))
  }

  lemma BodyRead(g: Tables, ll: seq<byte>, dl: seq<byte>, before: seq<Token>, ts: seq<Token>, q: Queue)
    requires TablesOk(g, ll, dl) && AllHaveCodes(ll, dl, ts) && Coded(ll, END_BLOCK) && Sound(before + ts)
    ensures Symbols(g, PutBody(ll, dl, ts, q), Expand(before), |ts| + 1) == Ended(q, Expand(before + ts))
  {
    hide TablesOk, AllHaveCodes, PutTokens, PutSymbol, Symbol, Sound, Expand, Coded;
    var end := PutSymbol(ll, END_BLOCK, q);
    TokensRead(g, ll, dl, before, ts, end);
    SymbolsNext(g, PutTokens(ll, dl, ts, end), Expand(before), |ts|);
    assert TableOf(g.lcode, g.lbits, LENS, ll) by { TablesMean(g, ll, dl); }
    EndRead(g, ll, q, Expand(before + ts));
  }

  lemma TablesMean(g: Tables, ll: seq<byte>, dl: seq<byte>)
    requires TablesOk(g, ll, dl)
    ensures TableOf(g.lcode, g.lbits, LENS, ll) && TableOf(g.dcode, g.dbits, DISTS, dl)
  {
  }
}
