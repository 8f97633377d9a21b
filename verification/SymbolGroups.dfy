// Symbols in groups of fifty, each group with its own Huffman table
// (GET_MTF_VAL in bzip2's decompress.c), against the bits that spell them.
module SymbolGroups {
  import opened Bits
  import opened BitReader
  import opened HuffmanTables

  const G_SIZE: nat := 50

  // The selectors name codes, all over one alphabet.
  ghost predicate Coding(codes: seq<seq<byte>>, selectors: seq<nat>, alphaSize: nat)
  {
    && (forall t :: 0 <= t < |codes| ==> Lengths(codes[t]) && |codes[t]| == alphaSize)
    && (forall g :: 0 <= g < |selectors| ==> selectors[g] < |codes|)
  }

  // The code of symbol number k.
  ghost function CodeOf(codes: seq<seq<byte>>, selectors: seq<nat>, k: nat): seq<byte>
    requires k / G_SIZE < |selectors| && forall g :: 0 <= g < |selectors| ==> selectors[g] < |codes|
  {
    codes[selectors[k / G_SIZE]]
  }

  // From symbol number k on, the bits spell syms and leave rest.
  ghost predicate Spells(codes: seq<seq<byte>>, selectors: seq<nat>, k: nat, bits: seq<bit>, syms: seq<nat>,
    rest: seq<bit>)
    requires forall g :: 0 <= g < |selectors| ==> selectors[g] < |codes|
    decreases |syms|
  {
    if syms == [] then rest == bits
    else
      && k / G_SIZE < |selectors|
      && Takes(CodeOf(codes, selectors, k), bits, syms[0])
      && Spells(codes, selectors, k + 1, bits[CodeOf(codes, selectors, k)[syms[0]]..], syms[1..], rest)
  }

  ghost predicate Takes(lens: seq<byte>, bits: seq<bit>, v: nat)
  {
    v < |lens| && Matches(lens, bits, v)
  }

  lemma {:induction false} SpellsAppend(codes: seq<seq<byte>>, selectors: seq<nat>, k: nat, bits: seq<bit>,
                                        s: seq<nat>, mid: seq<bit>, t: seq<nat>, rest: seq<bit>)
    requires forall g :: 0 <= g < |selectors| ==> selectors[g] < |codes|
    requires Spells(codes, selectors, k, bits, s, mid)
    ensures Spells(codes, selectors, k, bits, s + t, rest) <==> Spells(codes, selectors, k + |s|, mid, t, rest)
    decreases |s|
  {
    if s == [] {
      assert s + t == t;
    } else {
      assert (s + t)[1..] == s[1..] + t;
      SpellsAppend(codes, selectors, k + 1, bits[CodeOf(codes, selectors, k)[s[0]]..], s[1..], mid, t, rest);
    }
  }

  // Two readings of the same bits agree as far as both go.
  lemma {:induction false} SpellsUnique(codes: seq<seq<byte>>, selectors: seq<nat>, k: nat, bits: seq<bit>,
                                        s: seq<nat>, restS: seq<bit>, t: seq<nat>, restT: seq<bit>)
    requires forall g :: 0 <= g < |selectors| ==> selectors[g] < |codes|
    requires Spells(codes, selectors, k, bits, s, restS) && Spells(codes, selectors, k, bits, t, restT) && |s| <= |t|
    ensures s <= t
    ensures Spells(codes, selectors, k + |s|, restS, t[|s|..], restT)
    decreases |s|
  {
    if s == [] {
      assert t[|s|..] == t;
    } else {
      var lens := CodeOf(codes, selectors, k);
      UniqueMatch(lens, bits, s[0], t[0]);
      SpellsUnique(codes, selectors, k + 1, bits[lens[s[0]]..], s[1..], restS, t[1..], restT);
      assert s == [s[0]] + s[1..] && t == [t[0]] + t[1..];
      assert t[1..][|s[1..]|..] == t[|s|..];
    }
  }

  // What the encoder writes.
  ghost function Write(codes: seq<seq<byte>>, selectors: seq<nat>, k: nat, syms: seq<nat>): seq<bit>
    requires forall g :: 0 <= g < |selectors| ==> selectors[g] < |codes|
    requires Writable(codes, selectors, k, syms)
    decreases |syms|
  {
    if syms == [] then [] else CodeWord(CodeOf(codes, selectors, k), syms[0]) + Write(codes, selectors, k + 1,
      syms[1..])
  }

  // There are selectors and code words for all symbols.
  ghost predicate Writable(codes: seq<seq<byte>>, selectors: seq<nat>, k: nat, syms: seq<nat>)
    requires forall g :: 0 <= g < |selectors| ==> selectors[g] < |codes|
    decreases |syms|
  {
    syms == [] || (k / G_SIZE < |selectors| && syms[0] < |CodeOf(codes, selectors, k)|
      && Writable(codes, selectors, k + 1, syms[1..]))
  }

  // Fifty symbols for each selector can be written, whatever codes are selected.
  lemma {:induction false} EnoughSelectors(codes: seq<seq<byte>>, selectors: seq<nat>, alphaSize: nat, k: nat,
    syms: seq<nat>)
    requires Coding(codes, selectors, alphaSize) && k + |syms| <= G_SIZE * |selectors|
    requires forall i :: 0 <= i < |syms| ==> syms[i] < alphaSize
    ensures Writable(codes, selectors, k, syms)
    decreases |syms|
  {
    if syms != [] { EnoughSelectors(codes, selectors, alphaSize, k + 1, syms[1..]); }
  }

  lemma {:induction false} WrittenSpells(codes: seq<seq<byte>>, selectors: seq<nat>, alphaSize: nat, k: nat,
    syms: seq<nat>, rest: seq<bit>)
    requires Coding(codes, selectors, alphaSize) && Writable(codes, selectors, k, syms)
    requires forall t :: 0 <= t < |codes| ==> Kraft(codes[t])
    ensures Spells(codes, selectors, k, Write(codes, selectors, k, syms) + rest, syms, rest)
    decreases |syms|
  {
    hide Kraft, Matches, CodeWord, CodeOf;
    if syms == [] {
      assert [] + rest == rest;
    } else {
      hide Spells, Write, Writable;
      WriteFirst(codes, selectors, k, syms, rest);
      CodingMeans(codes, selectors, alphaSize, k);
      WrittenSpells(codes, selectors, alphaSize, k + 1, syms[1..], rest);
      SpellsFirst(codes, selectors, k, syms, Write(codes, selectors, k, syms) + rest,
        Write(codes, selectors, k + 1, syms[1..]) + rest, rest);
    }
  }

  lemma WriteFirst(codes: seq<seq<byte>>, selectors: seq<nat>, k: nat, syms: seq<nat>, rest: seq<bit>)
    requires forall g :: 0 <= g < |selectors| ==> selectors[g] < |codes|
    requires Writable(codes, selectors, k, syms) && syms != []
    ensures k / G_SIZE < |selectors| && syms[0] < |CodeOf(codes, selectors, k)|
      && Writable(codes, selectors, k + 1, syms[1..])
    ensures Write(codes, selectors, k, syms) + rest
         == CodeWord(CodeOf(codes, selectors, k), syms[0]) + (Write(codes, selectors, k + 1, syms[1..]) + rest)
  {
    hide CodeWord;
  }

  lemma CodingMeans(codes: seq<seq<byte>>, selectors: seq<nat>, alphaSize: nat, k: nat)
    requires Coding(codes, selectors, alphaSize) && k / G_SIZE < |selectors|
    requires forall t :: 0 <= t < |codes| ==> Kraft(codes[t])
    ensures Lengths(CodeOf(codes, selectors, k)) && |CodeOf(codes, selectors, k)| == alphaSize
    ensures Kraft(CodeOf(codes, selectors, k))
  {
  }

  // A code word in front of bits that spell the other symbols.
  lemma SpellsFirst(codes: seq<seq<byte>>, selectors: seq<nat>, k: nat, syms: seq<nat>, bits: seq<bit>, tail: seq<bit>,
    rest: seq<bit>)
    requires forall g :: 0 <= g < |selectors| ==> selectors[g] < |codes|
    requires k / G_SIZE < |selectors| && syms != [] && syms[0] < |CodeOf(codes, selectors, k)|
    requires Lengths(CodeOf(codes, selectors, k)) && Kraft(CodeOf(codes, selectors, k))
    requires bits == CodeWord(CodeOf(codes, selectors, k), syms[0]) + tail
    requires Spells(codes, selectors, k + 1, tail, syms[1..], rest)
    ensures Spells(codes, selectors, k, bits, syms, rest)
  {
    hide Matches, Kraft, CodeOf;
    var lens := CodeOf(codes, selectors, k);
    WrittenMatches(lens, syms[0], tail);
    assert bits[lens[syms[0]]..] == tail;
  }

  // Why no further symbol comes.
  ghost predicate Ends(codes: seq<seq<byte>>, selectors: seq<nat>, k: nat, bits: seq<bit>, f: Fetch)
    requires forall g :: 0 <= g < |selectors| ==> selectors[g] < |codes|
  {
    if k / G_SIZE >= |selectors| then f == DataError
    else Fetched(CodeOf(codes, selectors, k), bits, bits, f) && !f.Symbol?
  }

  class SymbolSource {
    const r: Reader
    const tables: seq<Table>
    const selectors: seq<nat>
    ghost const codes: seq<seq<byte>>
    ghost const alphaSize: nat
    ghost const start: seq<bit>

    var groupNo: int
    var groupPos: nat
    ghost var syms: seq<nat>      // the symbols handed out
    ghost var at: seq<bit>        // the bits after them

    ghost predicate Built()
    {
      && Coding(codes, selectors, alphaSize) && |tables| == |codes|
      && forall t :: 0 <= t < |codes| ==> Decodes(tables[t], codes[t])
    }

    ghost predicate Spelled()
      reads this
    {
      Built() && Spells(codes, selectors, 0, start, syms, at)
    }

    ghost predicate Valid()
      reads this, r
    {
      && r.Valid() && r.Unread() == at && Spelled()
      && groupNo >= -1 && groupPos <= G_SIZE && |syms| == G_SIZE * (groupNo + 1) - groupPos
      && (groupPos > 0 ==> 0 <= groupNo < |selectors|)
    }

    constructor (r: Reader, tables: seq<Table>, selectors: seq<nat>, ghost codes: seq<seq<byte>>, ghost alphaSize: nat)
      requires r.Valid() && Coding(codes, selectors, alphaSize) && |tables| == |codes|
      requires forall t :: 0 <= t < |codes| ==> Decodes(tables[t], codes[t])
      ensures Valid() && this.r == r && this.selectors == selectors && this.codes == codes
        && this.alphaSize == alphaSize
      ensures syms == [] && start == r.Unread()
    {
      this.r, this.tables, this.selectors, this.codes, this.alphaSize := r, tables, selectors, codes, alphaSize;
      start, at := r.Unread(), r.Unread();
      groupNo, groupPos, syms := -1, 0, [];
    }

    // GET_MTF_VAL
    method Next() returns (f: Fetch)
      requires Valid()
      modifies this, r
      ensures Spelled()
      ensures f.Symbol? ==> Valid() && f.value < alphaSize && syms == old(syms) + [f.value] && |at| < |old(at)|
      ensures !f.Symbol? ==> syms == old(syms) && at == old(at) && Ends(codes, selectors, |syms|, at, f)
    {
      hide Spells, Matches, Decodes;
      ghost var k := |syms|;
      GroupOf(k, groupNo, groupPos);
      if groupPos == 0 {
        groupNo := groupNo + 1;
        if groupNo >= |selectors| {
          return DataError;
        }
        groupPos := G_SIZE;
      }
      groupPos := groupPos - 1;
      ghost var lens := CodeOf(codes, selectors, k);
      f := FetchSymbol(r, tables[selectors[groupNo]], lens);
      if f.Symbol? {
        SpellsAppend(codes, selectors, 0, start, syms, at, [f.value], r.Unread());
        SpellsOne(codes, selectors, k, at, f.value, r.Unread());
        Shorter(lens, at, f.value, r.Unread());
        syms, at := syms + [f.value], r.Unread();
      }
    }
  }

  lemma GroupOf(k: nat, groupNo: int, groupPos: nat)
    requires k == G_SIZE * (groupNo + 1) - groupPos && groupPos <= G_SIZE && groupNo >= -1
    ensures groupPos == 0 ==> k / G_SIZE == groupNo + 1
    ensures groupPos > 0 ==> k / G_SIZE == groupNo
  {
  }

  lemma Shorter(lens: seq<byte>, bits: seq<bit>, v: nat, rest: seq<bit>)
    requires Lengths(lens) && Fetched(lens, bits, rest, Symbol(v))
    ensures |rest| < |bits|
  {
  }

  lemma SpellsOne(codes: seq<seq<byte>>, selectors: seq<nat>, k: nat, bits: seq<bit>, v: nat, rest: seq<bit>)
    requires forall g :: 0 <= g < |selectors| ==> selectors[g] < |codes|
    requires k / G_SIZE < |selectors| && Fetched(CodeOf(codes, selectors, k), bits, rest, Symbol(v))
    ensures Spells(codes, selectors, k, bits, [v], rest)
  {
    assert [v][1..] == [];
  }
}
