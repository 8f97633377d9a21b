// A block of bzip2 from the compressor's input stage to the decompressor's
// output: run-length code, Burrows-Wheeler transform, and back.
module BlockRoundTrip {
  import opened Bits
  import opened CountingRank
  import opened BurrowsWheeler
  import opened InverseTransform
  import opened BitReader
  import opened HuffmanTables
  import opened SymbolGroups
  import opened MoveToFront
  import opened SymbolLoop
  import opened RunLength
  import opened RunLengthEncoder
  import opened BlockOutput

  lemma GoodMeans(b: Block, c: seq<byte>)
    requires Good(b) && b.bytes < c
    ensures b.crc == Crc(0xffff_ffff, Decoded(b)) && Expand(c, |b.bytes|) == Expansion(Decoded(b), false)
  {
    hide Crc, Decoded, Expand;
    assert c == b.bytes + c[|b.bytes|..];
  }

  // Whatever transform of a finished block the decompressor is given, the
  // chain it walks expands to the input the block was made from.
  lemma ChainExpands(b: Block, l: seq<byte>, origPtr: nat)
    requires Good(b) && IsTransform(b.bytes, l, origPtr)
    ensures |l| == |b.bytes| > origPtr
    ensures Expand(Chain(l, Back(l), Back(l)[origPtr], |l| + 2), |l|) == Expansion(Decoded(b), false)
  {
    hide IsTransform, Chain, Back, Expand, Decoded, Good, Crc;
    ChainSpellsBlock(b.bytes, l, origPtr);
    ChainSplit(l, Back(l), Back(l)[origPtr], |l|, 2);
    GoodMeans(b, Chain(l, Back(l), Back(l)[origPtr], |l| + 2));
  }

  // Every block can be coded: for any codes over its alphabet, any order that
  // covers its bytes, and one selector for every fifty bytes and the end.
  lemma EveryBlockIsCodable(b: Block, codes: seq<seq<byte>>, selectors: seq<nat>, order: seq<byte>, n: nat)
    returns (l: seq<byte>, origPtr: nat)
    requires b.bytes != [] && 1 <= n && Covers(Identity(), order, n, b.bytes)
    requires Coding(codes, selectors, n + 2) && |b.bytes| < G_SIZE * |selectors|
    ensures IsTransform(b.bytes, l, origPtr) && |l| == |b.bytes| && Covers(Identity(), order, n, l)
    ensures Writable(codes, selectors, 0, Encode(Identity(), order, n, l, 0) + [n + 1])
  {
    hide IsTransform, Encode, Writable, IndexOf, Back, Chain;
    l, origPtr := TransformExists(b.bytes);
    ChainSpellsBlock(b.bytes, l, origPtr);
    forall k | 0 <= k < |l| ensures IndexOf(Identity(), order, n, l[k]) {
      ColumnBytes(b.bytes, l, origPtr, k);
      var j :| 0 <= j < |b.bytes| && b.bytes[j] == l[k];
      assert IndexOf(Identity(), order, n, b.bytes[j]);
    }
    EncodeShort(Identity(), order, n, l, 0);
    EnoughSelectors(codes, selectors, n + 2, 0, Encode(Identity(), order, n, l, 0) + [n + 1]);
  }

  // The decompressor, in either mode and with the output space cut up in any
  // way that gives room enough, writes exactly that input and arrives at the block's CRC.
  method DecompressBlock(d: DState, nblock: nat, unzftab: array<int>, origPtr: int, ghost l: seq<byte>, ghost b: Block,
    rooms: seq<nat>)
    requires Good(b) && origPtr >= 0 && IsTransform(b.bytes, l, origPtr)
    requires |l| == nblock <= d.limit <= 0x10_0000 && Counts(unzftab[..], l) && unzftab.Length == 256
    requires d.cftab.Length == d.cftabCopy.Length == 257
    requires d.cftab != d.cftabCopy && unzftab != d.cftab && unzftab != d.cftabCopy
    requires InBlock(d, l) && (d.small ==> |l| <= 2 * d.ll4.Length)
    requires Sum(rooms) >= |Decoded(b)|
    modifies d, d.tt, d.ll16, d.ll4, d.cftab, d.cftabCopy
    ensures d.nextOut == old(d.nextOut) + Decoded(b)
    ensures d.calculatedBlockCRC == b.crc
  {
    hide Good, IsTransform, Chain, Back, Expand, Decoded, DState.Valid, DState.Pending, Counts, Take, Sum, Crc, Rest;
    GoodMeans(b, b.bytes + [0]);
    ChainExpands(b, l, origPtr);
    var ok := d.StartOutput(nblock, unzftab, origPtr, l);
    ghost var e := d.Pending();
    var corrupt := Drain(d, rooms);
    RestNothing(e, Sum(rooms));
  }

  // From the bits of a block to its output. Whatever the compressor chose for
  // the code lengths, the selectors and the alphabet order, if the bits are the
  // coded transform of a finished block then that block's input comes out and
  // the bits that follow are left for the next block.
  method DecodeBlock(d: DState, src: SymbolSource, mtf: MtfList, seqToUnseq: array<byte>, nInUse: nat,
                     unzftab: array<int>, origPtr: int, rooms: seq<nat>, ghost b: Block, ghost l: seq<byte>,
                     ghost rest: seq<bit>)
    returns (outcome: Outcome)
    requires Good(b) && origPtr >= 0 && IsTransform(b.bytes, l, origPtr) && Sum(rooms) >= |Decoded(b)|
    requires |l| <= d.limit <= 900_000 && InBlock(d, []) && (d.small ==> d.limit <= 2 * d.ll4.Length)
    requires d.cftab.Length == d.cftabCopy.Length == 257 && d.cftab != d.cftabCopy && d.cftab != unzftab
      && d.cftabCopy != unzftab
    requires mtf.mtfa.Length == MTFA_SIZE && mtf.mtfbase.Length == 16 && seqToUnseq.Length == unzftab.Length == 256
    requires seqToUnseq != mtf.mtfa && unzftab != mtf.mtfbase
    requires 1 <= nInUse <= 256 && src.Valid() && src.syms == [] && src.alphaSize == nInUse + 2
    requires forall t :: 0 <= t < |src.codes| ==> Kraft(src.codes[t])
    requires Covers(Identity(), seqToUnseq[..], nInUse, l) && WrittenAs(src, seqToUnseq[..], nInUse, l, rest)
    modifies src, src.r, mtf.mtfa, mtf.mtfbase, unzftab, d, d.tt, d.ll16, d.ll4, d.cftab, d.cftabCopy
    ensures outcome == Complete && src.at == rest == src.r.Unread()
    ensures d.nextOut == old(d.nextOut) + Decoded(b) && d.calculatedBlockCRC == b.crc
  {
    hide Good, IsTransform, Decoded, InBlock, SymbolSource.Spelled, Kraft, Covers, WrittenAs, Explains, Meaning, Counts,
      Sum, Reader.Unread, Reader.Valid;
    var nblock;
    ghost var c;
    outcome, nblock, c := ReadSymbols(d, src, mtf, seqToUnseq, nInUse, unzftab);
    ReadsBack(src, d, seqToUnseq[..], nInUse, l, rest, outcome, c);
    assert src.r.Unread() == src.at;
    DecompressBlock(d, nblock, unzftab, origPtr, l, b, rooms);
  }
}
