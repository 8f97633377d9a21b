// From deflate's input to inflate's output: the tokens of the blocks that
// deflate flushes, written with any codes that have code words for them, are
// read by inflate as the input they were made from.
module DeflateRoundTrip {
  import opened Bits
  import opened InflateBits
  import opened InflateSymbols
  import opened Lz77
  import opened DeflateState
  import opened DeflateFormat

  // A code for every symbol that deflate may write.
  ghost predicate FullCodes(ll: seq<byte>, dl: seq<byte>)
  {
    && |ll| >= FIRST_LENGTH + LENGTHS && |dl| >= DISTANCES
    && (forall sym: nat :: sym < FIRST_LENGTH + LENGTHS ==> Coded(ll, sym))
    && (forall sym: nat :: sym < DISTANCES ==> Coded(dl, sym))
  }

  lemma FullSuffices(ll: seq<byte>, dl: seq<byte>, ts: seq<Token>)
    requires FullCodes(ll, dl) && Ranged(ts)
    ensures AllHaveCodes(ll, dl, ts)
  {
    hide LastUpTo, Coded;
    forall k | 0 <= k < |ts| ensures HasCodes(ll, dl, ts[k]) {
      assert InRange(ts[k]);
      if ts[k].Literal? { assert ts[k].c < FIRST_LENGTH; }
    }
  }

  lemma {:induction false} TokensSoFar(blocks: seq<Block>, k: nat)
    requires k <= |blocks|
    ensures exists rest: seq<Token> :: AllTokens(blocks) == AllTokens(blocks[..k]) + rest
    decreases |blocks|
  {
    if k == |blocks| {
      assert blocks[..k] == blocks && AllTokens(blocks) == AllTokens(blocks) + [];
    } else {
      var init := blocks[..|blocks| - 1];
      TokensSoFar(init, k);
      assert init[..k] == blocks[..k];
      var rest :| AllTokens(init) == AllTokens(init[..k]) + rest;
      assert AllTokens(blocks) == AllTokens(blocks[..k]) + (rest + blocks[|blocks| - 1].tokens);
    }
  }

  // What the blocks before number k stand for.
  ghost function OutputBefore(blocks: seq<Block>, k: nat): seq<byte>
    requires k <= |blocks|
  {
    Expand(AllTokens(blocks[..k]))
  }

  // Inflating one block's body after the blocks before it ends at the block's
  // end, with the output of the blocks up to and including it.
  lemma BlockInflates(blocks: seq<Block>, whole: seq<byte>, k: nat, g: Tables, ll: seq<byte>, dl: seq<byte>, q: Queue)
    requires Spell(AllTokens(blocks), whole, |whole|) && k < |blocks| && TablesOk(g, ll, dl)
    requires AllHaveCodes(ll, dl, blocks[k].tokens) && Coded(ll, END_BLOCK)
    ensures Symbols(g, PutBody(ll, dl, blocks[k].tokens, q), OutputBefore(blocks, k), |blocks[k].tokens| + 1)
         == Ended(q, OutputBefore(blocks, k + 1))
    ensures OutputBefore(blocks, k + 1) <= whole && (k + 1 == |blocks| ==> OutputBefore(blocks, k + 1) == whole)
    ensures OutputBefore(blocks, 0) == []
  {
    hide TablesOk, AllHaveCodes, Coded, PutBody, Symbols, Expand, Sound, Ranged;
    var some := blocks[..k + 1];
    assert some[..|some| - 1] == blocks[..k] && some[|some| - 1] == blocks[k];
    TokensSoFar(blocks, k + 1);
    var rest :| AllTokens(blocks) == AllTokens(some) + rest;
    ExpandPrefix(AllTokens(some), rest);
    assert whole[..|whole|] == whole;
    if k + 1 == |blocks| { assert some == blocks; }
    BodyRead(g, ll, dl, AllTokens(blocks[..k]), blocks[k].tokens, q);
    NothingYet(blocks);
  }

  lemma NothingYet(blocks: seq<Block>)
    ensures OutputBefore(blocks, 0) == []
  {
    assert blocks[..0] == [];
  }
}
