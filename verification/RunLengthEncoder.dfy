// bzip2's compressor input stage (bzlib.c): runs are collected from the input
// and added to the block; full or flushed blocks go to BZ2_compressBlock.
module RunLengthEncoder {
  import opened Bits
  import opened RunLength

  // ---------------------------------------------------------------------
  // Runs and their code
  // ---------------------------------------------------------------------
  datatype RunOf = RunOf(ch: byte, len: nat)

  ghost function EncodeRun(r: RunOf): (s: seq<byte>)
    requires 1 <= r.len <= 255
    ensures s != [] && s[0] == r.ch
  {
    if r.len < 4 then Rep(r.ch, r.len) else Rep(r.ch, 4) + [r.len - 4]
  }

  ghost predicate LengthsFit(rs: seq<RunOf>)
  {
    forall i :: 0 <= i < |rs| ==> 1 <= rs[i].len <= 255
  }

  // Two neighbours share their byte only when the first is full.
  ghost predicate Separated(rs: seq<RunOf>)
  {
    LengthsFit(rs) && forall i :: 0 <= i < |rs| - 1 ==> rs[i].ch != rs[i + 1].ch || rs[i].len == 255
  }

  ghost function EncodeRuns(rs: seq<RunOf>): seq<byte>
    requires LengthsFit(rs)
  {
    if rs == [] then [] else EncodeRun(rs[0]) + EncodeRuns(rs[1..])
  }

  ghost function Flatten(rs: seq<RunOf>): seq<byte>
  {
    if rs == [] then [] else Rep(rs[0].ch, rs[0].len) + Flatten(rs[1..])
  }

  lemma {:induction false} EncodeAppend(rs: seq<RunOf>, r: RunOf)
    requires LengthsFit(rs) && 1 <= r.len <= 255
    ensures LengthsFit(rs + [r]) && EncodeRuns(rs + [r]) == EncodeRuns(rs) + EncodeRun(r)
  {
    hide EncodeRun;
    if rs == [] {
      assert [] + [r] == [r] && [r][1..] == [];
    } else {
      assert (rs + [r])[1..] == rs[1..] + [r];
      EncodeAppend(rs[1..], r);
    }
  }

  lemma {:induction false} FlattenAppend(rs: seq<RunOf>, r: RunOf)
    ensures Flatten(rs + [r]) == Flatten(rs) + Rep(r.ch, r.len)
  {
    if rs == [] {
      assert [] + [r] == [r] && [r][1..] == [];
    } else {
      assert (rs + [r])[1..] == rs[1..] + [r];
      FlattenAppend(rs[1..], r);
    }
  }

  // The output stage of the decompressor undoes the code, whatever follows.
  lemma {:induction false} DecodeEncode(rs: seq<RunOf>, t: seq<byte>)
    requires Separated(rs) && t != []
    ensures Expand(EncodeRuns(rs) + t, |EncodeRuns(rs)|) == Expansion(Flatten(rs), false)
  {
    hide Expand, EncodeRun;
    if rs == [] {
      ExpandNothing([] + t);
    } else {
      var r, rest := rs[0], EncodeRuns(rs[1..]);
      DecodeEncode(rs[1..], t);
      assert EncodeRuns(rs) + t == EncodeRun(r) + (rest + t);
      if r.len < 4 {
        DecodeShort(r, rest, t, rs);
      } else {
        DecodeLong(r, rest, t);
      }
    }
  }

  lemma DecodeLong(r: RunOf, rest: seq<byte>, t: seq<byte>)
    requires 4 <= r.len <= 255 && t != []
    ensures |EncodeRun(r)| == 5
    ensures Expand(EncodeRun(r) + (rest + t), 5 + |rest|) == Prepend(Rep(r.ch, r.len), Expand(rest + t, |rest|))
  {
    hide Expand;
    var y := EncodeRun(r) + (rest + t);
    assert y[..4] == Rep(r.ch, 4) && y[4] == r.len - 4 && y[5..] == rest + t;
    ExpandLong(y, 5 + |rest|, r.ch, r.len - 4);
  }

  lemma DecodeShort(r: RunOf, rest: seq<byte>, t: seq<byte>, rs: seq<RunOf>)
    requires rs != [] && rs[0] == r && r.len < 4 && Separated(rs) && rest == EncodeRuns(rs[1..]) && t != []
    ensures |EncodeRun(r)| == r.len
    ensures Expand(EncodeRun(r) + (rest + t), r.len + |rest|)
            == Prepend(Rep(r.ch, r.len), Expand(rest + t, |rest|))
  {
    hide Expand;
    var y := EncodeRun(r) + (rest + t);
    assert y[..r.len] == Rep(r.ch, r.len) && y[r.len..] == rest + t;
    if |rs| > 1 {
      assert rest == EncodeRun(rs[1]) + EncodeRuns(rs[1..][1..]);
      assert y[r.len] == rs[1].ch != r.ch;
    }
    ExpandShort(y, r.len + |rest|, r.ch, r.len);
  }

  // ---------------------------------------------------------------------
  // The compressor state
  // ---------------------------------------------------------------------
  datatype Mode = Running | Flushing | Finishing

  datatype State = Input | Output

  // What BZ2_compressBlock is given.
  datatype Block = Block(bytes: seq<byte>, crc: bv32)

  class EState {
    var mode: Mode
    var state: State
    var availInExpect: nat
    var stateInCh: nat            // 256: no run
    var stateInLen: nat
    const block: array<byte>
    const inUse: array<bool>
    const nblockMAX: nat          // 100000 * blockSize100k - 19
    var nblock: nat
    var blockCRC: bv32
    var numZ: nat
    var stateOutPos: nat
    var nextIn: seq<byte>         // input not yet consumed; avail_in is its length
    var availOut: nat

    ghost var consumed: seq<byte> // input consumed so far
    ghost var blocks: seq<Block>  // blocks handed to BZ2_compressBlock
    ghost var earlier: seq<byte>  // input covered by those blocks
    ghost var runs: seq<RunOf>    // the runs of the current block

    constructor (blockSize100k: nat, input: seq<byte>)
      requires 1 <= blockSize100k <= 9
      ensures Valid() && fresh(block) && fresh(inUse)
      ensures consumed == [] && blocks == [] && nextIn == input && mode == Running
      ensures nblockMAX == 100000 * blockSize100k - 19
    {
      block := new byte[100000 * blockSize100k](_ => 0);
      inUse := new bool[256](_ => false);
      nblockMAX := 100000 * blockSize100k - 19;
      mode, state, availInExpect := Running, Input, 0;
      stateInCh, stateInLen := 256, 0;
      nblock, numZ, stateOutPos := 0, 0, 0;
      blockCRC := 0xffff_ffff;
      nextIn, availOut := input, 0;
      consumed, blocks, earlier, runs := [], [], [], [];
      new;
      CrcNothing(0xffff_ffff);
    }

    ghost function PendingRun(): seq<byte>
      reads this`stateInCh, this`stateInLen
    {
      if stateInCh < 256 then Rep(stateInCh, stateInLen) else []
    }

    // The block holds exactly the code of its runs.
    ghost predicate BlockIs(rs: seq<RunOf>)
      reads this`nblock, this`blockCRC, block, inUse
    {
      && inUse.Length == 256 && nblock <= block.Length && Separated(rs)
      && block[..nblock] == EncodeRuns(rs)
      && blockCRC == Crc(0xffff_ffff, Flatten(rs))
      && forall c :: 0 <= c < 256 ==> (inUse[c] <==> c in block[..nblock])
    }

    // The pending run may follow the block's last one.
    ghost predicate RunFits()
      reads this`stateInCh, this`stateInLen, this`runs
    {
      if stateInCh < 256 then
        && 1 <= stateInLen <= 255
        && (runs != [] ==> runs[|runs| - 1].ch != stateInCh || runs[|runs| - 1].len == 255)
      else stateInCh == 256 && stateInLen == 0
    }

    // Conservation: finished blocks, current block and pending run decode to
    // exactly the input consumed.
    ghost predicate Conserves()
      reads this`consumed, this`earlier, this`runs, this`state, this`nblock, this`blockCRC, this`blocks, this`stateInCh,
            this`stateInLen, block, inUse
    {
      && block.Length == nblockMAX + 19 && nblockMAX > 0
      && BlockIs(runs) && RunFits()
      && consumed == earlier + (if state == Input then Flatten(runs) else []) + PendingRun()
      && earlier == DecodedAll(blocks) && forall b :: b in blocks ==> Good(b)
    }

    ghost predicate Valid()
      reads this`consumed, this`earlier, this`runs, this`state, this`nblock, this`blockCRC, this`blocks, this`stateInCh,
            this`stateInLen, block, inUse
    {
      nblockMAX > 0 && Conserves() && (state == Input ==> nblock <= nblockMAX + 4 && (stateInCh == 256 ==> runs == []))
    }

    // add_pair_to_block
    method AddPairToBlock()
      requires stateInCh < 256 && RunFits() && BlockIs(runs) && nblock + 5 <= block.Length && block.Length > 0
      modifies this`nblock, this`blockCRC, this`runs, block, inUse
      ensures BlockIs(runs) && runs == old(runs) + [RunOf(stateInCh, stateInLen)]
      ensures nblock <= old(nblock) + 5
    {
      hide EncodeRuns, EncodeRun, Flatten, Crc, UpdateCrc, Separated;
      ghost var r := RunOf(stateInCh, stateInLen);
      UpdateBlockCRC();
      CrcConcat(0xffff_ffff, Flatten(runs), Rep(stateInCh, stateInLen));
      AppendRun(runs, r);
      PutRun();
      runs := runs + [r];
    }

    method UpdateBlockCRC()
      requires stateInCh < 256
      modifies this`blockCRC
      ensures blockCRC == Crc(old(blockCRC), Rep(stateInCh, stateInLen))
    {
      hide UpdateCrc, Crc;
      var ch: byte := stateInCh;
      var i := 0;
      CrcNothing(blockCRC);
      assert Rep(ch, 0) == [];
      while i < stateInLen
        invariant 0 <= i <= stateInLen && blockCRC == Crc(old(blockCRC), Rep(ch, i))
      {
        CrcAppend(old(blockCRC), Rep(ch, i), ch);
        assert Rep(ch, i) + [ch] == Rep(ch, i + 1);
        blockCRC := UpdateCrc(blockCRC, ch);
        i := i + 1;
      }
    }

    method PutTimes(ch: byte, n: nat)
      requires 1 <= n <= 4 && nblock + n <= block.Length
      modifies this`nblock, block
      ensures nblock == old(nblock) + n && block[..nblock] == old(block[..nblock]) + Rep(ch, n)
    {
      Put(ch);
      if n > 1 { Put(ch); }
      if n > 2 { Put(ch); }
      if n > 3 { Put(ch); }
      SmallRuns(ch);
    }

    // The switch on the run length.
    method PutRun()
      requires stateInCh < 256 && 1 <= stateInLen <= 255 && nblock + 5 <= block.Length && inUse.Length == 256
      requires forall c :: 0 <= c < 256 ==> (inUse[c] <==> c in block[..nblock])
      modifies this`nblock, block, inUse
      ensures nblock <= block.Length && nblock <= old(nblock) + 5
      ensures block[..nblock] == old(block[..nblock]) + EncodeRun(RunOf(stateInCh, stateInLen))
      ensures forall c :: 0 <= c < 256 ==> (inUse[c] <==> c in block[..nblock])
    {
      hide EncodeRun;
      var ch: byte := stateInCh;
      ghost var code := EncodeRun(RunOf(ch, stateInLen));
      inUse[stateInCh] := true;
      if stateInLen < 4 {
        PutTimes(ch, stateInLen);
      } else {
        inUse[stateInLen - 4] := true;
        PutTimes(ch, 4);
        Put(stateInLen - 4);
      }
      RunCode(RunOf(ch, stateInLen));
      assert block[..nblock] == old(block[..nblock]) + code;
      RunBytes(RunOf(ch, stateInLen));
      forall c | 0 <= c < 256 ensures inUse[c] <==> c in block[..nblock] {
        assert c in block[..nblock] <==> c in old(block[..nblock]) || c in code;
      }
    }

    // block[nblock] = b; nblock++
    method Put(b: byte)
      requires nblock < block.Length
      modifies this`nblock, block
      ensures nblock == old(nblock) + 1 && block[..nblock] == old(block[..nblock]) + [b]
    {
      block[nblock] := b;
      nblock := nblock + 1;
    }

    // The common case of ADD_CHAR_TO_BLOCK: a run of one is added directly.
    method AddSingle()
      requires stateInCh < 256 && stateInLen == 1 && RunFits() && BlockIs(runs) && nblock < block.Length
      modifies this`nblock, this`blockCRC, this`runs, block, inUse
      ensures BlockIs(runs) && runs == old(runs) + [RunOf(stateInCh, 1)] && nblock == old(nblock) + 1
    {
      hide EncodeRuns, Flatten, Crc, UpdateCrc, Separated;
      var ch: byte := stateInCh;
      ghost var r := RunOf(ch, 1);
      AppendRun(runs, r);
      RunBytes(r);
      CrcAppend(0xffff_ffff, Flatten(runs), ch);
      assert Rep(ch, 1) == [ch];
      blockCRC := UpdateCrc(blockCRC, ch);
      inUse[stateInCh] := true;
      Put(ch);
      runs := runs + [r];
    }

    // ADD_CHAR_TO_BLOCK, consuming the byte.
    method AddChar(zchh: byte)
      requires Valid() && state == Input && nblock < nblockMAX
      modifies this`nblock, this`blockCRC, this`runs, this`stateInCh, this`stateInLen, this`consumed, block, inUse
      ensures Valid() && consumed == old(consumed) + [zchh]
      ensures stateInCh < 256
    {
      hide EncodeRuns, Flatten, Separated, Good, BlockIs, DecodedAll;
      if zchh != stateInCh && stateInLen == 1 {
        FlattenAppend(runs, RunOf(stateInCh, 1));
        AddSingle();
        NewRun(zchh);
      } else if zchh != stateInCh || stateInLen == 255 {
        if stateInCh < 256 {
          FlattenAppend(runs, RunOf(stateInCh, stateInLen));
          AddPairToBlock();
        }
        NewRun(zchh);
      } else {
        LongerRun(zchh);
      }
    }

    // The byte begins a run of its own.
    method NewRun(zchh: byte)
      requires block.Length == nblockMAX + 19 && nblockMAX > 0 && BlockIs(runs) && state == Input
        && nblock <= nblockMAX + 4
      requires runs != [] ==> runs[|runs| - 1].ch != zchh || runs[|runs| - 1].len == 255
      requires consumed == earlier + Flatten(runs) && earlier == DecodedAll(blocks)
      requires forall b :: b in blocks ==> Good(b)
      modifies this`stateInCh, this`stateInLen, this`consumed
      ensures Valid() && consumed == old(consumed) + [zchh] && stateInCh < 256
    {
      hide Flatten, Good, BlockIs, DecodedAll;
      stateInCh := zchh;
      stateInLen := 1;
      consumed := consumed + [zchh];
      assert PendingRun() == [zchh];
    }

    // The byte continues the pending run.
    method LongerRun(zchh: byte)
      requires Valid() && state == Input && stateInCh == zchh && stateInLen < 255
      modifies this`stateInLen, this`consumed
      ensures Valid() && consumed == old(consumed) + [zchh]
    {
      hide Flatten, Good, BlockIs, DecodedAll;
      assert Rep(zchh, stateInLen) + [zchh] == Rep(zchh, stateInLen + 1);
      stateInLen := stateInLen + 1;
      consumed := consumed + [zchh];
    }

    // copy_input_until_stop
    method CopyInputUntilStop()
      requires Valid() && state == Input
      modifies this`nblock, this`blockCRC, this`runs, this`stateInCh, this`stateInLen, this`consumed, this`nextIn,
               this`availInExpect, block, inUse
      ensures Valid() && consumed + nextIn == old(consumed) + old(nextIn)
      ensures nblock >= nblockMAX || nextIn == [] || (mode != Running && availInExpect == 0)
      ensures |nextIn| <= |old(nextIn)| && availInExpect <= old(availInExpect)
      ensures |nextIn| == |old(nextIn)| ==>
        nblock == old(nblock) && stateInCh == old(stateInCh) && stateInLen == old(stateInLen)
        && availInExpect == old(availInExpect)
    {
      hide Conserves;
      while true
        invariant Valid() && consumed + nextIn == old(consumed) + old(nextIn)
        invariant |nextIn| <= |old(nextIn)| && availInExpect <= old(availInExpect)
        invariant |nextIn| == |old(nextIn)| ==>
          nblock == old(nblock) && stateInCh == old(stateInCh) && stateInLen == old(stateInLen)
          && availInExpect == old(availInExpect)
        decreases |nextIn|
      {
        if nblock >= nblockMAX { break; }
        if nextIn == [] { break; }
        if mode != Running && availInExpect == 0 { break; }
        AddChar(nextIn[0]);
        nextIn := nextIn[1..];
        if mode != Running { availInExpect := availInExpect - 1; }
      }
    }

    // flush_RL
    method FlushRL()
      requires Valid() && state == Input
      modifies this`nblock, this`blockCRC, this`runs, this`stateInCh, this`stateInLen, block, inUse
      ensures Conserves() && stateInCh == 256
    {
      hide EncodeRuns, Flatten, Separated, Good, BlockIs, DecodedAll;
      if stateInCh < 256 {
        FlattenAppend(runs, RunOf(stateInCh, stateInLen));
        AddPairToBlock();
      }
      stateInCh := 256;
      stateInLen := 0;
      assert PendingRun() == [];
    }

    // BZ2_compressBlock seen from here: the block is recorded, and some number
    // of output bytes becomes available.
    method CompressBlock()
      requires Conserves() && state == Input
      modifies this`blocks, this`earlier, this`numZ, this`state
      ensures Valid() && state == Output
      ensures |blocks| == |old(blocks)| + 1 && blocks == old(blocks) + [Block(block[..nblock], blockCRC)]
    {
      hide EncodeRuns, Flatten, Crc, Good, Decoded, DecodedAll, Separated;
      ghost var b := Block(block[..nblock], blockCRC);
      BlockIsGood(b, runs);
      DecodedAppend(blocks, b);
      blocks := blocks + [b];
      earlier := earlier + Flatten(runs);
      numZ := *;
      state := Output;
    }

    // prepare_new_block
    method PrepareNewBlock()
      requires Valid() && state == Output
      modifies this`nblock, this`numZ, this`stateOutPos, this`blockCRC, this`runs, this`state, inUse
      ensures Valid() && state == Input && nblock == 0
    {
      hide Good, DecodedAll, Rep, BlockIs;
      BlockOfNothing();
      BlockSizes(runs);
      ResetBlock();
      runs := [];
      state := Input;
    }

    lemma BlockSizes(rs: seq<RunOf>)
      requires BlockIs(rs)
      ensures inUse.Length == 256 && nblock <= block.Length
    {
    }

    method ResetBlock()
      requires inUse.Length == 256
      modifies this`nblock, this`numZ, this`stateOutPos, this`blockCRC, inUse
      ensures nblock == 0 && BlockIs([])
    {
      hide Crc, EncodeRuns;
      BlockOfNothing();
      nblock := 0;
      numZ := 0;
      stateOutPos := 0;
      blockCRC := 0xffff_ffff;
      CrcNothing(0xffff_ffff);
      ClearInUse();
    }

    lemma BlockOfNothing()
      ensures EncodeRuns([]) == [] && Flatten([]) == [] && Separated([])
    {
    }

    method ClearInUse()
      requires inUse.Length == 256
      modifies inUse
      ensures forall c :: 0 <= c < 256 ==> !inUse[c]
    {
      var i := 0;
      while i < 256
        invariant 0 <= i <= 256 && forall c :: 0 <= c < i ==> !inUse[c]
      {
        inUse[i] := false;
        i := i + 1;
      }
    }

    predicate IsEmptyRL()
      reads this`stateInCh, this`stateInLen
    {
      !(stateInCh < 256 && stateInLen > 0)
    }

    // copy_output_until_stop
    method CopyOutputUntilStop()
      modifies this`stateOutPos, this`availOut
      ensures availOut == 0 || stateOutPos >= numZ
      ensures availOut <= old(availOut) && stateOutPos + availOut == old(stateOutPos) + old(availOut)
      ensures stateOutPos <= numZ || stateOutPos == old(stateOutPos)
    {
      while true
        invariant availOut <= old(availOut) && stateOutPos + availOut == old(stateOutPos) + old(availOut)
        invariant stateOutPos <= numZ || stateOutPos == old(stateOutPos)
        decreases availOut
      {
        if availOut == 0 { break; }
        if stateOutPos >= numZ { break; }
        stateOutPos := stateOutPos + 1;
        availOut := availOut - 1;
      }
    }

    // Where a call of handle_compress can stop: the output is full, the flush
    // or the end asked for is complete, or the input is used up.
    predicate AtRest()
      reads this
    {
      || (state == Output && stateOutPos < numZ && availOut == 0)
      || (state == Output && stateOutPos >= numZ && mode == Finishing && availInExpect == 0 && IsEmptyRL())
      || (state == Input && nblock == 0 && mode == Flushing && availInExpect == 0 && IsEmptyRL())
      || (state == Input && nextIn == [] && nblock < nblockMAX && (mode == Running || availInExpect > 0))
    }

    // With a block just handed over and no run pending, the blocks decode to all the input consumed.
    lemma AllHandedOver()
      requires Valid() && state == Output && IsEmptyRL()
      ensures DecodedAll(blocks) == consumed && forall b :: b in blocks ==> Good(b)
    {
      hide DecodedAll, Good, BlockIs;
      assert PendingRun() == [];
      assert earlier + [] + [] == earlier;
    }

    // What handle_compress does in the output state; stop is that it ends there.
    method OutputHalf() returns (stop: bool)
      requires Valid() && state == Output
      modifies this`stateOutPos, this`availOut, this`nblock, this`numZ, this`blockCRC, this`runs, this`state, inUse
      ensures Valid() && (stop ==> AtRest())
      ensures !stop ==> state == Input && nblock == 0 && !(mode != Running && availInExpect == 0 && IsEmptyRL())
    {
      hide Conserves;
      stop := true;
      CopyOutputUntilStop();
      if stateOutPos < numZ { return; }
      if mode == Finishing && availInExpect == 0 && IsEmptyRL() { return; }
      PrepareNewBlock();
      if mode == Flushing && availInExpect == 0 && IsEmptyRL() { return; }
      stop := false;
    }

    // What it does in the input state. If it goes on, a block has been handed over:
    // some input has been used, or the block was full, or the input in hand is done.
    method InputHalf() returns (stop: bool)
      requires Valid() && state == Input
      modifies this`nblock, this`blockCRC, this`runs, this`stateInCh, this`stateInLen, this`consumed, this`nextIn,
        this`availInExpect, this`blocks, this`earlier, this`numZ, this`state, block, inUse
      ensures Valid() && (stop ==> AtRest()) && old(blocks) <= blocks
      ensures consumed + nextIn == old(consumed) + old(nextIn) && |nextIn| <= |old(nextIn)|
      ensures !stop ==> state == Output
      ensures !stop && |nextIn| == |old(nextIn)|
        ==> old(nblock) >= nblockMAX || (mode != Running && old(availInExpect) == 0 && IsEmptyRL())
      ensures |nextIn| == |old(nextIn)| && old(IsEmptyRL()) ==> IsEmptyRL()
    {
      hide Conserves;
      stop := false;
      CopyInputUntilStop();
      if mode != Running && availInExpect == 0 {
        FlushRL();
        CompressBlock();
      } else if nblock >= nblockMAX {
        CompressBlock();
      } else if nextIn == [] {
        stop := true;
      }
    }


    // handle_compress
    method HandleCompress()
      requires Valid()
      modifies this, block, inUse
      ensures Valid() && mode == old(mode) && AtRest()
      ensures consumed + nextIn == old(consumed) + old(nextIn)
      ensures old(blocks) <= blocks
    {
      hide Conserves;
      while true
        invariant Valid() && mode == old(mode)
        invariant consumed + nextIn == old(consumed) + old(nextIn) && old(blocks) <= blocks
        decreases |nextIn|, !IsEmptyRL(), state == Input
      {
        var stop := false;
        if state == Output {
          stop := OutputHalf();
          if stop { break; }
        }
        stop := InputHalf();
        if stop { break; }
      }
    }
  }

  lemma DecodedAppend(bs: seq<Block>, b: Block)
    ensures DecodedAll(bs + [b]) == DecodedAll(bs) + Decoded(b)
  {
    assert (bs + [b])[..|bs|] == bs;
  }

  lemma BlockIsGood(b: Block, rs: seq<RunOf>)
    requires Separated(rs) && b.bytes == EncodeRuns(rs) && b.crc == Crc(0xffff_ffff, Flatten(rs))
    ensures Good(b) && Decoded(b) == Flatten(rs)
  {
    hide EncodeRuns, Flatten, Expand, Crc;
    DecodeEncode(rs, [0]);
    forall t: seq<byte> | t != [] ensures Expand(b.bytes + t, |b.bytes|) == Expansion(Decoded(b), false) {
      DecodeEncode(rs, t);
    }
  }

  lemma SmallRuns(c: byte)
    ensures Rep(c, 1) == [c] && Rep(c, 2) == [c] + [c] && Rep(c, 3) == [c] + [c] + [c]
    ensures Rep(c, 4) == [c] + [c] + [c] + [c]
  {
  }

  lemma RunCode(r: RunOf)
    requires 1 <= r.len <= 255
    ensures EncodeRun(r) == if r.len < 4 then Rep(r.ch, r.len) else Rep(r.ch, 4) + [r.len - 4]
  {
  }

  // The distinct bytes of a run's code.
  lemma RunBytes(r: RunOf)
    requires 1 <= r.len <= 255
    ensures forall c :: c in EncodeRun(r) <==> c == r.ch || (r.len >= 4 && c == r.len - 4)
  {
    assert EncodeRun(r)[0] == r.ch;
    if r.len >= 4 { assert EncodeRun(r)[4] == r.len - 4; }
  }

  // The input a block stands for, and that it decodes to it with the CRC given.
  ghost function Decoded(b: Block): seq<byte>
  {
    Expand(b.bytes + [0], |b.bytes|).bytes
  }

  ghost predicate Good(b: Block)
  {
    && b.crc == Crc(0xffff_ffff, Decoded(b))
    && forall t :: t != [] ==> Expand(b.bytes + t, |b.bytes|) == Expansion(Decoded(b), false)
  }

  ghost function DecodedAll(bs: seq<Block>): seq<byte>
  {
    if bs == [] then [] else DecodedAll(bs[..|bs| - 1]) + Decoded(bs[|bs| - 1])
  }

  lemma AppendRun(rs: seq<RunOf>, r: RunOf)
    requires Separated(rs) && 1 <= r.len <= 255
    requires rs != [] ==> rs[|rs| - 1].ch != r.ch || rs[|rs| - 1].len == 255
    ensures Separated(rs + [r])
    ensures EncodeRuns(rs + [r]) == EncodeRuns(rs) + EncodeRun(r)
    ensures Flatten(rs + [r]) == Flatten(rs) + Rep(r.ch, r.len)
  {
    hide EncodeRuns, EncodeRun, Flatten, Rep;
    EncodeAppend(rs, r);
    FlattenAppend(rs, r);
  }
}
