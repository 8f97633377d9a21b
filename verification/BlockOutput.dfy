// bzip2's resumable output stage (bzlib.c): the inverse-transform chain is read
// one symbol ahead, runs are expanded, and every call writes as much as the
// output space allows.  FAST and SMALL are the source's two copies of it.
module BlockOutput {
  import opened Bits
  import opened CountingRank
  import opened BurrowsWheeler
  import opened InverseTransform
  import opened RunLength

  // Output still owed: the rest of the current run, then the expansion of the
  // symbols from k0 on.  n symbols make the block, `used` have been read, and
  // the next one read is at row `here`.
  ghost function Owed(l: seq<byte>, here: nat, k0: byte, used: nat, ch: byte, len: nat): Expansion
    requires here < |l| && 1 <= used <= |l| + 2
  {
    if used <= |l| + 1 then
      Prepend(Rep(ch, len), Expand([k0] + Chain(l, Back(l), here, |l| + 2 - used), |l| + 1 - used))
    else Expansion(Rep(ch, len), true)
  }

  // Reading the chain from row here gives the symbols s and leads to row here'.
  ghost predicate Reads(l: seq<byte>, here: nat, s: seq<byte>, here': nat)
    requires here < |l| && here' < |l|
  {
    forall k :: |s| <= k ==> Chain(l, Back(l), here, k) == s + Chain(l, Back(l), here', k - |s|)
  }

  lemma ReadsNothing(l: seq<byte>, here: nat)
    requires here < |l|
    ensures Reads(l, here, [], here)
  {
  }

  lemma ReadsOneMore(l: seq<byte>, here: nat, s: seq<byte>, row: nat)
    requires here < |l| && row < |l| && Reads(l, here, s, row)
    ensures Back(l)[row] < |l| && Reads(l, here, s + [l[row]], Back(l)[row])
  {
    hide Back;
    forall k | |s| + 1 <= k
      ensures Chain(l, Back(l), here, k) == s + [l[row]] + Chain(l, Back(l), Back(l)[row], k - |s| - 1)
    {
      ChainUnfold(l, Back(l), row, k - |s|);
    }
  }

  // At the start of a run the previous run's character no longer matters.
  lemma RunStart(l: seq<byte>, here: nat, k0: byte, used: nat, ch: byte, c: byte)
    requires here < |l| && 1 <= used <= |l| + 2
    ensures Owed(l, here, k0, used, ch, 0) == Owed(l, here, k0, used, c, 0)
  {
    assert Rep(ch, 0) == Rep(c, 0);
  }

  // Writing one byte of the current run.
  lemma EmitOne(l: seq<byte>, here: nat, k0: byte, used: nat, ch: byte, len: nat)
    requires here < |l| && 1 <= used <= |l| + 2 && len > 0
    ensures var e, e' := Owed(l, here, k0, used, ch, len), Owed(l, here, k0, used, ch, len - 1);
            e.bad == e'.bad && e.bytes == [ch] + e'.bytes
  {
    assert Rep(ch, len) == [ch] + Rep(ch, len - 1);
    PrependPrepend([ch], Rep(ch, len - 1), Expand([k0] + Chain(l, Back(l), here, |l| + 2), 0));
  }

  // Reading r symbols that end a run of r < 4, the last of them s.
  lemma ShortRun(l: seq<byte>, here: nat, k0: byte, used: nat, r: nat, here': nat, s: byte, k0': byte)
    requires here < |l| && here' < |l| && 1 <= used && 1 <= r <= 3 && used + r <= |l| + 1
    requires Reads(l, here, Rep(k0, r - 1) + [s], here')
    requires used + r == |l| + 1 || (s != k0 && k0' == s)
    ensures Owed(l, here', k0', used + r, k0, r) == Owed(l, here, k0, used, k0, 0)
  {
    hide Back, Chain, Expand;
    var m := |l| + 1 - used;
    var c, c' := Chain(l, Back(l), here, m + 1), Chain(l, Back(l), here', m + 1 - r);
    var y := [k0] + c;
    assert c == Rep(k0, r - 1) + [s] + c' by {
      assert |Rep(k0, r - 1) + [s]| == r <= m + 1;
    }
    assert y[..r] == Rep(k0, r) && y[r] == s;
    ExpandShort(y, m, k0, r);
    PrependNothing(Expand(y, m));
    if used + r < |l| + 1 {
      assert y[r..] == [k0'] + c';
    } else {
      ExpandNothing(y[r..]);
      ExpandNothing([k0'] + c');
    }
  }

  // Reading a full run: three repetitions, the count s and the next symbol.
  lemma RepMore(c: byte, r: nat)
    requires r > 0
    ensures Rep(c, r - 1) + [c] == Rep(c, r)
  {
  }

  lemma LongRun(l: seq<byte>, here: nat, k0: byte, used: nat, here': nat, s: byte, k0': byte)
    requires here < |l| && here' < |l| && 1 <= used && used + 3 <= |l|
    requires Reads(l, here, Rep(k0, 3) + [s] + [k0'], here')
    ensures Owed(l, here', k0', used + 5, k0, s as int + 4) == Owed(l, here, k0, used, k0, 0)
  {
    hide Back, Chain, Expand;
    var m := |l| + 1 - used;
    var c, c' := Chain(l, Back(l), here, m + 1), Chain(l, Back(l), here', m - 4);
    var y := [k0] + c;
    assert c == Rep(k0, 3) + [s] + [k0'] + c' by {
      assert |Rep(k0, 3) + [s] + [k0']| == 5 <= m + 1;
    }
    assert y[..4] == Rep(k0, 4) && y[4] == s;
    ExpandLong(y, m, k0, s);
    PrependNothing(Expand(y, m));
    assert y[5..] == [k0'] + c';
  }

  // The stream and block state of one decompressor (DState and bz_stream).
  class DState {
    const small: bool
    const limit: nat              // 100000 * blockSize100k
    const tt: array<nat>
    const ll16: array<nat>
    const ll4: array<byte>
    const cftab: array<int>
    const cftabCopy: array<int>

    var tPos: nat
    var k0: byte
    var nblockUsed: nat
    var saveNblock: nat
    var stateOutCh: byte
    var stateOutLen: nat
    var calculatedBlockCRC: bv32
    var nextOut: seq<byte>        // everything written to the output so far
    var availOut: nat

    ghost var column: seq<byte>   // the block's last column
    ghost var cycle: set<nat>     // the rows reversed in small mode
    ghost var here: nat           // the row of the next symbol

    ghost predicate Tables()
      reads this`column, this`cycle, this`saveNblock, tt, ll16, ll4, cftab
    {
      && |column| == saveNblock <= limit
      && if small then
           && Room(ll16, ll4, saveNblock) && cftab.Length == 257
           && (forall c :: 0 <= c <= 256 ==> cftab[c] == Less(column, c, saveNblock))
           && AgreesOn(Packed(ll16, ll4, saveNblock), Back(column), cycle)
         else
           IsPackedChain(tt[..], column)
    }

    // In fast mode tPos is the row of the next symbol, in small mode its sorted position.
    ghost predicate At(tPos: nat, here: nat)
      requires Tables()
      reads this`column, this`cycle, this`saveNblock, tt, ll16, ll4, cftab
    {
      here < |column| && tPos < |column| && if small then tPos in cycle && here == Back(column)[tPos] else tPos == here
    }

    ghost predicate Valid()
      reads this`column, this`cycle, this`saveNblock, this`tPos, this`here, this`nblockUsed, tt, ll16, ll4, cftab
    {
      && Tables() && At(tPos, here) && 1 <= nblockUsed <= saveNblock + 2
      && here < |column| == saveNblock <= limit && tPos < saveNblock
    }

    ghost function Pending(): Expansion
      requires Valid()
      reads this`column, this`cycle, this`saveNblock, this`tPos, this`here, this`nblockUsed, tt, ll16, ll4, cftab
      reads this`k0, this`stateOutCh, this`stateOutLen
    {
      Owed(column, here, k0, nblockUsed, stateOutCh, stateOutLen)
    }

    // BZ_GET_FAST_C; bad is the early return of True.
    method GetFast(tPos: nat, ghost here: nat) returns (bad: bool, c: byte, tPos': nat)
      requires !small && Tables() && (tPos < limit ==> At(tPos, here))
      ensures bad <==> tPos >= limit
      ensures !bad ==> c == column[here] && At(tPos', Back(column)[here])
    {
      hide IsPackedChain, Back;
      if tPos >= limit { return true, 0, tPos; }
      ChainWord(tt[..], column, here);
      tPos' := tt[tPos];
      c := tPos' % 256;
      tPos' := tPos' / 256;
      bad := false;
    }

    // BZ_GET_SMALL
    method GetSmall(tPos: nat, ghost here: nat) returns (bad: bool, c: byte, tPos': nat)
      requires small && Tables() && (tPos < limit ==> At(tPos, here))
      ensures bad <==> tPos >= limit
      ensures !bad ==> c == column[here] && At(tPos', Back(column)[here])
    {
      hide Back, Less, Packed, GetLL;
      if tPos >= limit { return true, 0, tPos; }
      LessAll(column, saveNblock);
      assert cftab[0] == Less(column, 0, saveNblock) && cftab[256] == Less(column, 256, saveNblock);
      LessZero(column, saveNblock);
      c := IndexIntoF(tPos, cftab);
      FirstColumn(column, tPos, c);
      assert AgreesAt(Packed(ll16, ll4, saveNblock), Back(column), cycle, tPos);
      PackedAt(ll16, ll4, saveNblock, tPos);
      tPos' := GetLL(ll16, ll4, tPos);
      bad := false;
    }

    // One SMALL get: BZ_GET_SMALL(k1); s->nblock_used++
    method NextSmall(ghost from: nat, ghost read: seq<byte>) returns (bad: bool, k1: byte)
      requires small && Valid() && nblockUsed <= saveNblock + 1
      requires from < |column| && Reads(column, from, read, here)
      modifies this`tPos, this`here, this`nblockUsed
      ensures !bad && Valid() && nblockUsed == old(nblockUsed) + 1
      ensures Reads(column, from, read + [k1], here)
    {
      hide Reads, Back, Tables;
      bad, k1, tPos := GetSmall(tPos, here);
      if bad { return; }
      ReadsOneMore(column, from, read, here);
      here := Back(column)[here];
      nblockUsed := nblockUsed + 1;
    }

    // One more symbol, which may end the run of r symbols c at hand.
    method RunGoesOn(ghost from: nat, ghost c: byte, ghost used0: nat, ghost r: nat) returns (bad: bool, ends: bool)
      requires small && Valid() && 1 <= used0 && 1 <= r <= 3 && nblockUsed == used0 + r - 1 <= saveNblock && k0 == c
      requires from < |column| && Reads(column, from, Rep(c, r - 1), here)
      modifies this`tPos, this`here, this`nblockUsed, this`k0
      ensures !bad && Valid() && nblockUsed == used0 + r
      ensures ends ==> Owed(column, here, k0, nblockUsed, c, r) == Owed(column, from, c, used0, c, 0)
      ensures !ends ==> nblockUsed <= saveNblock && k0 == c && Reads(column, from, Rep(c, r), here)
    {
      hide Reads, Owed, Tables, Back, At, Rep;
      var k1;
      bad, k1 := NextSmall(from, Rep(c, r - 1));
      ends := true;
      if bad { return; }
      if nblockUsed == saveNblock + 1 {
        ShortRun(column, from, c, used0, r, here, k1, k0);
        return;
      }
      if k1 != k0 {
        k0 := k1;
        ShortRun(column, from, c, used0, r, here, k1, k0);
        return;
      }
      RepMore(c, r);
      ends := false;
    }

    // The part of unRLE_obuf_to_output_SMALL that starts a new run.
    method StartRunSmall() returns (bad: bool)
      requires small && Valid() && stateOutLen == 0 && nblockUsed <= saveNblock
      modifies this`stateOutLen, this`stateOutCh, this`tPos, this`here, this`nblockUsed, this`k0
      ensures !bad && Valid() && Pending() == old(Pending()) && stateOutLen > 0
      ensures nblockUsed > old(nblockUsed)
    {
      hide Reads, Owed, Tables, Back, At, Rep;
      ghost var from, used0, c := here, nblockUsed, k0;
      RunStart(column, here, k0, nblockUsed, stateOutCh, c);
      ReadsNothing(column, here);
      assert [] == Rep(c, 0);
      stateOutLen := 1;
      stateOutCh := k0;
      var ends;
      bad, ends := RunGoesOn(from, c, used0, 1);
      if bad || ends { return; }
      stateOutLen := 2;
      bad, ends := RunGoesOn(from, c, used0, 2);
      if bad || ends { return; }
      stateOutLen := 3;
      bad, ends := RunGoesOn(from, c, used0, 3);
      if bad || ends { return; }
      bad := LongRunSmall(from, c, used0);
    }

    // Four equal symbols have been read: the count and the symbol after it.
    method LongRunSmall(ghost from: nat, ghost c: byte, ghost used0: nat) returns (bad: bool)
      requires small && Valid() && 1 <= used0 && nblockUsed == used0 + 3 <= saveNblock
      requires from < |column| && Reads(column, from, Rep(c, 3), here)
      modifies this`stateOutLen, this`tPos, this`here, this`nblockUsed, this`k0
      ensures !bad && Valid() && stateOutLen > 0 && nblockUsed > old(nblockUsed)
      ensures Owed(column, here, k0, nblockUsed, c, stateOutLen) == Owed(column, from, c, used0, c, 0)
    {
      hide Reads, Owed, Tables, Back, At, Chain, Expand, Rep;
      var k1;
      bad, k1 := NextSmall(from, Rep(c, 3));
      if bad { return; }
      stateOutLen := k1 as int + 4;
      ghost var count := k1;
      bad, k1 := NextSmall(from, Rep(c, 3) + [count]);
      if bad { return; }
      k0 := k1;
      LongRun(column, from, c, used0, here, count, k0);
    }

    ghost predicate Emitted(out0: seq<byte>, room0: nat, crc0: bv32, e: Expansion, w: nat)
      requires Valid() && w <= |e.bytes|
      reads this, tt, ll16, ll4, cftab
    {
      && nextOut == out0 + e.bytes[..w] && availOut + w == room0
      && calculatedBlockCRC == Crc(crc0, e.bytes[..w])
      && Pending() == Expansion(e.bytes[w..], e.bad)
    }

    // The byte about to be written is the next one owed.
    lemma EmitStep(e: Expansion, w: nat, crc0: bv32)
      requires Valid() && stateOutLen > 0 && w <= |e.bytes| && Pending() == Expansion(e.bytes[w..], e.bad)
      ensures w < |e.bytes| && e.bytes[..w + 1] == e.bytes[..w] + [stateOutCh]
      ensures Owed(column, here, k0, nblockUsed, stateOutCh, stateOutLen - 1) == Expansion(e.bytes[w + 1..], e.bad)
      ensures Crc(crc0, e.bytes[..w + 1]) == UpdateCrc(Crc(crc0, e.bytes[..w]), stateOutCh)
    {
      hide Owed, Tables, Back, Crc, UpdateCrc;
      EmitOne(column, here, k0, nblockUsed, stateOutCh, stateOutLen);
      assert e.bytes[w] == e.bytes[w..][0];
      assert e.bytes[w + 1..] == e.bytes[w..][1..];
      CrcAppend(crc0, e.bytes[..w], stateOutCh);
    }

    method PutByte(ghost out0: seq<byte>, ghost room0: nat, ghost crc0: bv32, ghost e: Expansion, ghost w: nat)
      requires Valid() && w <= |e.bytes| && Emitted(out0, room0, crc0, e, w) && stateOutLen > 0 && availOut > 0
      modifies this`stateOutLen, this`calculatedBlockCRC, this`nextOut, this`availOut
      ensures Valid() && w < |e.bytes| && Emitted(out0, room0, crc0, e, w + 1)
    {
      hide Owed, Tables, Back, Crc, UpdateCrc, At;
      EmitStep(e, w, crc0);
      nextOut := nextOut + [stateOutCh];
      calculatedBlockCRC := UpdateCrc(calculatedBlockCRC, stateOutCh);
      stateOutLen := stateOutLen - 1;
      availOut := availOut - 1;
    }

    // Between runs, nothing is owed once all symbols are read.
    lemma Finished()
      requires Valid() && stateOutLen == 0
      ensures nblockUsed == saveNblock + 1 ==> Pending() == Expansion([], false)
      ensures nblockUsed > saveNblock + 1 ==> Pending() == Expansion([], true)
    {
    }

    // Try to finish the existing run; leave is that the output is full.
    method WriteRun(ghost out0: seq<byte>, ghost room0: nat, ghost crc0: bv32, ghost e: Expansion, ghost w0: nat)
      returns (leave: bool, ghost w: nat)
      requires Valid() && w0 <= |e.bytes| && Emitted(out0, room0, crc0, e, w0)
      modifies this`stateOutLen, this`calculatedBlockCRC, this`nextOut, this`availOut
      ensures Valid() && w0 <= w <= |e.bytes| && Emitted(out0, room0, crc0, e, w)
      ensures if leave then availOut == 0 else availOut > 0 && stateOutLen == 0
    {
      hide Valid, Emitted, Pending;
      w := w0;
      while true
        invariant Valid() && w0 <= w <= |e.bytes| && Emitted(out0, room0, crc0, e, w)
        decreases |e.bytes| - w
      {
        if availOut == 0 { return true, w; }
        if stateOutLen == 0 { return false, w; }
        PutByte(out0, room0, crc0, e, w);
        w := w + 1;
      }
    }

    method UnRleSmall() returns (corrupt: bool)
      requires small && Valid()
      modifies this`tPos, this`here, this`nblockUsed, this`k0, this`stateOutCh, this`stateOutLen,
               this`calculatedBlockCRC, this`nextOut, this`availOut
      ensures Valid()
      ensures corrupt <==> old(Pending()).bad && |old(Pending()).bytes| < old(availOut)
      ensures var w := |Take(old(Pending()), old(availOut))|;
              Emitted(old(nextOut), old(availOut), old(calculatedBlockCRC), old(Pending()), w)
    {
      hide Owed, Tables, Back, Crc, UpdateCrc, At;
      ghost var e, out0, room0, crc0 := Pending(), nextOut, availOut, calculatedBlockCRC;
      ghost var w := 0;
      CrcNothing(crc0);
      assert e.bytes[..0] == [] && e.bytes[0..] == e.bytes;
      while true
        invariant Valid() && w <= |e.bytes| && Emitted(out0, room0, crc0, e, w)
        decreases |e.bytes| - w, saveNblock + 3 - nblockUsed
      {
        var leave;
        leave, w := WriteRun(out0, room0, crc0, e, w);
        if leave { return false; }
        Finished();
        if nblockUsed == saveNblock + 1 { return false; }
        if nblockUsed > saveNblock + 1 { return true; }
        corrupt := StartRunSmall();
        if corrupt { return; }
      }
    }

    // BZ_GET_FAST_C(k1); c_nblock_used++ on the local copies.
    method NextFast(tPos: nat, ghost here: nat, ghost from: nat, ghost read: seq<byte>)
      returns (bad: bool, k1: byte, tPos': nat, ghost here': nat)
      requires !small && Tables() && At(tPos, here) && |column| <= limit
      requires from < |column| && Reads(column, from, read, here)
      ensures !bad && here' < |column| && At(tPos', here')
      ensures Reads(column, from, read + [k1], here')
    {
      hide Reads, Back, Tables;
      bad, k1, tPos' := GetFast(tPos, here);
      here' := here;
      if bad { return; }
      ReadsOneMore(column, from, read, here);
      here' := Back(column)[here];
    }

    // The part of unRLE_obuf_to_output_FAST that starts a new run; one means
    // the jump to s_state_out_len_eq_one, which leaves the run length alone.
    method StartRunFast(c_k0: byte, c_nblock_used: nat, c_state_out_len: nat, c_tPos: nat, ghost here: nat)
      returns (bad: bool, one: bool, ch: byte, len: nat, k0: byte, used: nat, tPos': nat, ghost here': nat)
      requires !small && Tables() && At(c_tPos, here) && |column| == saveNblock <= limit
      requires 1 <= c_nblock_used <= saveNblock && here < |column|
      ensures !bad && here' < |column| && At(tPos', here') && c_nblock_used < used <= saveNblock + 2
      ensures (if one then 1 else len) > 0
      ensures Owed(column, here', k0, used, ch, if one then 1 else len)
              == Owed(column, here, c_k0, c_nblock_used, c_k0, 0)
    {
      hide Reads, Owed, Tables, Back, At;
      ghost var c := c_k0;
      ReadsNothing(column, here);
      ch, k0, used, len := c_k0, c_k0, c_nblock_used, c_state_out_len;
      var k1;
      one := false;
      bad, k1, tPos', here' := NextFast(c_tPos, here, here, []);
      if bad { return; }
      used := used + 1;
      assert [] + [k1] == Rep(c, 0) + [k1];
      if k1 != k0 {
        k0 := k1;
        one := true;
        ShortRun(column, here, c, c_nblock_used, 1, here', k1, k0);
        return;
      }
      if used == saveNblock + 1 {
        one := true;
        ShortRun(column, here, c, c_nblock_used, 1, here', k1, k0);
        return;
      }
      assert [] + [k1] == Rep(c, 1);
      len := 2;
      bad, k1, tPos', here' := NextFast(tPos', here', here, Rep(c, 1));
      if bad { return; }
      used := used + 1;
      if used == saveNblock + 1 {
        ShortRun(column, here, c, c_nblock_used, 2, here', k1, k0);
        return;
      }
      if k1 != k0 {
        k0 := k1;
        ShortRun(column, here, c, c_nblock_used, 2, here', k1, k0);
        return;
      }
      assert Rep(c, 1) + [k1] == Rep(c, 2);
      len := 3;
      bad, k1, tPos', here' := NextFast(tPos', here', here, Rep(c, 2));
      if bad { return; }
      used := used + 1;
      if used == saveNblock + 1 {
        ShortRun(column, here, c, c_nblock_used, 3, here', k1, k0);
        return;
      }
      if k1 != k0 {
        k0 := k1;
        ShortRun(column, here, c, c_nblock_used, 3, here', k1, k0);
        return;
      }
      assert Rep(c, 2) + [k1] == Rep(c, 3);
      bad, k1, tPos', here' := NextFast(tPos', here', here, Rep(c, 3));
      if bad { return; }
      used := used + 1;
      len := k1 as int + 4;
      ghost var count := k1;
      bad, k1, tPos', here' := NextFast(tPos', here', here, Rep(c, 3) + [count]);
      if bad { return; }
      k0 := k1;
      used := used + 1;
      LongRun(column, here, c, c_nblock_used, here', count, k0);
    }

    // Local copies of the state; out is what this call has written.
    ghost predicate Written(out: seq<byte>, room: nat, crc: bv32, room0: nat, crc0: bv32, e: Expansion,
                            here: nat, k0: byte, used: nat, ch: byte, len: nat)
      requires here < |column| && 1 <= used <= |column| + 2
      reads this`column
    {
      && |out| <= |e.bytes| && out == e.bytes[..|out|] && room + |out| == room0
      && crc == Crc(crc0, out)
      && Owed(column, here, k0, used, ch, len) == Expansion(e.bytes[|out|..], e.bad)
    }

    lemma WriteOne(out: seq<byte>, room: nat, crc: bv32, room0: nat, crc0: bv32, e: Expansion,
                   here: nat, k0: byte, used: nat, ch: byte, len: nat)
      requires here < |column| && 1 <= used <= |column| + 2 && room > 0 && len > 0
      requires Written(out, room, crc, room0, crc0, e, here, k0, used, ch, len)
      ensures Written(out + [ch], room - 1, UpdateCrc(crc, ch), room0, crc0, e, here, k0, used, ch, len - 1)
      ensures |out| < |e.bytes|
    {
      hide Owed, Crc, UpdateCrc;
      var w := |out|;
      EmitOne(column, here, k0, used, ch, len);
      assert e.bytes[w] == e.bytes[w..][0];
      assert e.bytes[w + 1..] == e.bytes[w..][1..];
      CrcAppend(crc0, out, ch);
    }

    method UnRleFast() returns (corrupt: bool)
      requires !small && Valid()
      modifies this`tPos, this`here, this`nblockUsed, this`k0, this`stateOutCh, this`stateOutLen,
               this`calculatedBlockCRC, this`nextOut, this`availOut
      ensures Valid()
      ensures corrupt <==> old(Pending()).bad && |old(Pending()).bytes| <= old(availOut)
      ensures !corrupt ==>
        var w := |Take(old(Pending()), old(availOut))|;
        Emitted(old(nextOut), old(availOut), old(calculatedBlockCRC), old(Pending()), w)
      ensures corrupt ==> nextOut == old(nextOut) && availOut == old(availOut)
    {
      hide Owed, Tables, Back, Crc, UpdateCrc, At, Written;
      ghost var e := Pending();
      // restore
      var c_crc, ch, k0 := calculatedBlockCRC, stateOutCh, k0;
      var len: nat, used: nat, tPos': nat, room: nat := stateOutLen, nblockUsed, tPos, availOut;
      ghost var row: nat := here;
      var out: seq<byte> := [];
      WrittenNothing(e);
      var one := false;
      while true
        invariant unchanged(this) && row < |column| && At(tPos', row) && 1 <= used <= saveNblock + 2
        invariant Written(out, room, c_crc, availOut, calculatedBlockCRC, e, row, k0, used, ch, if one then 1 else len)
        decreases |e.bytes| - |out|, saveNblock + 3 - used
      {
        // try to finish existing run
        if !one && len > 0 {
          while true
            invariant unchanged(this) && len > 0
            invariant Written(out, room, c_crc, availOut, calculatedBlockCRC, e, row, k0, used, ch, len)
            decreases |e.bytes| - |out|
          {
            if room == 0 {
              StillOwed(out, room, c_crc, e, row, k0, used, ch, len);
              Save(ch, len, used, k0, tPos', row, c_crc, out, room, e);
              return false;
            }
            if len == 1 { break; }
            WriteOne(out, room, c_crc, availOut, calculatedBlockCRC, e, row, k0, used, ch, len);
            out := out + [ch];
            c_crc := UpdateCrc(c_crc, ch);
            len := len - 1;
            room := room - 1;
          }
          one := true;
        }
        if one {
          // s_state_out_len_eq_one
          if room == 0 {
            len := 1;
            StillOwed(out, room, c_crc, e, row, k0, used, ch, len);
            Save(ch, len, used, k0, tPos', row, c_crc, out, room, e);
            return false;
          }
          WriteOne(out, room, c_crc, availOut, calculatedBlockCRC, e, row, k0, used, ch, 1);
          out := out + [ch];
          c_crc := UpdateCrc(c_crc, ch);
          room := room - 1;
        }
        AllRead(out, room, c_crc, e, row, k0, used, ch);
        if used > saveNblock + 1 { return true; }
        if used == saveNblock + 1 {
          len := 0;
          Save(ch, len, used, k0, tPos', row, c_crc, out, room, e);
          return false;
        }
        ghost var oldRow, oldCh, oldK0, oldUsed := row, ch, k0, used;
        corrupt, one, ch, len, k0, used, tPos', row := StartRunFast(k0, used, len, tPos', row);
        if corrupt { return; }
        Restart(out, room, c_crc, e, oldRow, oldK0, oldUsed, oldCh, row, k0, used, ch, if one then 1 else len);
      }
    }

    lemma WrittenNothing(e: Expansion)
      requires Valid() && e == Pending()
      ensures Written([], availOut, calculatedBlockCRC, availOut, calculatedBlockCRC, e, here, k0, nblockUsed,
                      stateOutCh, stateOutLen)
    {
    }

    lemma StillOwed(out: seq<byte>, room: nat, crc: bv32, e: Expansion, here: nat, k0: byte, used: nat, ch: byte,
      len: nat)
      requires here < |column| && 1 <= used <= |column| + 2 && len > 0
      requires Written(out, room, crc, availOut, calculatedBlockCRC, e, here, k0, used, ch, len)
      ensures |out| < |e.bytes|
    {
      hide Owed;
      EmitOne(column, here, k0, used, ch, len);
    }

    lemma AllRead(out: seq<byte>, room: nat, crc: bv32, e: Expansion, here: nat, k0: byte, used: nat, ch: byte)
      requires here < |column| == saveNblock && 1 <= used <= saveNblock + 2
      requires Written(out, room, crc, availOut, calculatedBlockCRC, e, here, k0, used, ch, 0)
      ensures used == saveNblock + 1 ==> out == e.bytes && !e.bad
      ensures used > saveNblock + 1 ==> out == e.bytes && e.bad
      ensures |out| + room == availOut
    {
      assert |out| < |e.bytes| ==> |e.bytes[|out|..]| > 0;
    }

    lemma Restart(out: seq<byte>, room: nat, crc: bv32, e: Expansion, here: nat, k0: byte, used: nat, ch: byte,
                  here': nat, k0': byte, used': nat, ch': byte, len': nat)
      requires here < |column| && here' < |column| && 1 <= used <= |column| + 2 && 1 <= used' <= |column| + 2
      requires Written(out, room, crc, availOut, calculatedBlockCRC, e, here, k0, used, ch, 0)
      requires Owed(column, here', k0', used', ch', len') == Owed(column, here, k0, used, k0, 0)
      ensures Written(out, room, crc, availOut, calculatedBlockCRC, e, here', k0', used', ch', len')
    {
      RunStart(column, here, k0, used, ch, k0);
    }

    lemma WrittenMeans(out: seq<byte>, room: nat, crc: bv32, e: Expansion, here: nat, k0: byte, used: nat, ch: byte,
      len: nat)
      requires here < |column| && 1 <= used <= |column| + 2
        && Written(out, room, crc, availOut, calculatedBlockCRC, e, here, k0, used, ch, len)
      ensures |out| <= |e.bytes| && out == e.bytes[..|out|] && room + |out| == availOut
        && crc == Crc(calculatedBlockCRC, out)
      ensures Owed(column, here, k0, used, ch, len) == Expansion(e.bytes[|out|..], e.bad)
    {
    }

    lemma AtInside(tPos: nat, here: nat)
      requires Tables() && At(tPos, here)
      ensures tPos < |column| && here < |column|
    {
    }

    // Saving the local copies at return_notr.
    method Save(ch: byte, len: nat, used: nat, c_k0: byte, c_tPos: nat, ghost row: nat, crc: bv32,
                out: seq<byte>, room: nat, ghost e: Expansion)
      requires !small && Valid() && e == Pending() && row < |column| && At(c_tPos, row) && 1 <= used <= saveNblock + 2
      requires Written(out, room, crc, availOut, calculatedBlockCRC, e, row, c_k0, used, ch, len)
      modifies this`tPos, this`here, this`nblockUsed, this`k0, this`stateOutCh, this`stateOutLen,
               this`calculatedBlockCRC, this`nextOut, this`availOut
      ensures Valid() && |out| <= |e.bytes| && availOut == room
      ensures Emitted(old(nextOut), old(availOut), old(calculatedBlockCRC), e, |out|)
      ensures availOut + |out| == old(availOut)
    {
      hide Owed, Tables, Back, Crc, Written, At;
      WrittenMeans(out, room, crc, e, row, c_k0, used, ch, len);
      AtInside(c_tPos, row);
      StoreLocals(ch, len, used, c_k0, c_tPos, row, crc, out, room);
    }

    method StoreLocals(ch: byte, len: nat, used: nat, c_k0: byte, c_tPos: nat, ghost row: nat, crc: bv32,
      out: seq<byte>, room: nat)
      modifies this`tPos, this`here, this`nblockUsed, this`k0, this`stateOutCh, this`stateOutLen,
               this`calculatedBlockCRC, this`nextOut, this`availOut
      ensures calculatedBlockCRC == crc && stateOutCh == ch && stateOutLen == len && nblockUsed == used && k0 == c_k0
      ensures tPos == c_tPos && here == row && nextOut == old(nextOut) + out && availOut == room
    {
      calculatedBlockCRC := crc;
      stateOutCh := ch;
      stateOutLen := len;
      nblockUsed := used;
      k0 := c_k0;
      tPos := c_tPos;
      here := row;
      nextOut := nextOut + out;
      availOut := room;
    }

    // From BZ2_decompress, once the block's symbols and their counts are in
    // place: check origPtr, build cftab and the chain, read the first symbol.
    // False is BZ_DATA_ERROR.
    method StartOutput(nblock: nat, unzftab: array<int>, origPtr: int, ghost l: seq<byte>) returns (ok: bool)
      requires |l| == nblock <= limit <= 0x10_0000 && Counts(unzftab[..], l) && unzftab.Length == 256
      requires cftab.Length == cftabCopy.Length == 257
      requires cftab != cftabCopy && unzftab != cftab && unzftab != cftabCopy
      requires if small then nblock <= ll16.Length && nblock <= 2 * ll4.Length
        && (forall k :: 0 <= k < nblock ==> ll16[k] == l[k])
               else nblock <= tt.Length && (forall k :: 0 <= k < nblock ==> tt[k] == l[k])
      modifies this, tt, ll16, ll4, cftab, cftabCopy
      ensures nextOut == old(nextOut)
      ensures ok <==> 0 <= origPtr < nblock
      ensures ok ==> Valid() && column == l && calculatedBlockCRC == 0xffff_ffff
      ensures ok ==> Pending() == Expand(Chain(l, Back(l), Back(l)[origPtr], nblock + 2), nblock)
    {
      hide Less, Occ, Back, Chain, Expand, Owed, Tables, At, PrefixSum, Counts;
      if origPtr < 0 || origPtr >= nblock { return false; }
      CountsPass(unzftab[..], l);
      ok := MakeCftab(unzftab, nblock, cftab);
      if !ok { return; }
      saveNblock := nblock;
      column := l;
      FirstSymbol(origPtr);
    }

    // Nothing is written yet, and the first symbol is read.
    method FirstSymbol(origPtr: nat)
      requires origPtr < |column| == saveNblock <= limit <= 0x10_0000
      requires cftab.Length == cftabCopy.Length == 257 && cftab != cftabCopy
      requires if small then saveNblock <= ll16.Length && saveNblock <= 2 * ll4.Length
        && (forall k :: 0 <= k < saveNblock ==> ll16[k] == column[k])
               else saveNblock <= tt.Length && (forall k :: 0 <= k < saveNblock ==> tt[k] == column[k])
      requires forall c :: 0 <= c <= 256 ==> cftab[c] == Less(column, c, saveNblock)
      modifies this`stateOutLen, this`stateOutCh, this`calculatedBlockCRC, this`nblockUsed, this`cycle, this`k0,
        this`tPos, this`here, tt, ll16, ll4, cftab, cftabCopy
      ensures Valid() && calculatedBlockCRC == 0xffff_ffff
      ensures Pending() == Expand(Chain(column, Back(column), Back(column)[origPtr], saveNblock + 2), saveNblock)
    {
      hide Less, Back, Chain, Expand, Owed, Tables, At;
      StartWriting();
      if small {
        FirstSmall(origPtr);
      } else {
        FirstFast(origPtr);
      }
      AtInside(tPos, here);
      FirstOwed(column, Back(column)[origPtr], k0);
    }

    method StartWriting()
      modifies this`stateOutLen, this`stateOutCh, this`calculatedBlockCRC, this`nblockUsed
      ensures stateOutLen == 0 && stateOutCh == 0 && calculatedBlockCRC == 0xffff_ffff && nblockUsed == 1
    {
      stateOutLen := 0;
      stateOutCh := 0;
      calculatedBlockCRC := 0xffff_ffff;
      nblockUsed := 1;
    }

    // Compute the T vector, and T^-1 by pointer reversal along origPtr's cycle.
    method ReverseFrom(origPtr: nat)
      requires small && origPtr < |column| == saveNblock <= limit <= 0x10_0000
      requires saveNblock <= ll16.Length && saveNblock <= 2 * ll4.Length
      requires forall k :: 0 <= k < saveNblock ==> ll16[k] == column[k]
      requires cftab.Length == cftabCopy.Length == 257 && cftab != cftabCopy
      requires forall c :: 0 <= c <= 256 ==> cftab[c] == Less(column, c, saveNblock)
      modifies this`cycle, ll16, ll4, cftabCopy
      ensures Tables() && origPtr in cycle
    {
      hide Less, Back, Packed, GetLL, Ranks, AgreesAt, Rank;
      BackProperties(column);
      BuildSmall(ll16, ll4, saveNblock, cftab, cftabCopy, column);
      cycle := ReverseCycle(ll16, ll4, saveNblock, origPtr, Ranks(column));
    }

    method FirstSmall(origPtr: nat)
      requires small && origPtr < |column| == saveNblock <= limit <= 0x10_0000
      requires saveNblock <= ll16.Length && saveNblock <= 2 * ll4.Length
      requires forall k :: 0 <= k < saveNblock ==> ll16[k] == column[k]
      requires cftab.Length == cftabCopy.Length == 257 && cftab != cftabCopy
      requires forall c :: 0 <= c <= 256 ==> cftab[c] == Less(column, c, saveNblock)
      modifies this`cycle, this`k0, this`tPos, this`here, ll16, ll4, cftabCopy
      ensures Tables() && At(tPos, here)
      ensures k0 == column[Back(column)[origPtr]] && here == Back(column)[Back(column)[origPtr]]
    {
      hide Back, Tables, Less;
      ReverseFrom(origPtr);
      var bad;
      bad, k0, tPos := GetSmall(origPtr, Back(column)[origPtr]);
      here := Back(column)[Back(column)[origPtr]];
    }

    method FirstFast(origPtr: nat)
      requires !small && origPtr < |column| == saveNblock <= limit
      requires saveNblock <= tt.Length && forall k :: 0 <= k < saveNblock ==> tt[k] == column[k]
      requires cftab.Length == 257 && forall c :: 0 <= c <= 256 ==> cftab[c] == Less(column, c, saveNblock)
      modifies this`k0, this`tPos, this`here, tt, cftab
      ensures Tables() && At(tPos, here)
      ensures k0 == column[Back(column)[origPtr]] && here == Back(column)[Back(column)[origPtr]]
    {
      hide Less, Back, IsPackedChain;
      BuildFast(tt, saveNblock, cftab, column);
      ChainWord(tt[..], column, origPtr);
      tPos := tt[origPtr] / 256;
      var bad;
      bad, k0, tPos := GetFast(tPos, Back(column)[origPtr]);
      here := Back(column)[Back(column)[origPtr]];
    }

    // The output half of BZ2_bzDecompress.
    method OutputStep(storedBlockCRC: bv32) returns (status: Status)
      requires Valid()
      modifies this`tPos, this`here, this`nblockUsed, this`k0, this`stateOutCh, this`stateOutLen,
               this`calculatedBlockCRC, this`nextOut, this`availOut
      ensures Valid() && (status.Corrupt? ==> old(Pending()).bad)
      ensures !status.Corrupt? ==>
        && nextOut == old(nextOut) + Take(old(Pending()), old(availOut))
        && calculatedBlockCRC == Crc(old(calculatedBlockCRC), Take(old(Pending()), old(availOut)))
        && Pending() == Rest(old(Pending()), old(availOut))
      ensures status.BlockDone? <==> !old(Pending()).bad && |old(Pending()).bytes| <= old(availOut)
      ensures status.BlockDone?
        ==> (status.crcOk <==> Finalise(Crc(old(calculatedBlockCRC), old(Pending()).bytes)) == storedBlockCRC)
    {
      hide Owed, Tables, Crc, At, Finalise, Take, Rest, Back, Pending;
      ghost var e, room0 := Pending(), availOut;
      var corrupt;
      if small {
        corrupt := UnRleSmall();
      } else {
        corrupt := UnRleFast();
      }
      if corrupt { return Corrupt; }
      TakeIsPrefix(e, room0);
      RestNothing(e, room0);
      AllWritten();
      if nblockUsed == saveNblock + 1 && stateOutLen == 0 {
        status := BlockDone(Finalise(calculatedBlockCRC) == storedBlockCRC);
      } else {
        status := More;
      }
    }

    // The test of BZ2_bzDecompress holds exactly when nothing is owed.
    lemma AllWritten()
      requires Valid()
      ensures nblockUsed == saveNblock + 1 && stateOutLen == 0 <==> Pending() == Expansion([], false)
    {
      var m := |column| + 1 - nblockUsed;
      if nblockUsed <= saveNblock && stateOutLen == 0 {
        ExpandSome([k0] + Chain(column, Back(column), here, |column| + 2 - nblockUsed), m);
      }
    }
  }

  datatype Status = Corrupt | More | BlockDone(crcOk: bool)

  // Successive calls with the given amounts of output space.
  method Drain(d: DState, rooms: seq<nat>) returns (corrupt: bool)
    requires d.Valid()
    modifies d
    ensures corrupt ==> old(d.Pending()).bad
    ensures !corrupt ==>
      && d.Valid()
      && d.nextOut == old(d.nextOut) + Take(old(d.Pending()), Sum(rooms))
      && d.calculatedBlockCRC == Crc(old(d.calculatedBlockCRC), Take(old(d.Pending()), Sum(rooms)))
  {
    hide Crc, Take, Rest, DState.Pending, DState.Tables, DState.At;
    if rooms == [] {
      corrupt := false;
      TakeNone(d.Pending());
      CrcNothing(d.calculatedBlockCRC);
      return;
    }
    ghost var e, crc0 := d.Pending(), d.calculatedBlockCRC;
    d.availOut := rooms[0];
    var status := d.OutputStep(0);
    if status.Corrupt? { return true; }
    corrupt := Drain(d, rooms[1..]);
    TakeInTwo(e, rooms[0], Sum(rooms[1..]));
    CrcConcat(crc0, Take(e, rooms[0]), Take(Rest(e, rooms[0]), Sum(rooms[1..])));
  }

  // Owed before anything is written, one symbol having been read.
  lemma FirstOwed(l: seq<byte>, row: nat, k0: byte)
    requires row < |l| && k0 == l[row]
    ensures Owed(l, Back(l)[row], k0, 1, 0, 0) == Expand(Chain(l, Back(l), row, |l| + 2), |l|)
  {
    ChainUnfold(l, Back(l), row, |l| + 2);
    PrependNothing(Expand(Chain(l, Back(l), row, |l| + 2), |l|));
    assert Rep(0, 0) == [];
  }
}
