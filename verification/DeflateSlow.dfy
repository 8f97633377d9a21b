// deflate_slow of zlib's deflate.c: lazy evaluation. A match is tallied one
// position late, when the next position has nothing better; across slides and
// flushes the tokens stand for exactly the input consumed.
module DeflateSlow {
  import opened Bits
  import opened RollingHash
  import opened HashChains
  import opened Lz77
  import opened DeflateState
  import opened LongestMatch

  const TOO_FAR: nat := 4096

  datatype Flush = NoFlush | SyncFlush | Finish
  datatype BlockState = NeedMore | BlockDone | FinishStarted | FinishDone

  // How far the tokens have got: one byte behind if a match is held back.
  ghost function Emitted(s: State): nat
    requires s.matchAvailable ==> s.strstart >= 1
    reads s`base, s`strstart, s`matchAvailable
  {
    s.base + s.strstart - (if s.matchAvailable then 1 else 0)
  }

  // The match found at the previous position is a true match there.
  ghost predicate Held(s: State, len: nat, start: int)
    reads s`base, s`strstart, s`matchAvailable, s`data
  {
    len >= MIN_MATCH ==>
      && s.matchAvailable && s.strstart >= 1 && TrueMatch(s.data, s.base + s.strstart - 1, s.strstart - 1 - start, len)
      && s.strstart - 1 - start <= 0x8000
  }

  ghost predicate Lazy(s: State)
    reads s`base, s`strstart, s`matchAvailable, s`data, s`matchLength, s`matchStart, s`tokens, s`blocks, s`blockStart
  {
    && (s.matchAvailable ==> s.strstart >= 1) && MIN_MATCH - 1 <= s.matchLength <= MAX_MATCH
    && Held(s, s.matchLength, s.matchStart) && s.Tallied(Emitted(s))
  }

  // After the string at strstart has been inserted, if there is one.
  ghost predicate Entered(s: State)
    reads s`strstart, s`lookahead, s`base, s`data, s`insH, s`insert, s`owner, s`top, s.window, s.head, s.prev
  {
    && s.Sizes() && s.Shows() && |s.owner| == s.wsize && Chained(s.window[..], s.Links(), s.hashBits)
    && s.top + 2 < s.strstart + s.lookahead && s.insert < MIN_MATCH && s.insert <= s.strstart
    && if s.lookahead >= MIN_MATCH then
         s.top == s.strstart && s.insert == 0
           && Rolled(s.hashBits, s.insH, s.window[s.strstart + 1], s.window[s.strstart + 2])
       else
         s.top < s.strstart - s.insert && (s.insert > 0 ==> s.lookahead + s.insert < MIN_MATCH)
  }

  // hash_head = NIL; if (lookahead >= MIN_MATCH) INSERT_STRING
  method InsertCurrent(s: State) returns (hashHead: nat)
    requires s.Valid() && s.HashReady()
    modifies s`insH, s`owner, s`top, s.head, s.prev
    ensures Entered(s)
    ensures hashHead != 0
      ==> s.lookahead >= MIN_MATCH
          && (s.strstart - hashHead <= s.MaxDist() ==> Candidate(s, hashHead) && ChainOf(s, hashHead))
  {
    hide Chained, Rolled, Update, Pow2;
    hashHead := 0;
    if s.lookahead >= MIN_MATCH {
      ghost var c := s.Links();
      hashHead := s.InsertString(s.strstart);
      if hashHead != 0 && s.strstart - hashHead <= s.MaxDist() {
        HeadIsCandidate(s, s.window[..], c, s.insH, hashHead);
      }
    }
  }

  // A match that is not worth taking counts as none.
  function Worth(s: State, len: nat, dist: int): nat
  {
    if len <= 5 && (s.filtered || (len == MIN_MATCH && dist > TOO_FAR)) then MIN_MATCH - 1 else len
  }

  // The search at the current position, which must beat the match held back.
  method FindMatch(s: State, hashHead: nat) returns (prevMatch: int)
    requires Entered(s) && Lazy(s) && s.strstart + MIN_LOOKAHEAD <= s.window.Length
    requires hashHead != 0
      ==> s.lookahead >= MIN_MATCH
          && (s.strstart - hashHead <= s.MaxDist() ==> Candidate(s, hashHead) && ChainOf(s, hashHead))
    modifies s`prevLength, s`matchLength, s`matchStart
    ensures s.prevLength == old(s.matchLength) && prevMatch == old(s.matchStart)
    ensures MIN_MATCH - 1 <= s.matchLength <= MAX_MATCH
    ensures s.matchLength > s.prevLength ==>
      TrueMatch(s.data, s.base + s.strstart, s.strstart - s.matchStart, s.matchLength)
        && s.strstart - s.matchStart <= 0x8000
    ensures if hashHead != 0 && s.prevLength < s.maxLazy && s.strstart - hashHead <= s.MaxDist() then
              exists best: nat, steps: nat :: Searched(s, hashHead, best, steps)
                && s.matchLength == Worth(s, if best <= s.lookahead then best else s.lookahead,
                  s.strstart - s.matchStart)
            else s.matchLength == MIN_MATCH - 1
  {
    hide Chained, Rolled, Candidate, ChainOf, TrueMatch, State.Tallied, Pow2, State.Shows, Searched;
    s.prevLength, prevMatch := s.matchLength, s.matchStart;
    s.matchLength := MIN_MATCH - 1;
    if hashHead != 0 && s.prevLength < s.maxLazy && s.strstart - hashHead <= s.MaxDist() {
      ghost var best, steps;
      s.matchLength, best, steps := Longest(s, hashHead);
      if s.matchLength <= 5 && (s.filtered || (s.matchLength == MIN_MATCH && s.strstart - s.matchStart > TOO_FAR)) {
        s.matchLength := MIN_MATCH - 1;
      }
      assert Searched(s, hashHead, best, steps);
    }
  }

  // Insert the strings of a match after its first two, up to maxInsert, the
  // last position with three bytes of input.
  method InsertRest(s: State, count: nat, maxInsert: nat, ghost end: nat)
    requires s.Sizes() && |s.owner| == s.wsize && Chained(s.window[..], s.Links(), s.hashBits)
    requires s.top <= s.strstart && s.top <= maxInsert && maxInsert + 3 == end <= s.window.Length
      && s.strstart + count < end
    requires s.strstart <= maxInsert ==> Rolled(s.hashBits, s.insH, s.window[s.strstart + 1], s.window[s.strstart + 2])
    modifies s`strstart, s`insH, s`owner, s`top, s.head, s.prev
    ensures s.strstart == old(s.strstart) + count && |s.owner| == s.wsize
      && Chained(s.window[..], s.Links(), s.hashBits)
    ensures s.top <= s.strstart && s.top <= maxInsert
    ensures count > 0 && old(s.strstart) < maxInsert
      ==> s.top == if s.strstart <= maxInsert then s.strstart else maxInsert
    ensures s.strstart <= maxInsert ==> Rolled(s.hashBits, s.insH, s.window[s.strstart + 1], s.window[s.strstart + 2])
  {
    hide Chained, Rolled, Update, Pow2;
    var n := count;
    while n > 0
      invariant 0 <= n <= count && s.strstart == old(s.strstart) + (count - n)
      invariant |s.owner| == s.wsize && Chained(s.window[..], s.Links(), s.hashBits) && s.top <= s.strstart
        && s.top <= maxInsert
      invariant n < count && old(s.strstart) < maxInsert
        ==> s.top == if s.strstart <= maxInsert then s.strstart else maxInsert
      invariant s.strstart <= maxInsert
        ==> Rolled(s.hashBits, s.insH, s.window[s.strstart + 1], s.window[s.strstart + 2])
    {
      s.strstart := s.strstart + 1;
      if s.strstart <= maxInsert {
        var m := s.InsertString(s.strstart);
      }
      n := n - 1;
    }
  }

  // Tally the match held back and pass over it. bflush is set when the block is full.
  method EmitMatch(s: State, prevMatch: int) returns (bflush: bool)
    requires Entered(s) && MIN_MATCH <= s.prevLength <= MAX_MATCH && Held(s, s.prevLength, prevMatch)
    requires s.matchAvailable && s.strstart >= 1 && s.Tallied(Emitted(s)) && s.HasRoom()
    modifies s`tokens, s`lookahead, s`prevLength, s`strstart, s`insH, s`owner, s`top, s`matchAvailable, s`matchLength,
      s.head, s.prev
    ensures s.Valid() && s.HashReady() && Lazy(s) && !s.matchAvailable && (bflush <==> !s.HasRoom())
    ensures s.strstart == old(s.strstart) + old(s.prevLength) - 1
      && s.strstart + s.lookahead == old(s.strstart + s.lookahead)
    ensures s.tokens == old(s.tokens) + [Match(old(s.strstart) - 1 - prevMatch, old(s.prevLength))]
  {
    hide Entered, State.Valid, State.HashReady, State.Tallied, TrueMatch;
    HeldFits(s, s.prevLength, prevMatch);
    var maxInsert: nat := s.strstart + s.lookahead - MIN_MATCH;
    bflush := s.TallyDist(s.strstart - 1 - prevMatch, s.prevLength - MIN_MATCH, s.base + s.strstart - 1);
    PassOver(s, maxInsert);
    s.matchAvailable := false;
    s.matchLength := MIN_MATCH - 1;
  }

  // The match held back ends within the data.
  lemma HeldFits(s: State, len: nat, start: int)
    requires Entered(s) && MIN_MATCH <= len && Held(s, len, start)
    ensures len <= s.lookahead + 1 && s.strstart + s.lookahead >= MIN_MATCH && s.strstart >= 1
    ensures 1 <= s.strstart - 1 - start <= 0x8000
  {
    hide Chained, Rolled, Pow2, State.Links;
  }

  method PassOver(s: State, maxInsert: nat)
    requires Entered(s) && MIN_MATCH <= s.prevLength <= s.lookahead + 1
      && maxInsert + MIN_MATCH == s.strstart + s.lookahead
    modifies s`lookahead, s`prevLength, s`strstart, s`insH, s`owner, s`top, s.head, s.prev
    ensures s.Valid() && s.HashReady()
    ensures s.lookahead == old(s.lookahead) - (old(s.prevLength) - 1)
      && s.strstart == old(s.strstart) + (old(s.prevLength) - 1)
  {
    hide Chained, Rolled, Update, Pow2, State.Links;
    s.lookahead := s.lookahead - (s.prevLength - 1);
    s.prevLength := s.prevLength - 2;
    InsertRest(s, s.prevLength, maxInsert, maxInsert + MIN_MATCH);
    s.prevLength := 0;
    s.strstart := s.strstart + 1;
  }

  // One byte of input is used up; nothing more is inserted.
  method Advance(s: State)
    requires Entered(s) && s.lookahead > 0
    modifies s`strstart, s`lookahead
    ensures s.Valid() && s.HashReady() && s.strstart == old(s.strstart) + 1 && s.lookahead == old(s.lookahead) - 1
  {
    hide Chained, Rolled, Update, Pow2;
    s.strstart := s.strstart + 1;
    s.lookahead := s.lookahead - 1;
  }

  // The byte before the current one as a literal: no match, or one that is beaten.
  method EmitLiteral(s: State)
    requires Entered(s) && s.lookahead > 0 && s.matchAvailable && s.strstart >= 1 && s.Tallied(Emitted(s))
      && s.HasRoom()
    requires MIN_MATCH - 1 <= s.matchLength <= MAX_MATCH
    requires s.matchLength >= MIN_MATCH ==>
      TrueMatch(s.data, s.base + s.strstart, s.strstart - s.matchStart, s.matchLength)
        && s.strstart - s.matchStart <= 0x8000
    modifies s`tokens, s`blocks, s`blockStart, s`full, s`strstart, s`lookahead
    ensures s.Valid() && s.HashReady() && Lazy(s) && s.HasRoom()
    ensures s.strstart == old(s.strstart) + 1 && s.strstart + s.lookahead == old(s.strstart + s.lookahead)
  {
    hide Entered, State.Valid, State.HashReady, State.Tallied, State.Shows, State.Sizes, State.HasRoom, TrueMatch,
      Lazy;
    EnteredMeans(s);
    ghost var n, dist := s.base + s.strstart, s.strstart - s.matchStart;
    PutLiteral(s);
    Advance(s);
    NowHeld(s, n, dist);
  }

  // The match found before the last step is the one held back after it.
  lemma NowHeld(s: State, n: nat, dist: int)
    requires s.Tallied(n) && MIN_MATCH - 1 <= s.matchLength <= MAX_MATCH
    requires s.matchAvailable && s.strstart >= 1 && n == s.base + s.strstart - 1
      && dist == s.strstart - 1 - s.matchStart
    requires s.matchLength >= MIN_MATCH ==> TrueMatch(s.data, n, dist, s.matchLength) && dist <= 0x8000
    ensures Lazy(s)
  {
    hide TrueMatch, State.Tallied;
  }

  // Tally it, and flush the block if it is full.
  method PutLiteral(s: State)
    requires s.Sizes() && s.Shows() && s.strstart >= 1 && s.Tallied(s.base + s.strstart - 1) && s.HasRoom()
    modifies s`tokens, s`blocks, s`blockStart, s`full
    ensures s.Tallied(s.base + s.strstart) && s.HasRoom()
  {
    s.ShownAt(s.strstart - 1);
    hide State.Tallied, State.Shows, Pow2;
    var bflush := s.TallyLit(s.window[s.strstart - 1], s.base + s.strstart - 1);
    if bflush { s.FlushBlockOnly(false); }
  }

  lemma EnteredMeans(s: State)
    requires Entered(s)
    ensures s.Sizes() && s.Shows() && |s.owner| == s.wsize && Chained(s.window[..], s.Links(), s.hashBits)
  {
  }

  // Wait for the next position to decide.
  method Defer(s: State)
    requires Entered(s) && s.lookahead > 0 && !s.matchAvailable && s.Tallied(Emitted(s))
    requires MIN_MATCH - 1 <= s.matchLength <= MAX_MATCH
    requires s.matchLength >= MIN_MATCH ==>
      TrueMatch(s.data, s.base + s.strstart, s.strstart - s.matchStart, s.matchLength)
        && s.strstart - s.matchStart <= 0x8000
    modifies s`matchAvailable, s`strstart, s`lookahead
    ensures s.Valid() && s.HashReady() && Lazy(s)
    ensures s.strstart == old(s.strstart) + 1 && s.matchAvailable
      && s.strstart + s.lookahead == old(s.strstart + s.lookahead)
  {
    hide Entered, State.Valid, State.HashReady, State.Tallied, TrueMatch, Lazy;
    ghost var n, dist := s.base + s.strstart, s.strstart - s.matchStart;
    s.matchAvailable := true;
    Advance(s);
    NowHeld(s, n, dist);
  }

  // Refilling keeps what has been tallied and the match held back.
  method Refill(s: State)
    requires s.Valid() && s.HashReady() && Lazy(s) && s.lookahead < MIN_LOOKAHEAD
    modifies s`strstart, s`lookahead, s`insH, s`insert, s`matchStart, s`blockStart, s`highWater, s`input
    modifies s`base, s`data, s`owner, s`top, s.window, s.head, s.prev
    ensures s.Valid() && s.HashReady() && Lazy(s) && s.strstart <= s.window.Length - MIN_LOOKAHEAD
    ensures s.data + s.input == old(s.data) + old(s.input)
      && s.lookahead + |s.input| == old(s.lookahead) + |old(s.input)|
    ensures s.lookahead < MIN_LOOKAHEAD ==> s.input == []
  {
    hide Chained, Rolled, Update, Pow2, Expand, Sound, BlocksOk;
    ghost var d, b, n := s.data, s.base, Emitted(s);
    s.FillWindow();
    SpellMore(AllTokens(s.blocks) + s.tokens, d, s.data, n);
    BlocksOkMore(s.blocks, d, s.data);
  }

  // A match found is either taken whole or gives way to a longer one that starts one byte later.
  method Decide(s: State, prevMatch: int) returns (leave: bool)
    requires Entered(s) && s.lookahead > 0 && s.HasRoom() && (s.matchAvailable ==> s.strstart >= 1)
    requires s.Tallied(Emitted(s)) && Held(s, s.prevLength, prevMatch)
    requires MIN_MATCH - 1 <= s.prevLength <= MAX_MATCH && MIN_MATCH - 1 <= s.matchLength <= MAX_MATCH
    requires s.matchLength > s.prevLength
      ==> TrueMatch(s.data, s.base + s.strstart, s.strstart - s.matchStart, s.matchLength)
          && s.strstart - s.matchStart <= 0x8000
    modifies s`strstart, s`lookahead, s`insH, s`owner, s`top, s`matchLength, s`prevLength, s`matchAvailable
    modifies s`tokens, s`blocks, s`blockStart, s`full, s.head, s.prev
    ensures s.Valid() && s.HashReady() && Lazy(s) && s.HasRoom()
    ensures s.strstart + s.lookahead == old(s.strstart + s.lookahead)
    ensures if old(s.prevLength) >= MIN_MATCH && old(s.matchLength) <= old(s.prevLength)
            then !s.matchAvailable && s.strstart == old(s.strstart) + old(s.prevLength) - 1
            else s.matchAvailable && s.strstart == old(s.strstart) + 1 && s.matchLength == old(s.matchLength)
  {
    hide Entered, State.Valid, State.HashReady, State.Tallied, State.Shows, State.Sizes, State.HasRoom, TrueMatch, Held;
    if s.prevLength >= MIN_MATCH && s.matchLength <= s.prevLength {
      HeldMeans(s, s.prevLength, prevMatch);
      var bflush := EmitMatch(s, prevMatch);
      s.ValidMeans();
      leave := s.FlushIf(bflush);
    } else if s.matchAvailable {
      EmitLiteral(s);
      leave := s.full;
    } else {
      Defer(s);
      leave := false;
    }
  }

  lemma HeldMeans(s: State, len: nat, start: int)
    requires Held(s, len, start) && len >= MIN_MATCH
    ensures s.matchAvailable && s.strstart >= 1
  {
  }

  // One position.
  method Step(s: State) returns (leave: bool)
    requires s.Valid() && s.HashReady() && Lazy(s) && s.HasRoom() && s.lookahead > 0
      && s.strstart + MIN_LOOKAHEAD <= s.window.Length
    modifies s`strstart, s`lookahead, s`insH, s`owner, s`top, s`matchStart, s`matchLength, s`prevLength,
      s`matchAvailable
    modifies s`tokens, s`blocks, s`blockStart, s`full, s.head, s.prev
    ensures s.Valid() && s.HashReady() && Lazy(s) && s.HasRoom() && s.lookahead < old(s.lookahead)
    ensures s.strstart + s.lookahead == old(s.strstart + s.lookahead)
    ensures s.matchAvailable
      ==> s.strstart == old(s.strstart) + 1 && (old(s.matchLength) >= MIN_MATCH ==> s.matchLength > old(s.matchLength))
    ensures !s.matchAvailable
      ==> old(s.matchLength) >= MIN_MATCH && s.strstart == old(s.strstart) + old(s.matchLength) - 1
  {
    hide Entered, State.Valid, State.HashReady, State.Tallied, State.Shows, State.Sizes, State.HasRoom, TrueMatch, Held,
      Candidate, ChainOf, Searched;
    var hashHead := InsertCurrent(s);
    var prevMatch := FindMatch(s, hashHead);
    leave := Decide(s, prevMatch);
  }

  // What a run leaves: everything read so far is accounted for, and when the
  // run is done every byte of the input is in a flushed block.
  ghost predicate Accounted(s: State, whole: seq<byte>, result: BlockState)
    reads s, s.window, s.head, s.prev
  {
    && s.Valid() && s.HashReady() && Lazy(s) && s.HasRoom() && s.data + s.input == whole
    && (result != NeedMore
      ==> s.input == [] && s.lookahead == 0 && !s.matchAvailable && s.tokens == [] && s.data == whole)
    && (result != NeedMore
      ==> Spell(AllTokens(s.blocks), whole, |whole|) && BlocksOk(s.blocks, whole))
    && (result == FinishStarted || result == FinishDone ==> s.blocks != [] && s.blocks[|s.blocks| - 1].last)
  }

  // The end of the input: the byte held back, and the strings left to insert.
  method LastByte(s: State)
    requires s.Valid() && s.HashReady() && Lazy(s) && s.HasRoom() && s.lookahead == 0
    modifies s`tokens, s`matchAvailable, s`insert
    ensures s.Valid() && s.HashReady() && Lazy(s) && !s.matchAvailable
  {
    hide Chained, Rolled, Update, Pow2, State.Tallied;
    if s.matchAvailable {
      var bflush := s.TallyLit(s.window[s.strstart - 1], s.base + s.strstart - 1);
      s.matchAvailable := false;
    }
    s.insert := if s.strstart < MIN_MATCH - 1 then s.strstart else MIN_MATCH - 1;
  }

  method FinishUp(s: State, flush: Flush) returns (result: BlockState)
    requires s.Valid() && s.HashReady() && Lazy(s) && s.HasRoom() && s.lookahead == 0 && s.input == []
    modifies s`tokens, s`blocks, s`blockStart, s`full, s`matchAvailable, s`insert
    ensures Accounted(s, s.data, result)
    ensures if flush == Finish then result == FinishStarted || result == FinishDone
            else result == NeedMore || result == BlockDone
  {
    hide Chained, Rolled, Update, Pow2, State.Tallied, TrueMatch, State.Linked, State.HashReady, Expand, Sound,
      BlocksOk;
    LastByte(s);
    result := BlockDone;
    if flush == Finish {
      s.FlushBlockOnly(true);
      result := if s.full then FinishStarted else FinishDone;
    } else if s.tokens != [] {
      s.FlushBlockOnly(false);
      if s.full { result := NeedMore; }
    }
    assert s.data + [] == s.data;
    AllFlushed(s);
  }

  // With nothing tallied since the last flush, the blocks hold everything.
  lemma AllFlushed(s: State)
    requires s.Tallied(|s.data|) && s.tokens == []
    ensures Spell(AllTokens(s.blocks), s.data, |s.data|) && BlocksOk(s.blocks, s.data)
  {
    assert AllTokens(s.blocks) + [] == AllTokens(s.blocks);
  }

  // deflate_slow
  method Deflate(s: State, flush: Flush) returns (result: BlockState)
    requires s.Valid() && s.HashReady() && Lazy(s) && s.HasRoom()
    modifies s, s.window, s.head, s.prev
    ensures Accounted(s, old(s.data) + old(s.input), result)
    ensures match result
            case NeedMore => true
            case BlockDone => flush == SyncFlush
            case _ => flush == Finish
  {
    hide Chained, Rolled, Update, Pow2, Expand, Sound, BlocksOk, TrueMatch, State.Tallied, State.Linked,
      State.HashReady;
    ghost var whole := s.data + s.input;
    while true
      invariant s.Valid() && s.HashReady() && Lazy(s) && s.HasRoom() && s.data + s.input == whole
      decreases s.lookahead + |s.input|
    {
      if s.lookahead < MIN_LOOKAHEAD {
        Refill(s);
        if s.lookahead < MIN_LOOKAHEAD && flush == NoFlush { return NeedMore; }
        if s.lookahead == 0 { break; }
      }
      var leave := Step(s);
      if leave { return NeedMore; }
    }
    assert s.data == whole;
    result := FinishUp(s, flush);
  }
}
