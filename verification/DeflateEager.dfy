// The two matchers of zlib's deflate.c that take a match at once: deflate_fast,
// with hash chains, and deflate_rle, which only looks for runs of one byte.
module DeflateEager {
  import opened Bits
  import opened RollingHash
  import opened HashChains
  import opened Lz77
  import opened DeflateState
  import opened LongestMatch
  import opened DeflateSlow

  // Everything up to strstart has been tallied.
  ghost predicate Eager(s: State)
    reads s`base, s`strstart, s`matchAvailable, s`data, s`tokens, s`blocks, s`blockStart
  {
    !s.matchAvailable && s.Tallied(s.base + s.strstart)
  }

  // What deflate_fast keeps between positions.
  ghost predicate Quick(s: State)
    reads s, s.window, s.head, s.prev
  {
    s.Valid() && s.HashReady() && Eager(s) && s.HasRoom() && s.matchLength < MIN_MATCH && s.prevLength == MIN_MATCH - 1
  }

  // What a run leaves: everything read is accounted for, and when the run is
  // done every byte of the input is in a flushed block.
  ghost predicate Covered(s: State, whole: seq<byte>, result: BlockState)
    reads s, s.window, s.head, s.prev
  {
    && s.Valid() && Eager(s) && s.HasRoom() && s.data + s.input == whole
    && (result != NeedMore ==> s.input == [] && s.lookahead == 0 && s.tokens == [] && s.data == whole)
    && (result != NeedMore
      ==> Spell(AllTokens(s.blocks), whole, |whole|) && BlocksOk(s.blocks, whole))
    && (result == FinishStarted || result == FinishDone ==> s.blocks != [] && s.blocks[|s.blocks| - 1].last)
  }

  method Refill(s: State)
    requires s.Valid() && Eager(s) && s.lookahead < MIN_LOOKAHEAD
    modifies s`strstart, s`lookahead, s`insH, s`insert, s`matchStart, s`blockStart, s`highWater, s`input
    modifies s`base, s`data, s`owner, s`top, s.window, s.head, s.prev
    ensures s.Valid() && (old(s.HashReady()) ==> s.HashReady()) && Eager(s)
      && s.strstart <= s.window.Length - MIN_LOOKAHEAD
    ensures s.data + s.input == old(s.data) + old(s.input)
      && s.lookahead + |s.input| == old(s.lookahead) + |old(s.input)|
    ensures (s.lookahead < MIN_LOOKAHEAD ==> s.input == []) && s.insert <= old(s.insert)
  {
    hide Chained, Rolled, Update, Pow2, Expand, Sound, BlocksOk;
    ghost var d, n := s.data, s.base + s.strstart;
    s.FillWindow();
    SpellMore(AllTokens(s.blocks) + s.tokens, d, s.data, n);
    BlocksOkMore(s.blocks, d, s.data);
  }

  method FinishUp(s: State, flush: Flush, insert: nat) returns (result: BlockState)
    requires s.Valid() && Eager(s) && s.HasRoom() && s.lookahead == 0 && s.input == [] && insert < MIN_MATCH
      && insert <= s.strstart
    modifies s`tokens, s`blocks, s`blockStart, s`full, s`insert
    ensures Covered(s, s.data, result) && (old(s.HashReady()) ==> s.HashReady()) && s.insert == insert
    ensures match result
            case NeedMore => flush != Finish
            case BlockDone => flush != Finish
            case _ => flush == Finish
  {
    hide Chained, Rolled, Update, Pow2, State.Tallied, Expand, Sound, BlocksOk;
    s.insert := insert;
    result := BlockDone;
    if flush == Finish {
      s.FlushBlockOnly(true);
      result := if s.full then FinishStarted else FinishDone;
    } else if s.tokens != [] {
      s.FlushBlockOnly(false);
      if s.full { result := NeedMore; }
    }
    assert s.data + [] == s.data;
    AllFlushed(s);
  }

  // ---------------------------------------------------------------------
  // deflate_fast
  // ---------------------------------------------------------------------

  // Insert the next count strings, all of which have their three bytes.
  method InsertAll(s: State, count: nat)
    requires s.Sizes() && |s.owner| == s.wsize && Chained(s.window[..], s.Links(), s.hashBits)
    requires s.top <= s.strstart && s.strstart + count + 2 < s.window.Length
    requires Rolled(s.hashBits, s.insH, s.window[s.strstart + 1], s.window[s.strstart + 2])
    modifies s`strstart, s`matchLength, s`insH, s`owner, s`top, s.head, s.prev
    ensures s.strstart == old(s.strstart) + count && |s.owner| == s.wsize
      && Chained(s.window[..], s.Links(), s.hashBits)
    ensures s.top <= s.strstart && s.matchLength == 0 && (count > 0 ==> s.top == s.strstart)
    ensures Rolled(s.hashBits, s.insH, s.window[s.strstart + 1], s.window[s.strstart + 2])
  {
    hide Chained, Rolled, Update, Pow2;
    s.matchLength := count;
    while s.matchLength > 0
      invariant s.matchLength <= count && s.strstart == old(s.strstart) + (count - s.matchLength)
      invariant |s.owner| == s.wsize && Chained(s.window[..], s.Links(), s.hashBits) && s.top <= s.strstart
      invariant s.matchLength < count ==> s.top == s.strstart
      invariant Rolled(s.hashBits, s.insH, s.window[s.strstart + 1], s.window[s.strstart + 2])
    {
      s.strstart := s.strstart + 1;
      var m := s.InsertString(s.strstart);
      s.matchLength := s.matchLength - 1;
    }
  }

  // The current byte as a literal.
  method TallyCurrent(s: State) returns (bflush: bool)
    requires s.Shows() && s.lookahead > 0 && s.HasRoom() && Eager(s)
    modifies s`tokens
    ensures s.Tallied(s.base + s.strstart + 1) && (bflush <==> !s.HasRoom())
  {
    hide State.Tallied;
    bflush := s.TallyLit(s.window[s.strstart], s.base + s.strstart);
  }

  // Pass over a match: insert all its strings, or start the hash afresh behind it.
  method PassMatch(s: State)
    requires Entered(s) && s.strstart + MIN_LOOKAHEAD <= s.window.Length && MIN_MATCH <= s.matchLength <= MAX_MATCH
      && s.matchLength <= s.lookahead
    modifies s`lookahead, s`matchLength, s`strstart, s`insH, s`owner, s`top, s.head, s.prev
    ensures s.Valid() && s.HashReady() && s.matchLength == 0
    ensures s.lookahead == old(s.lookahead) - old(s.matchLength) && s.strstart == old(s.strstart) + old(s.matchLength)
    ensures old(s.matchLength) <= s.maxLazy && s.lookahead >= MIN_MATCH ==> s.top + 1 == s.strstart
  {
    hide Chained, Rolled, Update, Pow2, State.Links;
    s.lookahead := s.lookahead - s.matchLength;
    if s.matchLength <= s.maxLazy && s.lookahead >= MIN_MATCH {
      InsertAll(s, s.matchLength - 1);
      s.strstart := s.strstart + 1;
    } else {
      SkipMatch(s);
    }
  }

  // Start the hash afresh behind the match.
  method SkipMatch(s: State)
    requires s.Sizes() && s.strstart + MIN_LOOKAHEAD <= s.window.Length && MIN_MATCH <= s.matchLength <= MAX_MATCH
    modifies s`matchLength, s`strstart, s`insH
    ensures s.strstart == old(s.strstart) + old(s.matchLength) && s.matchLength == 0
    ensures Rolled(s.hashBits, s.insH, s.window[s.strstart], s.window[s.strstart + 1])
  {
    hide Rolled, Update, Pow2;
    s.strstart := s.strstart + s.matchLength;
    s.matchLength := 0;
    s.insH := s.window[s.strstart];
    s.insH := Update(s.hashBits, s.insH, s.window[s.strstart + 1]);
    RolledAfresh(s.hashBits, s.window[s.strstart], s.window[s.strstart + 1]);
  }

  // Tally a match and pass over it.
  method TakeMatch(s: State) returns (bflush: bool)
    requires Entered(s) && Eager(s) && s.HasRoom() && s.strstart + MIN_LOOKAHEAD <= s.window.Length
      && MIN_MATCH <= s.matchLength <= MAX_MATCH
    requires s.matchLength <= s.lookahead
      && TrueMatch(s.data, s.base + s.strstart, s.strstart - s.matchStart, s.matchLength)
    requires s.strstart - s.matchStart <= 0x8000
    modifies s`tokens, s`lookahead, s`matchLength, s`strstart, s`insH, s`owner, s`top, s.head, s.prev
    ensures s.Valid() && s.HashReady() && Eager(s) && (bflush <==> !s.HasRoom()) && s.matchLength < MIN_MATCH
    ensures s.lookahead < old(s.lookahead) && s.strstart + s.lookahead == old(s.strstart + s.lookahead)
    ensures s.tokens == old(s.tokens) + [Match(old(s.strstart) - s.matchStart, old(s.matchLength))]
  {
    hide Entered, State.Valid, State.HashReady, State.Tallied;
    bflush := s.TallyDist(s.strstart - s.matchStart, s.matchLength - MIN_MATCH, s.base + s.strstart);
    PassMatch(s);
  }

  // The search at the current position.
  method FindFast(s: State, hashHead: nat)
    requires Entered(s) && s.matchLength < MIN_MATCH && s.prevLength == MIN_MATCH - 1
      && s.strstart + MIN_LOOKAHEAD <= s.window.Length
    requires hashHead != 0
      ==> s.lookahead >= MIN_MATCH
          && (s.strstart - hashHead <= s.MaxDist() ==> Candidate(s, hashHead) && ChainOf(s, hashHead))
    modifies s`matchLength, s`matchStart
    ensures if hashHead != 0 && s.strstart - hashHead <= s.MaxDist() then
              exists best: nat, steps: nat :: Searched(s, hashHead, best, steps)
                && s.matchLength == if best <= s.lookahead then best else s.lookahead
            else s.matchLength == old(s.matchLength)
    ensures s.matchLength <= MAX_MATCH
    ensures s.matchLength >= MIN_MATCH
      ==> s.matchLength <= s.lookahead && s.strstart - s.matchStart <= 0x8000
          && TrueMatch(s.data, s.base + s.strstart, s.strstart - s.matchStart, s.matchLength)
  {
    hide Entered, Candidate, ChainOf, TrueMatch, Searched, Pow2;
    EnteredMeans(s);
    if hashHead != 0 && s.strstart - hashHead <= s.MaxDist() {
      ghost var best, steps;
      s.matchLength, best, steps := Longest(s, hashHead);
      assert Searched(s, hashHead, best, steps);
    }
  }

  // A whole match or a literal, and the end of the block if it is full.
  method FastToken(s: State) returns (leave: bool)
    requires Entered(s) && Eager(s) && s.HasRoom() && s.lookahead > 0 && s.matchLength <= MAX_MATCH
      && s.strstart + MIN_LOOKAHEAD <= s.window.Length
    requires s.matchLength >= MIN_MATCH
      ==> s.matchLength <= s.lookahead && s.strstart - s.matchStart <= 0x8000
          && TrueMatch(s.data, s.base + s.strstart, s.strstart - s.matchStart, s.matchLength)
    modifies s`tokens, s`blocks, s`blockStart, s`full, s`lookahead, s`matchLength, s`strstart, s`insH, s`owner, s`top,
      s.head, s.prev
    ensures s.Valid() && s.HashReady() && Eager(s) && s.HasRoom() && s.matchLength < MIN_MATCH
    ensures s.lookahead < old(s.lookahead) && s.strstart + s.lookahead == old(s.strstart + s.lookahead)
  {
    hide Entered, State.Valid, State.HashReady, State.Tallied, State.Shows, State.Sizes, State.HasRoom, TrueMatch;
    var bflush;
    if s.matchLength >= MIN_MATCH {
      bflush := TakeMatch(s);
    } else {
      EnteredMeans(s);
      ghost var n := s.base + s.strstart + 1;
      bflush := TallyCurrent(s);
      Advance(s);
      assert n == s.base + s.strstart;
    }
    s.ValidMeans();
    leave := s.FlushIf(bflush);
  }

  // One position.
  method FastStep(s: State) returns (leave: bool)
    requires Quick(s) && s.lookahead > 0 && s.strstart + MIN_LOOKAHEAD <= s.window.Length
    modifies s`strstart, s`lookahead, s`insH, s`owner, s`top, s`matchStart, s`matchLength, s`tokens, s`blocks,
      s`blockStart, s`full, s.head, s.prev
    ensures Quick(s) && s.lookahead < old(s.lookahead) && s.strstart + s.lookahead == old(s.strstart + s.lookahead)
  {
    hide Entered, State.Valid, State.HashReady, State.Tallied, State.Shows, State.Sizes, State.HasRoom, TrueMatch,
      Candidate, ChainOf, Searched;
    var hashHead := InsertCurrent(s);
    FindFast(s, hashHead);
    leave := FastToken(s);
  }

  method DeflateFast(s: State, flush: Flush) returns (result: BlockState)
    requires Quick(s)
    modifies s, s.window, s.head, s.prev
    ensures Covered(s, old(s.data) + old(s.input), result) && Quick(s)
    ensures match result
            case NeedMore => true
            case BlockDone => flush == SyncFlush
            case _ => flush == Finish
  {
    hide Chained, Rolled, Update, Pow2, Expand, Sound, BlocksOk, State.Tallied, State.Linked, State.HashReady;
    ghost var whole := s.data + s.input;
    while true
      invariant Quick(s) && s.data + s.input == whole
      decreases s.lookahead + |s.input|
    {
      if s.lookahead < MIN_LOOKAHEAD {
        Refill(s);
        if s.lookahead < MIN_LOOKAHEAD && flush == NoFlush { return NeedMore; }
        if s.lookahead == 0 { break; }
      }
      var leave := FastStep(s);
      if leave { return NeedMore; }
    }
    assert s.data == whole;
    result := FinishUp(s, flush, if s.strstart < MIN_MATCH - 1 then s.strstart else MIN_MATCH - 1);
  }

  // ---------------------------------------------------------------------
  // deflate_rle
  // ---------------------------------------------------------------------

  // The first n bytes at scan are all c.
  ghost predicate AllAre(w: seq<byte>, scan: nat, c: byte, n: nat)
  {
    scan + n <= |w| && forall i :: scan <= i < scan + n ==> w[i] == c
  }

  method EightOf(w: array<byte>, scan: nat, c: byte, n0: nat) returns (n: nat, same: bool)
    requires scan + n0 + 8 < w.Length && AllAre(w[..], scan, c, n0 + 1)
    ensures n0 < n <= n0 + 8 && AllAre(w[..], scan, c, n)
      && (if same then n == n0 + 8 && AllAre(w[..], scan, c, n + 1) else w[scan + n] != c)
  {
    n, same := n0, true;
    var tries := 0;
    while same && tries < 8
      invariant 0 <= tries <= 8 && n == n0 + tries && (same ==> AllAre(w[..], scan, c, n + 1))
      invariant !same ==> tries > 0 && AllAre(w[..], scan, c, n) && w[scan + n] != c
    {
      n := n + 1;
      tries := tries + 1;
      same := w[scan + n] == c;
    }
  }

  // How long the run at strstart of the byte before it is, up to MAX_MATCH and the lookahead; 0 if it is under three.
  method RunLength(s: State) returns (len: nat)
    requires s.Sizes() && s.Shows() && s.strstart + MAX_MATCH < s.window.Length
    ensures len <= MAX_MATCH && len <= s.lookahead && (len == 0 || len >= MIN_MATCH)
    ensures len > 0 ==> s.strstart > 0 && AllAre(s.window[..], s.strstart - 1, s.window[s.strstart - 1], len + 1)
    ensures 0 < len < MAX_MATCH && len < s.lookahead ==> s.window[s.strstart + len] != s.window[s.strstart - 1]
    ensures len == 0
      ==> s.lookahead < MIN_MATCH || s.strstart == 0
          || !AllAre(s.window[..], s.strstart - 1, s.window[s.strstart - 1], 4)
  {
    hide Pow2;
    len := 0;
    if s.lookahead >= MIN_MATCH && s.strstart > 0 {
      var w, scan := s.window, s.strstart;
      var c := w[scan - 1];
      if c == w[scan] && c == w[scan + 1] && c == w[scan + 2] {
        var same := true;
        len := 2;
        while same && len < MAX_MATCH
          invariant 2 <= len <= MAX_MATCH && AllAre(w[..], scan, c, len)
          invariant if same then (MAX_MATCH - len) % 8 == 0 && AllAre(w[..], scan, c, len + 1)
                    else 3 <= len && w[scan + len] != c
          decreases MAX_MATCH - len, if same then 1 else 0
        {
          len, same := EightOf(w, scan, c, len);
        }
        if len > s.lookahead { len := s.lookahead; }
      }
    }
  }

  lemma RunIsMatch(s: State, len: nat)
    requires s.Shows() && s.strstart > 0 && len <= s.lookahead
    requires AllAre(s.window[..], s.strstart - 1, s.window[s.strstart - 1], len + 1)
    ensures TrueMatch(s.data, s.base + s.strstart, 1, len)
  {
    var p := s.base + s.strstart;
    forall k | p <= k < p + len ensures s.data[k] == s.data[k - 1] {
      var i := k - s.base;
      assert s.window[i] == s.data[s.base + i] && s.window[i - 1] == s.data[s.base + (i - 1)];
      assert s.window[..][i] == s.window[..][i - 1];
    }
  }

  ghost predicate Plain(s: State)
    reads s, s.window, s.head, s.prev
  {
    s.Valid() && Eager(s) && s.HasRoom() && s.insert == 0
  }

  method PassRun(s: State, len: nat)
    requires s.Valid() && s.insert == 0 && len <= s.lookahead
    modifies s`strstart, s`lookahead
    ensures s.Valid() && s.strstart == old(s.strstart) + len && s.lookahead == old(s.lookahead) - len
  {
    hide Chained, Pow2;
    s.lookahead := s.lookahead - len;
    s.strstart := s.strstart + len;
  }

  // The run as a match, or one byte as a literal.
  method RleToken(s: State) returns (bflush: bool)
    requires Plain(s) && s.lookahead > 0 && s.matchLength <= s.lookahead && s.matchLength <= MAX_MATCH
    requires s.matchLength >= MIN_MATCH
      ==> s.strstart > 0 && AllAre(s.window[..], s.strstart - 1, s.window[s.strstart - 1], s.matchLength + 1)
    modifies s`strstart, s`lookahead, s`matchLength, s`tokens
    ensures s.Valid() && Eager(s) && s.insert == 0 && (bflush <==> !s.HasRoom())
    ensures s.lookahead < old(s.lookahead) && s.strstart + s.lookahead == old(s.strstart + s.lookahead)
  {
    hide State.Valid, State.Tallied, State.Shows, State.Sizes, State.HasRoom, TrueMatch, AllAre;
    s.ValidMeans();
    ghost var n := s.base + s.strstart;
    if s.matchLength >= MIN_MATCH {
      RunIsMatch(s, s.matchLength);
      bflush := s.TallyDist(1, s.matchLength - MIN_MATCH, s.base + s.strstart);
      ghost var len := s.matchLength;
      PassRun(s, s.matchLength);
      s.matchLength := 0;
      assert n + len == s.base + s.strstart;
    } else {
      bflush := TallyCurrent(s);
      PassRun(s, 1);
      assert n + 1 == s.base + s.strstart;
    }
  }

  method RleStep(s: State) returns (leave: bool)
    requires Plain(s) && s.lookahead > 0 && s.strstart + MAX_MATCH < s.window.Length
    modifies s`strstart, s`lookahead, s`matchLength, s`tokens, s`blocks, s`blockStart, s`full
    ensures Plain(s) && s.lookahead < old(s.lookahead) && s.strstart + s.lookahead == old(s.strstart + s.lookahead)
  {
    hide State.Valid, State.Tallied, State.Shows, State.Sizes, State.HasRoom, TrueMatch, AllAre;
    s.ValidMeans();
    s.matchLength := RunLength(s);
    var bflush := RleToken(s);
    s.ValidMeans();
    leave := s.FlushIf(bflush);
  }

  method DeflateRle(s: State, flush: Flush) returns (result: BlockState)
    requires Plain(s)
    modifies s, s.window, s.head, s.prev
    ensures Covered(s, old(s.data) + old(s.input), result) && Plain(s)
    ensures match result
            case NeedMore => true
            case BlockDone => flush == SyncFlush
            case _ => flush == Finish
  {
    hide Chained, Rolled, Update, Pow2, Expand, Sound, BlocksOk, State.Tallied, State.HashReady;
    ghost var whole := s.data + s.input;
    while true
      invariant Plain(s) && s.data + s.input == whole
      decreases s.lookahead + |s.input|
    {
      if s.lookahead <= MAX_MATCH {
        Refill(s);
        if s.lookahead <= MAX_MATCH && flush == NoFlush { return NeedMore; }
        if s.lookahead == 0 { break; }
      }
      var leave := RleStep(s);
      if leave { return NeedMore; }
    }
    assert s.data == whole;
    result := FinishUp(s, flush, 0);
  }
}
