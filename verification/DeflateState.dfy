// The state of zlib's deflate.c that the matchers share: the sliding window,
// the hash chains, the input and the tokens tallied. Positions in the window
// slide; the data they stand for does not.
module DeflateState {
  import opened Bits
  import opened RollingHash
  import opened HashChains
  import opened Lz77

  const MIN_MATCH: nat := 3
  const MAX_MATCH: nat := 258
  const MIN_LOOKAHEAD: nat := 262      // MAX_MATCH + MIN_MATCH + 1
  const WIN_INIT: nat := 258

  // A block given to _tr_flush_block: its tokens, stored_len, and the bytes at
  // buf when the block is still in the window.
  datatype Block = Block(tokens: seq<Token>, storedLen: int, stored: Stored, last: bool)
  datatype Stored = InWindow(bytes: seq<byte>) | Gone

  ghost function AllTokens(blocks: seq<Block>): seq<Token>
  {
    if blocks == [] then [] else AllTokens(blocks[..|blocks| - 1]) + blocks[|blocks| - 1].tokens
  }

  // Every block's stored_len and stored bytes are those its tokens expand to.
  ghost predicate BlocksOk(blocks: seq<Block>, data: seq<byte>)
  {
    blocks == [] ||
    var before, b := Expand(AllTokens(blocks[..|blocks| - 1])), blocks[|blocks| - 1];
    && BlocksOk(blocks[..|blocks| - 1], data)
    && b.storedLen == |Expand(AllTokens(blocks))| - |before|
    && |before| <= |Expand(AllTokens(blocks))| <= |data|
    && (b.stored.InWindow? ==> b.stored.bytes == data[|before|..|Expand(AllTokens(blocks))|])
  }

  lemma {:induction false} BlocksOkMore(blocks: seq<Block>, data: seq<byte>, data': seq<byte>)
    requires BlocksOk(blocks, data) && data <= data'
    ensures BlocksOk(blocks, data')
  {
    if blocks != [] { BlocksOkMore(blocks[..|blocks| - 1], data, data'); }
  }

  class State {
    const wsize: nat
    const hashBits: nat
    const litBufsize: nat
    const window: array<byte>
    const prev: array<nat>
    const head: array<nat>

    const maxLazy: nat
    const goodMatch: nat
    const niceMatch: nat
    const maxChain: nat
    const filtered: bool          // strategy == Z_FILTERED

    var strstart: nat
    var lookahead: nat
    var insH: nat
    var insert: nat
    var blockStart: int
    var matchStart: int           // may go below zero when the window slides
    var matchLength: nat
    var prevLength: nat
    var matchAvailable: bool
    var highWater: nat
    var input: seq<byte>          // the avail_in bytes at next_in
    var full: bool                // avail_out == 0
    var tokens: seq<Token>        // tallied in the current block
    var blocks: seq<Block>        // flushed

    ghost var base: nat           // what window[0] is in the data
    ghost var data: seq<byte>     // everything read
    ghost var owner: seq<int>
    ghost var top: int

    ghost predicate Sizes()
    {
      && 8 <= hashBits && 512 <= wsize <= 0x8000 && window.Length == 2 * wsize && prev.Length == wsize
        && head.Length == Pow2(hashBits)
      && prev != head && 2 <= litBufsize && niceMatch <= MAX_MATCH && 4 <= maxChain
    }

    // The window shows the data.
    ghost predicate Shows()
      reads this`strstart, this`lookahead, this`base, this`data, window
    {
      && strstart + lookahead <= window.Length && base + strstart + lookahead == |data|
      && forall i :: 0 <= i < strstart + lookahead ==> window[i] == data[base + i]
    }

    ghost function Links(): Chains
      reads this`owner, this`top, head, prev
    {
      Chains(head[..], prev[..], owner, top)
    }

    ghost predicate Linked()
      reads this`strstart, this`lookahead, this`owner, this`top, this`insert, window, head, prev
    {
      && |owner| == wsize && Chained(window[..], Links(), hashBits)
      && top < strstart - insert && top + 2 < strstart + lookahead <= window.Length && insert <= strstart
        && insert < MIN_MATCH
    }

    // The hash is ready for the string at strstart whenever there is one.
    ghost predicate HashReady()
      reads this`strstart, this`lookahead, this`insH, this`insert, window
    {
      && (lookahead >= MIN_MATCH && strstart + 1 < window.Length
        ==> Rolled(hashBits, insH, window[strstart], window[strstart + 1]))
      && (insert > 0 ==> lookahead + insert < MIN_MATCH)
    }

    // Everything tallied stands for the data up to n.
    ghost predicate Tallied(n: nat)
      reads this`tokens, this`blocks, this`data, this`base, this`blockStart
    {
      && Spell(AllTokens(blocks) + tokens, data, n)
      && BlocksOk(blocks, data) && Sound(AllTokens(blocks)) && base + blockStart == |Expand(AllTokens(blocks))|
    }

    // The arrays of the current block take another token.
    ghost predicate HasRoom()
      reads this`tokens
    {
      |tokens| + 1 < litBufsize
    }

    ghost predicate Valid()
      reads this`strstart, this`lookahead, this`base, this`data, this`owner, this`top, this`insert, window, head, prev
    {
      Sizes() && Shows() && Linked()
    }

    lemma ValidMeans()
      requires Valid()
      ensures Sizes() && Shows()
    {
    }

    // The byte at a position before the end of the data.
    lemma ShownAt(i: nat)
      requires Shows() && i < strstart + lookahead
      ensures i < window.Length && base + i < |data| && window[i] == data[base + i]
    {
    }

    // lm_init and the allocations of deflateInit2_: window and prev hold what they happen to hold.
    constructor (wsize: nat, hashBits: nat, litBufsize: nat, maxLazy: nat, goodMatch: nat, niceMatch: nat,
      maxChain: nat, filtered: bool)
      requires 8 <= hashBits && 512 <= wsize <= 0x8000 && 2 <= litBufsize && niceMatch <= MAX_MATCH && 4 <= maxChain
      ensures Valid() && HashReady() && Tallied(0) && HasRoom() && data == [] && !matchAvailable
        && matchLength == prevLength == MIN_MATCH - 1
      ensures lookahead == 0 && blocks == [] && tokens == [] && base == 0 && strstart == 0
      ensures fresh(window) && fresh(head) && fresh(prev)
    {
      this.wsize, this.hashBits, this.litBufsize := wsize, hashBits, litBufsize;
      this.maxLazy, this.goodMatch, this.niceMatch, this.maxChain, this.filtered := maxLazy, goodMatch, niceMatch,
        maxChain, filtered;
      window := new byte[2 * wsize];
      prev := new nat[wsize];
      head := new nat[Pow2(hashBits)](_ => 0);
      strstart, lookahead, insH, insert, blockStart, matchStart := 0, 0, 0, 0, 0, 0;
      matchLength, prevLength, matchAvailable, highWater := MIN_MATCH - 1, MIN_MATCH - 1, false, 0;
      input, full, tokens, blocks := [], false, [], [];
      base, data, owner, top := 0, [], seq(wsize, i => i - wsize), -3;
      new;
      EmptyChains(window[..], Links(), hashBits);
    }

    // INSERT_STRING: the string at str becomes the head of its chain.
    method InsertString(str: nat) returns (matchHead: nat)
      requires Sizes() && |owner| == wsize && Chained(window[..], Links(), hashBits) && top < str
        && str + 2 < window.Length
      requires Rolled(hashBits, insH, window[str], window[str + 1])
      modifies this`insH, this`owner, this`top, head, prev
      ensures |owner| == wsize && Chained(window[..], Links(), hashBits) && top == str
      ensures insH == HashAt(window[..], hashBits, str) && matchHead == old(head[..])[insH]
      ensures Rolled(hashBits, insH, window[str + 1], window[str + 2])
      ensures Links() == WithString(old(Links()), str, insH)
    {
      hide Rolled, Chained, Update, Pow2;
      var pos := str % 0x1_0000;                                 // (Pos)str
      ghost var c := Links();
      RolledMeans(hashBits, insH, window[str], window[str + 1], window[str + 2]);
      insH := Update(hashBits, insH, window[str + 2]);
      InsertKeeps(window[..], c, hashBits, str, insH);
      RolledOn(hashBits, window[str], window[str + 1], window[str + 2]);
      matchHead := head[insH];
      prev[str % wsize] := matchHead;
      head[insH] := pos;
      owner, top := owner[str % wsize := str], str;
      assert Links() == WithString(c, str, insH);
    }

    // _tr_tally_lit; flush is set when the block is full.
    method TallyLit(c: byte, ghost n: nat) returns (flush: bool)
      requires Tallied(n) && n < |data| && c == data[n] && HasRoom()
      modifies this`tokens
      ensures Tallied(n + 1) && tokens == old(tokens) + [Literal(c)] && (flush <==> !HasRoom())
    {
      hide Spell, BlocksOk, Sound, Expand;
      SpellLiteral(AllTokens(blocks) + tokens, data, n);
      assert AllTokens(blocks) + (tokens + [Literal(c)]) == AllTokens(blocks) + tokens + [Literal(c)];
      tokens := tokens + [Literal(c)];
      flush := |tokens| == litBufsize - 1;
    }

    // _tr_tally_dist, given the length less three. Neither part of the token is cut off.
    method TallyDist(distance: nat, length: nat, ghost n: nat) returns (flush: bool)
      requires Tallied(n) && TrueMatch(data, n, distance, length + MIN_MATCH) && HasRoom()
      requires distance <= 0x8000 && length + MIN_MATCH <= MAX_MATCH
      modifies this`tokens
      ensures Tallied(n + length + MIN_MATCH) && tokens == old(tokens) + [Match(distance, length + MIN_MATCH)]
        && (flush <==> !HasRoom())
    {
      hide Spell, BlocksOk, Sound, Expand, TrueMatch;
      var dist, len := distance % 0x1_0000, length % 0x100 + MIN_MATCH;
      SpellMatch(AllTokens(blocks) + tokens, data, n, dist, len);
      assert AllTokens(blocks) + (tokens + [Match(dist, len)]) == AllTokens(blocks) + tokens + [Match(dist, len)];
      tokens := tokens + [Match(dist, len)];
      flush := |tokens| == litBufsize - 1;
    }

    // The buf argument of _tr_flush_block: the block's bytes, if the window still has them all.
    method StoredBytes() returns (stored: Stored)
      requires Sizes() && Shows() && Tallied(base + strstart)
      ensures blockStart <= strstart && (stored.InWindow? <==> blockStart >= 0)
      ensures stored.InWindow? ==> base + strstart <= |data| && stored.bytes == data[base + blockStart..base + strstart]
    {
      hide BlocksOk, Sound, Expand, AllTokens, Pow2;
      ExpandPrefix(AllTokens(blocks), tokens);
      assert |data[..base + strstart]| == base + strstart;
      stored := Gone;
      if blockStart >= 0 {
        stored := InWindow(window[blockStart..strstart]);
        SameSlice(window[..], data, base, blockStart, strstart);
        assert window[..][blockStart..strstart] == window[blockStart..strstart];
      }
    }

    // FLUSH_BLOCK_ONLY. What flush_pending leaves of the output space is not known here.
    method FlushBlockOnly(last: bool)
      requires Sizes() && Shows() && Tallied(base + strstart)
      modifies this`tokens, this`blocks, this`blockStart, this`full
      ensures Tallied(base + strstart) && tokens == [] && blockStart == strstart
      ensures |blocks| == |old(blocks)| + 1 && blocks[..|old(blocks)|] == old(blocks)
      ensures blocks[|blocks| - 1].tokens == old(tokens) && blocks[|blocks| - 1].last == last
    {
      hide Spell, BlocksOk, Sound, Expand, AllTokens, Shows, Pow2;
      var stored := StoredBytes();
      var b := Block(tokens, strstart - blockStart, stored, last);
      FlushKeeps(blocks, tokens, b, data, base + strstart);
      blocks := blocks + [b];
      tokens := [];
      assert AllTokens(blocks) + [] == AllTokens(blocks);
      blockStart := strstart;
      var outputSpaceLeft: bool := *;
      full := !outputSpaceLeft;
    }

    // if (bflush) FLUSH_BLOCK(s, 0); leave is the return for want of output space.
    method FlushIf(bflush: bool) returns (leave: bool)
      requires Sizes() && Shows() && Tallied(base + strstart) && (bflush <==> !HasRoom())
      modifies this`tokens, this`blocks, this`blockStart, this`full
      ensures Tallied(base + strstart) && HasRoom()
      ensures if bflush then tokens == [] && leave == full && |blocks| == |old(blocks)| + 1
        && blocks[|old(blocks)|].tokens == old(tokens)
              else !leave && tokens == old(tokens) && blocks == old(blocks)
    {
      hide Tallied, Shows;
      leave := false;
      if bflush {
        FlushBlockOnly(false);
        leave := full;
      }
    }

    // The largest match distance, MAX_DIST.
    function MaxDist(): nat
      requires 512 <= wsize
    {
      wsize - MIN_LOOKAHEAD
    }

    // read_buf: as much input as there is room for.
    method ReadBuf(more: nat) returns (n: nat)
      requires Valid() && strstart + lookahead + more <= window.Length
      modifies this`input, this`lookahead, this`data, window
      ensures Valid() && n == (if |old(input)| < more then |old(input)| else more)
      ensures lookahead == old(lookahead) + n && input == old(input)[n..] && data == old(data) + old(input)[..n]
    {
      hide Chained, Pow2;
      n := if |input| < more then |input| else more;
      ghost var w := window[..];
      CopyInput(window, strstart + lookahead, input, n);
      ChainedFrame(w, window[..], Links(), hashBits);
      data := data + input[..n];
      input := input[n..];
      lookahead := lookahead + n;
    }

    // The positions in head[] and prev[] follow the window.
    method SlideHash()
      requires Sizes() && |owner| == wsize
      modifies this`owner, this`top, head, prev
      ensures Links() == Slid(old(Links())) && |owner| == wsize && top == old(top) - wsize
    {
      ghost var c := Links();
      SlideTable(head, wsize);
      SlideTable(prev, wsize);
      owner, top := Slid(c).owner, top - wsize;
      assert Links() == Slid(c);
    }

    // Move the upper half of the window to the lower one, and the chains with it.
    method Slide()
      requires Valid() && strstart >= wsize + MaxDist()
      modifies this`strstart, this`matchStart, this`blockStart, this`base, this`owner, this`top, window, head, prev
      ensures Valid() && strstart == old(strstart) - wsize && base == old(base) + wsize
      ensures matchStart == old(matchStart) - wsize && blockStart == old(blockStart) - wsize
      ensures top == old(top) - wsize
    {
      hide Chained, Pow2, HashAt, Slid;
      ghost var w, c := window[..], Links();
      MoveDown(window, wsize);
      SlideKeeps(w, window[..], c, hashBits);
      matchStart := matchStart - wsize;
      strstart := strstart - wsize;
      blockStart := blockStart - wsize;
      SlideHash();
      base := base + wsize;
    }

    // Compute ins_h afresh and insert the strings that could not be inserted before.
    method RestartHash()
      requires Valid()
      modifies this`insH, this`insert, this`owner, this`top, head, prev
      ensures Valid() && HashReady() && insert <= old(insert) && (insert < old(insert) ==> top + 1 == strstart - insert)
    {
      hide Chained, Rolled, Update, Pow2, State.Links;
      if lookahead + insert >= MIN_MATCH {
        var str := strstart - insert;
        insH := window[str];
        insH := Update(hashBits, insH, window[str + 1]);
        RolledAfresh(hashBits, window[str], window[str + 1]);
        InsertLeft(str);
      }
    }

    // Insert the strings that had to wait for more input.
    method InsertLeft(str0: nat)
      requires Valid() && lookahead + insert >= MIN_MATCH && str0 == strstart - insert
      requires str0 + 1 < window.Length && Rolled(hashBits, insH, window[str0], window[str0 + 1])
      modifies this`insH, this`insert, this`owner, this`top, head, prev
      ensures Valid() && HashReady() && insert <= old(insert) && (insert < old(insert) ==> top + 1 == strstart - insert)
    {
      hide Chained, Rolled, Update, Pow2, State.Links;
      var str := str0;
      while insert > 0
        invariant Valid() && str == strstart - insert && insert <= old(insert)
        invariant str + 1 < window.Length && Rolled(hashBits, insH, window[str], window[str + 1])
        invariant insert > 0 ==> lookahead + insert >= MIN_MATCH
        invariant insert < old(insert) ==> top + 1 == str
        decreases insert
      {
        var m := InsertString(str);
        str := str + 1;
        insert := insert - 1;
        if lookahead + insert < MIN_MATCH { break; }
      }
    }

    // Clear the bytes from the end of the data or from the last mark on, as far as a match search can read.
    method ClearFrom(curr: nat)
      requires curr <= window.Length
      modifies this`highWater, window
      ensures forall i :: 0 <= i < window.Length && (i < curr || i < old(highWater)) ==> window[i] == old(window[i])
      ensures highWater >= old(highWater) && (highWater >= window.Length || highWater >= curr + WIN_INIT)
      ensures forall i :: curr <= i < highWater && old(highWater) <= i < window.Length ==> window[i] == 0
    {
      if highWater < window.Length {
        var init;
        if highWater < curr {
          init := window.Length - curr;
          if init > WIN_INIT { init := WIN_INIT; }
          Clear(window, curr, init);
          highWater := curr + init;
        } else if highWater < curr + WIN_INIT {
          init := curr + WIN_INIT - highWater;
          if init > window.Length - highWater { init := window.Length - highWater; }
          Clear(window, highWater, init);
          highWater := highWater + init;
        }
      }
    }

    // The end of fill_window: the data and the chains do not change.
    method ClearAhead()
      requires Valid()
      modifies this`highWater, window
      ensures Valid() && (old(HashReady()) ==> HashReady())
      ensures forall i :: 0 <= i < window.Length && (i < strstart + lookahead || i < old(highWater))
                ==> window[i] == old(window[i])
      ensures highWater >= old(highWater)
        && (highWater >= window.Length || highWater >= strstart + lookahead + WIN_INIT)
      ensures forall i :: strstart + lookahead <= i < highWater && old(highWater) <= i < window.Length
                ==> window[i] == 0
    {
      hide Chained, Rolled, Pow2;
      ghost var w := window[..];
      ClearFrom(strstart + lookahead);
      ChainedFrame(w, window[..], Links(), hashBits);
    }

    // The inside of fill_window's loop after the slide: read, and bring the hash up to date.
    method TakeInput(more: nat)
      requires Valid() && strstart + lookahead + more <= window.Length
      modifies this`lookahead, this`insH, this`insert, this`input, this`data, this`owner, this`top, window, head, prev
      ensures Valid() && HashReady() && old(data) <= data && data + input == old(data) + old(input)
        && insert <= old(insert)
      ensures lookahead + |input| == old(lookahead) + |old(input)| && lookahead >= old(lookahead)
      ensures lookahead == old(lookahead) + more || input == []
    {
      hide Chained, Rolled, Update, Pow2, State.Links;
      ghost var d, i := data, input;
      var n := ReadBuf(more);
      assert data + input == d + i;
      RestartHash();
    }

    // fill_window. One pass of its loop always reads enough or empties the
    // input, so the loop is written without its way back.
    method FillWindow()
      requires Valid() && lookahead < MIN_LOOKAHEAD
      modifies this`strstart, this`lookahead, this`insH, this`insert, this`matchStart, this`blockStart, this`highWater,
        this`input
      modifies this`base, this`data, this`owner, this`top, window, head, prev
      ensures Valid() && (old(HashReady()) ==> HashReady()) && strstart <= window.Length - MIN_LOOKAHEAD
      ensures base + strstart == old(base + strstart) && base + blockStart == old(base + blockStart)
        && base + matchStart == old(base + matchStart)
      ensures base >= old(base) && old(data) <= data && data + input == old(data) + old(input)
        && lookahead + |input| == old(lookahead) + |old(input)|
      ensures lookahead >= old(lookahead) && (lookahead < MIN_LOOKAHEAD ==> input == [])
        && (old(strstart) >= 1 ==> strstart >= 1) && insert <= old(insert)
      ensures highWater >= window.Length || highWater >= strstart + lookahead + WIN_INIT
    {
      hide Valid, HashReady;
      var more := MakeSpace();
      if input != [] { TakeInput(more); }
      ClearAhead();
    }

    // The free space at the end of the window, after a slide if it is almost full.
    method MakeSpace() returns (more: nat)
      requires Valid() && lookahead < MIN_LOOKAHEAD
      modifies this`strstart, this`matchStart, this`blockStart, this`base, this`owner, this`top, window, head, prev
      ensures Valid() && (old(HashReady()) ==> HashReady()) && strstart <= window.Length - MIN_LOOKAHEAD
      ensures strstart + lookahead + more == window.Length && (old(strstart) >= 1 ==> strstart >= 1)
      ensures base + strstart == old(base + strstart) && base + blockStart == old(base + blockStart)
        && base + matchStart == old(base + matchStart) && base >= old(base)
    {
      hide Chained, Rolled, Pow2, State.Links;
      more := window.Length - lookahead - strstart;
      if strstart >= wsize + MaxDist() {
        Slide();
        more := more + wsize;
      }
    }
  }

  method Clear(window: array<byte>, at: nat, n: nat)
    requires at + n <= window.Length
    modifies window
    ensures forall i :: 0 <= i < window.Length ==> window[i] == if at <= i < at + n then 0 else old(window[i])
  {
    var k := 0;
    while k < n
      invariant 0 <= k <= n
      invariant forall i :: 0 <= i < window.Length ==> window[i] == if at <= i < at + k then 0 else old(window[i])
    {
      window[at + k] := 0;
      k := k + 1;
    }
  }

  method CopyInput(window: array<byte>, at: nat, input: seq<byte>, n: nat)
    requires n <= |input| && at + n <= window.Length
    modifies window
    ensures forall i :: 0 <= i < at ==> window[i] == old(window[i])
    ensures forall i :: at <= i < at + n ==> window[i] == input[i - at]
  {
    var k := 0;
    while k < n
      invariant 0 <= k <= n
      invariant forall i :: 0 <= i < at ==> window[i] == old(window[i])
      invariant forall i :: at <= i < at + k ==> window[i] == input[i - at]
    {
      window[at + k] := input[k];
      k := k + 1;
    }
  }

  method MoveDown(window: array<byte>, n: nat)
    requires window.Length == 2 * n
    modifies window
    ensures forall i :: 0 <= i < n ==> window[i] == old(window[n + i])
    ensures forall i :: n <= i < 2 * n ==> window[i] == old(window[i])
  {
    var k := 0;
    while k < n
      invariant 0 <= k <= n
      invariant forall i :: k <= i < window.Length ==> window[i] == old(window[i])
      invariant forall i :: 0 <= i < k ==> window[i] == old(window[n + i])
    {
      window[k] := window[n + k];
      k := k + 1;
    }
  }

  // One loop over head[] or prev[] when the window slides.
  method SlideTable(a: array<nat>, n: nat)
    modifies a
    ensures a[..] == seq(a.Length, i requires 0 <= i < a.Length => SlidEntry(old(a[..])[i], n))
  {
    ghost var b := a[..];
    var k := a.Length;
    while k > 0
      invariant 0 <= k <= a.Length
      invariant forall i :: 0 <= i < k ==> a[i] == b[i]
      invariant forall i :: k <= i < a.Length ==> a[i] == SlidEntry(b[i], n)
    {
      k := k - 1;
      var m := a[k];
      a[k] := if m >= n then m - n else 0;
    }
  }

  lemma SameSlice(w: seq<byte>, data: seq<byte>, base: nat, lo: nat, hi: nat)
    requires lo <= hi <= |w| && base + hi <= |data| && forall i :: lo <= i < hi ==> w[i] == data[base + i]
    ensures w[lo..hi] == data[base + lo..base + hi]
  {
  }

  // Tokens only add bytes.
  lemma {:induction false} ExpandPrefix(s: seq<Token>, t: seq<Token>)
    requires Sound(s + t)
    ensures Sound(s) && Expand(s) <= Expand(s + t)
    decreases |t|
  {
    if t == [] {
      assert s + t == s;
    } else {
      var u := s + t;
      assert u[..|u| - 1] == s + t[..|t| - 1];
      ExpandPrefix(s, t[..|t| - 1]);
      var x, token := Expand(u[..|u| - 1]), u[|u| - 1];
      if token.Match? { CopyRepeats(x, token.dist, token.len); }
    }
  }

  lemma FlushKeeps(blocks: seq<Block>, tokens: seq<Token>, b: Block, data: seq<byte>, n: nat)
    requires BlocksOk(blocks, data) && Spell(AllTokens(blocks) + tokens, data, n) && b.tokens == tokens
    requires b.storedLen == n - |Expand(AllTokens(blocks))|
    requires b.stored.InWindow?
      ==> |Expand(AllTokens(blocks))| <= n && b.stored.bytes == data[|Expand(AllTokens(blocks))|..n]
    ensures AllTokens(blocks + [b]) == AllTokens(blocks) + tokens
    ensures BlocksOk(blocks + [b], data) && |Expand(AllTokens(blocks + [b]))| == n && Sound(AllTokens(blocks + [b]))
  {
    hide Expand, Sound;
    assert (blocks + [b])[..|blocks + [b]| - 1] == blocks;
    ExpandPrefix(AllTokens(blocks), tokens);
  }

  lemma RolledMeans(bits: nat, h: nat, a: byte, b: byte, c: byte)
    requires Rolled(bits, h, a, b)
    ensures Update(bits, h, c) == Hash3(bits, a, b, c)
  {
  }
}
