// longest_match of zlib's deflate.c: follow the hash chain of the current
// string and keep the best match. The third byte is never compared, nor is the
// end of the input looked for; the result is a true match all the same, and
// unless the search is cut short no inserted string in reach has a longer one.
module LongestMatch {
  import opened Bits
  import opened RollingHash
  import opened HashChains
  import opened Lz77
  import opened DeflateState

  // An older string with the hash of the current one, whose link can be followed.
  ghost predicate Candidate(s: State, cur: nat)
    reads s`strstart, s`owner, s`top, s.window, s.head, s.prev
  {
    && s.Sizes() && |s.owner| == s.wsize && s.top + 2 < s.window.Length && s.strstart == s.top
    && cur < s.strstart && Recent(s.Links(), cur)
    && HashAt(s.window[..], s.hashBits, cur) == HashAt(s.window[..], s.hashBits, s.strstart)
  }

  // The current string has just been inserted, and cur0 was the latest of its hash before.
  ghost predicate ChainOf(s: State, cur0: nat)
    reads s`strstart, s`owner, s`top, s.window, s.head, s.prev
  {
    && s.Sizes() && |s.owner| == s.wsize && Chained(s.window[..], s.Links(), s.hashBits) && s.top == s.strstart
    && Recent(s.Links(), s.strstart) && HashAt(s.window[..], s.hashBits, s.strstart) < |s.head[..]|
    && s.head[..][HashAt(s.window[..], s.hashBits, s.strstart)] == s.strstart
    && s.prev[s.strstart % s.wsize] == cur0
  }

  // The head of the chain before the current string was inserted is a candidate if it is in reach.
  lemma HeadIsCandidate(s: State, w: seq<byte>, c: Chains, h: nat, cur: nat)
    requires s.Sizes() && |s.owner| == s.wsize && w == s.window[..] && Chained(w, c, s.hashBits) && |c.owner| == s.wsize
    requires c.top < s.strstart == s.top && s.strstart + 2 < |w| && h < |c.head|
      && h == HashAt(w, s.hashBits, s.strstart)
    requires s.Links() == WithString(c, s.strstart, h) && cur == c.head[h] != 0 && s.strstart - cur < s.wsize
    ensures Candidate(s, cur) && ChainOf(s, cur)
  {
    hide Hash3, Pow2;
    InsertKeeps(w, c, s.hashBits, s.strstart, h);
    assert HeadOk(w, c, s.hashBits, h);
    StillInserted(c, s.strstart, h, cur);
  }

  ghost predicate AgreeAt(w: seq<byte>, m: nat, s: nat, k: nat)
    requires m + k < |w| && s + k < |w|
  {
    w[m + k] == w[s + k]
  }

  // The strings at m and s have the same first n bytes.
  ghost predicate Agree(w: seq<byte>, m: nat, s: nat, n: nat)
  {
    m + n <= |w| && s + n <= |w| && forall k: nat :: k < n ==> AgreeAt(w, m, s, k)
  }

  // Eight comparisons, as long as they succeed. Both pointers are advanced before each.
  method Eight(w: array<byte>, m0: nat, s0: nat, n0: nat) returns (n: nat, same: bool)
    requires m0 < s0 && s0 + n0 + 8 < w.Length && Agree(w[..], m0, s0, n0 + 1)
    ensures n0 < n <= n0 + 8 && Agree(w[..], m0, s0, n) && (same ==> n == n0 + 8 && Agree(w[..], m0, s0, n + 1))
    ensures !same ==> !AgreeAt(w[..], m0, s0, n)
  {
    n, same := n0, true;
    var tries := 0;
    while same && tries < 8
      invariant 0 <= tries <= 8 && n == n0 + tries && (same ==> Agree(w[..], m0, s0, n + 1))
      invariant !same ==> tries > 0 && Agree(w[..], m0, s0, n) && !AgreeAt(w[..], m0, s0, n)
    {
      n := n + 1;
      tries := tries + 1;
      same := w[s0 + n] == w[m0 + n];
      assert same <==> AgreeAt(w[..], m0, s0, n);
    }
  }

  // How far the strings at scan and match agree, given that the first three bytes do.
  method MatchLength(w: array<byte>, match0: nat, scan0: nat) returns (len: nat)
    requires match0 < scan0 && scan0 + MAX_MATCH < w.Length && Agree(w[..], match0, scan0, 3)
    ensures 3 <= len <= MAX_MATCH && Agree(w[..], match0, scan0, len)
    ensures len < MAX_MATCH ==> !AgreeAt(w[..], match0, scan0, len)
  {
    hide Agree, AgreeAt;
    len := 2;
    var same := true;
    while same && len < MAX_MATCH
      invariant 2 <= len <= MAX_MATCH && (same ==> (MAX_MATCH - len) % 8 == 0 && Agree(w[..], match0, scan0, len + 1))
      invariant !same ==> 3 <= len && Agree(w[..], match0, scan0, len) && !AgreeAt(w[..], match0, scan0, len)
      decreases MAX_MATCH - len, if same then 1 else 0
    {
      len, same := Eight(w, match0, scan0, len);
    }
    if same { AgreeLess(w[..], match0, scan0, len); }
  }

  lemma AgreeLess(w: seq<byte>, m: nat, s: nat, n: nat)
    requires Agree(w, m, s, n + 1)
    ensures Agree(w, m, s, n)
  {
  }

  // A string that agrees in its first bytes is a match in the data, as far as there is data.
  lemma AgreeIsMatch(s: State, cur: nat, len: nat, n: nat)
    requires s.Shows() && cur < s.strstart && Agree(s.window[..], cur, s.strstart, len) && n <= len && n <= s.lookahead
    ensures TrueMatch(s.data, s.base + s.strstart, s.strstart - cur, n)
  {
    var p := s.base + s.strstart;
    forall k | p <= k < p + n ensures s.data[k] == s.data[k - (s.strstart - cur)] {
      var j: nat := k - p;
      assert AgreeAt(s.window[..], cur, s.strstart, j);
      assert s.window[s.strstart + j] == s.data[s.base + (s.strstart + j)];
      assert s.window[cur + j] == s.data[s.base + (cur + j)];
    }
  }

  // Two bytes compared, the third by the hash.
  lemma ThreeAgree(s: State, cur: nat)
    requires Candidate(s, cur) && 8 <= s.hashBits && s.strstart + 2 < s.window.Length
    requires s.window[cur] == s.window[s.strstart] && s.window[cur + 1] == s.window[s.strstart + 1]
    ensures Agree(s.window[..], cur, s.strstart, 3)
  {
    hide Update;
    var w, p := s.window, s.strstart;
    ThirdByte(s.hashBits, w[p], w[p + 1], w[p + 2], w[cur + 2]);
    forall k: nat | k < 3 ensures AgreeAt(w[..], cur, p, k) {
      assert w[cur + k] == if k == 0 then w[cur] else if k == 1 then w[cur + 1] else w[cur + 2];
    }
  }

  // The next string of the chain, if it is in reach.
  lemma NextCandidate(s: State, cur: nat)
    requires Candidate(s, cur) && Chained(s.window[..], s.Links(), s.hashBits)
    ensures cur < s.strstart
    ensures var q := s.prev[cur % s.wsize]; q == 0 || (q < cur && (s.strstart - q < s.wsize ==> Candidate(s, q)))
  {
    hide Hash3;
    Follow(s.window[..], s.Links(), s.hashBits, cur);
  }

  // No match of more than n bytes, up to the longest there may be, starts at m.
  ghost predicate NoBetter(w: seq<byte>, m: nat, scan: nat, n: nat)
  {
    n >= MAX_MATCH || !Agree(w, m, scan, n + 1)
  }

  // How many strings of a chain are looked at.
  function Budget(s: State): nat
    reads s`prevLength
  {
    if s.prevLength >= s.goodMatch then s.maxChain / 4 else s.maxChain
  }

  // best is the longest match with the first n strings of the chain, if it beats least, and start is where it is.
  ghost predicate BestOf(w: seq<byte>, prev: seq<nat>, cur0: nat, scan: nat, least: nat, start: int, best: nat, n: nat)
    requires prev != []
  {
    && least <= best && (forall k: nat :: k < n ==> NoBetter(w, Walk(prev, cur0, k), scan, best))
    && (best > least
      ==> start >= 0 && Agree(w, start, scan, best) && exists k: nat :: k < n && start == Walk(prev, cur0, k))
  }

  lemma BestNone(w: seq<byte>, prev: seq<nat>, cur0: nat, scan: nat, least: nat, start: int)
    requires prev != []
    ensures BestOf(w, prev, cur0, scan, least, start, least, 0)
  {
  }

  lemma BestMeans(w: seq<byte>, prev: seq<nat>, cur0: nat, scan: nat, least: nat, start: int, best: nat, n: nat)
    requires prev != [] && BestOf(w, prev, cur0, scan, least, start, best, n)
    ensures best >= least && (best > least ==> start >= 0 && Agree(w, start, scan, best))
  {
  }

  // The next string of the chain agrees in len bytes.
  lemma BestNext(w: seq<byte>, prev: seq<nat>, cur0: nat, scan: nat, least: nat, start: int, best: nat, n: nat,
    cur: nat, len: nat)
    requires prev != [] && BestOf(w, prev, cur0, scan, least, start, best, n) && cur == Walk(prev, cur0, n)
    requires len > best ==> Agree(w, cur, scan, len)
    requires NoBetter(w, cur, scan, if len > best then len else best)
    ensures if len > best then BestOf(w, prev, cur0, scan, least, cur, len, n + 1)
      else BestOf(w, prev, cur0, scan, least, start, best, n + 1)
  {
    hide NoBetter, Agree;
    forall k: nat | k < n + 1 ensures NoBetter(w, Walk(prev, cur0, k), scan, if len > best then len else best) {
      if k < n { StillNoBetter(w, Walk(prev, cur0, k), scan, best, if len > best then len else best); }
    }
  }

  // No inserted string in reach of a link has a match of more than best bytes. A
  // link is followed to strings less than MAX_DIST away, though the head of the
  // chain may be as far away as that.
  ghost predicate Unbeaten(s: State, best: nat)
    requires s.Sizes() && |s.owner| == s.wsize
    reads s`strstart, s`owner, s`top, s.window, s.head, s.prev
  {
    forall p: nat :: Recent(s.Links(), p) && p < s.strstart && s.strstart - p < s.MaxDist()
      ==> NoBetter(s.window[..], p, s.strstart, best)
  }

  // best is the longest match among the first steps strings of the chain from
  // cur0, or prev_length if none beats that; and there was a reason to stop.
  ghost predicate Searched(s: State, cur0: nat, best: nat, steps: nat)
    reads s`strstart, s`lookahead, s`matchStart, s`prevLength, s`owner, s`top, s.window, s.head, s.prev
  {
    && s.Sizes() && |s.owner| == s.wsize && 1 <= steps <= Budget(s)
    && BestOf(s.window[..], s.prev[..], cur0, s.strstart, s.prevLength, s.matchStart, best, steps)
    && Stopped(s, cur0, best, steps)
  }

  // No inserted string in reach is better, or the budget is used up, or the match is good enough.
  ghost predicate Stopped(s: State, cur0: nat, best: nat, steps: nat)
    requires s.Sizes() && |s.owner| == s.wsize
    reads s`strstart, s`lookahead, s`prevLength, s`owner, s`top, s.window, s.head, s.prev
  {
    || Unbeaten(s, best)
    || steps == Budget(s)
    || (best > s.prevLength && (best >= s.niceMatch || best >= s.lookahead))
  }

  // Where the chain leaves the reach of a match, no string in reach is left out:
  // one with three bytes in common has the same hash, so the chain has passed it.
  lemma NoneLeftOut(s: State, cur0: nat, start: int, best: nat, steps: nat)
    requires ChainOf(s, cur0) && s.strstart + 2 < s.window.Length && s.prevLength >= 2
    requires BestOf(s.window[..], s.prev[..], cur0, s.strstart, s.prevLength, start, best, steps)
    requires Walk(s.prev[..], cur0, steps) == 0 || s.strstart - Walk(s.prev[..], cur0, steps) >= s.MaxDist()
    ensures Unbeaten(s, best)
  {
    hide Hash3, Agree, Walk, Chained, NoBetter, Pow2;
    var w, scan := s.window[..], s.strstart;
    forall p: nat | Recent(s.Links(), p) && p < scan && scan - p < s.MaxDist() ensures NoBetter(w, p, scan, best) {
      if HashAt(w, s.hashBits, p) == HashAt(w, s.hashBits, scan) {
        var k := Reached(w, s.Links(), s.hashBits, scan, p);
        assert Walk(s.prev[..], cur0, k) == p;
        assert Walk(s.prev[..], cur0, steps) < p;
        assert k < steps;
      } else {
        OtherHash(w, s.hashBits, p, scan, best);
      }
    }
  }

  lemma OtherHash(w: seq<byte>, bits: nat, p: nat, scan: nat, best: nat)
    requires p < scan && scan + 2 < |w| && best >= 2 && HashAt(w, bits, p) != HashAt(w, bits, scan)
    ensures NoBetter(w, p, scan, best)
  {
    if Agree(w, p, scan, best + 1) { SameHash(w, bits, p, scan); }
  }

  lemma SameHash(w: seq<byte>, bits: nat, p: nat, scan: nat)
    requires p < scan && scan + 2 < |w| && Agree(w, p, scan, 3)
    ensures HashAt(w, bits, p) == HashAt(w, bits, scan)
  {
    hide Hash3;
    assert AgreeAt(w, p, scan, 0) && AgreeAt(w, p, scan, 1) && AgreeAt(w, p, scan, 2);
  }

  lemma WalkOn(prev: seq<nat>, p: nat, k: nat)
    requires prev != []
    ensures Walk(prev, p, 0) == p && Walk(prev, p, k + 1) == prev[Walk(prev, p, k) % |prev|]
  {
  }

  // A longer match in hand leaves even less to find.
  lemma StillNoBetter(w: seq<byte>, m: nat, scan: nat, n: nat, n': nat)
    requires NoBetter(w, m, scan, n) && n <= n'
    ensures NoBetter(w, m, scan, n')
  {
  }

  // One byte that differs rules out a longer match.
  lemma DiffersAt(w: seq<byte>, m: nat, scan: nat, k: nat, n: nat)
    requires k <= n && m + k < |w| && scan + k < |w| && w[m + k] != w[scan + k]
    ensures NoBetter(w, m, scan, n)
  {
    assert !AgreeAt(w, m, scan, k);
  }

  // The length of the match with a candidate, or 0 if the quick checks reject it.
  method Try(s: State, cur: nat, bestLen: nat, scanEnd1: byte, scanEnd: byte) returns (n: nat)
    requires s.Sizes() && Candidate(s, cur) && s.strstart + MIN_LOOKAHEAD <= s.window.Length
      && 1 <= bestLen <= MAX_MATCH
    requires scanEnd1 == s.window[s.strstart + bestLen - 1] && scanEnd == s.window[s.strstart + bestLen]
    ensures n <= MAX_MATCH && (n > 0 ==> cur < s.strstart && Agree(s.window[..], cur, s.strstart, n))
    ensures NoBetter(s.window[..], cur, s.strstart, if n > bestLen then n else bestLen)
  {
    hide Agree, Hash3, Pow2, NoBetter, Recent;
    ghost var w, scan := s.window[..], s.strstart;
    if s.window[cur + bestLen] == scanEnd && s.window[cur + bestLen - 1] == scanEnd1
      && s.window[cur] == s.window[s.strstart] && s.window[cur + 1] == s.window[s.strstart + 1]
    {
      ThreeAgree(s, cur);
      n := MatchLength(s.window, cur, s.strstart);
      if n < MAX_MATCH {
        assert !AgreeAt(w, cur, scan, n);
        DiffersAt(w, cur, scan, n, if n > bestLen then n else bestLen);
      } else {
        NoneLonger(w, cur, scan, n);
      }
    } else {
      n := 0;
      if w[cur + bestLen] != w[scan + bestLen] { DiffersAt(w, cur, scan, bestLen, bestLen); }
      else if w[cur + bestLen - 1] != w[scan + bestLen - 1] { DiffersAt(w, cur, scan, bestLen - 1, bestLen); }
      else if w[cur] != w[scan] { DiffersAt(w, cur, scan, 0, bestLen); }
      else { DiffersAt(w, cur, scan, 1, bestLen); }
    }
  }

  lemma NoneLonger(w: seq<byte>, m: nat, scan: nat, n: nat)
    requires n >= MAX_MATCH
    ensures NoBetter(w, m, scan, n)
  {
  }

  // The body of the loop: keep the match with cur if it is longer.
  method Improve(s: State, cur: nat, best0: nat, scanEnd1: byte, scanEnd: byte, niceMatch: nat, ghost cur0: nat,
    ghost k: nat)
    returns (best: nat, stop: bool)
    requires s.Sizes() && Candidate(s, cur) && cur < s.strstart && s.strstart + MIN_LOOKAHEAD <= s.window.Length
      && 1 <= best0 <= MAX_MATCH
    requires scanEnd1 == s.window[s.strstart + best0 - 1] && scanEnd == s.window[s.strstart + best0]
    requires cur == Walk(s.prev[..], cur0, k)
    requires BestOf(s.window[..], s.prev[..], cur0, s.strstart, s.prevLength, s.matchStart, best0, k)
    modifies s`matchStart
    ensures best0 <= best <= MAX_MATCH && s.matchStart == (if best > best0 then cur else old(s.matchStart))
    ensures BestOf(s.window[..], s.prev[..], cur0, s.strstart, s.prevLength, s.matchStart, best, k + 1)
    ensures stop <==> best > best0 && best >= niceMatch
  {
    hide Candidate, NoBetter, Walk, BestOf, Agree, Recent, Pow2;
    best, stop := best0, false;
    var n := Try(s, cur, best, scanEnd1, scanEnd);
    BestNext(s.window[..], s.prev[..], cur0, s.strstart, s.prevLength, s.matchStart, best, k, cur, n);
    if n > best {
      s.matchStart := cur;
      best := n;
      stop := n >= niceMatch;
    }
  }

  // Where a match that beats prev_length starts.
  ghost predicate InReach(s: State, best: nat)
    reads s`strstart, s`matchStart, s`prevLength
  {
    512 <= s.wsize && (best > s.prevLength ==> 1 <= s.strstart - s.matchStart <= s.MaxDist())
  }

  // The link from string number n of the chain.
  lemma StepOn(s: State, cur0: nat, cur: nat, n: nat)
    requires ChainOf(s, cur0) && Candidate(s, cur) && cur == Walk(s.prev[..], cur0, n)
    ensures cur < s.strstart
    ensures var q := s.prev[cur % s.wsize];
            q == Walk(s.prev[..], cur0, n + 1) && (s.strstart - q <= s.MaxDist() && q > 0 ==> Candidate(s, q))
  {
    hide Candidate, Chained, Walk, Hash3, Pow2;
    NextCandidate(s, cur);
    WalkOn(s.prev[..], cur0, n);
  }

  // Number n of the chain, at cur, is the next to be compared.
  ghost predicate AtString(s: State, cur0: nat, cur: nat, n: nat)
    reads s`strstart, s`owner, s`top, s.window, s.head, s.prev
  {
    && s.Sizes() && ChainOf(s, cur0) && Candidate(s, cur) && cur < s.strstart
    && s.strstart - cur <= s.MaxDist() && cur == Walk(s.prev[..], cur0, n)
  }

  // best is the longest match with the first n strings of the chain.
  ghost predicate BestSoFar(s: State, cur0: nat, best: nat, n: nat)
    reads s`strstart, s`matchStart, s`prevLength, s.window, s.prev
  {
    && s.Sizes() && s.prevLength <= best <= MAX_MATCH && InReach(s, best)
    && BestOf(s.window[..], s.prev[..], cur0, s.strstart, s.prevLength, s.matchStart, best, n)
  }

  // The loop's body and the link to the next string. Done: good enough, or nothing more in reach.
  method Pass(s: State, cur0: nat, cur: nat, best0: nat, scanEnd1: byte, scanEnd: byte, niceMatch: nat, limit: nat,
    ghost n: nat) returns (best: nat, next: nat, done: bool)
    requires AtString(s, cur0, cur, n) && BestSoFar(s, cur0, best0, n)
    requires s.strstart + MIN_LOOKAHEAD <= s.window.Length && MIN_MATCH - 1 <= s.prevLength
    requires scanEnd1 == s.window[s.strstart + best0 - 1] && scanEnd == s.window[s.strstart + best0]
    requires limit == if s.strstart > s.MaxDist() then s.strstart - s.MaxDist() else 0
    modifies s`matchStart
    ensures BestSoFar(s, cur0, best, n + 1)
    ensures done ==> Unbeaten(s, best) || (best > s.prevLength && best >= niceMatch)
    ensures !done ==> AtString(s, cur0, next, n + 1)
  {
    hide Candidate, ChainOf, Pow2, NoBetter, Walk, BestOf, Unbeaten;
    best, done := Improve(s, cur, best0, scanEnd1, scanEnd, niceMatch, cur0, n);
    next := 0;
    if done { return; }
    StepOn(s, cur0, cur, n);
    next := s.prev[cur % s.wsize];
    if !(next > limit) {
      NoneLeftOut(s, cur0, s.matchStart, best, n + 1);
      done := true;
    } else {
      BeforeCurrent(s, cur0, cur, next);
    }
  }

  lemma BeforeCurrent(s: State, cur0: nat, cur: nat, q: nat)
    requires ChainOf(s, cur0) && Candidate(s, cur) && q == s.prev[cur % s.wsize]
    ensures q < s.strstart
  {
    hide Chained, Hash3, Pow2;
    NextCandidate(s, cur);
  }

  // The loop over the chain.
  method FollowChain(s: State, cur0: nat, chainLength0: nat, niceMatch: nat, limit: nat)
    returns (bestLen: nat, ghost steps: nat)
    requires s.Sizes() && AtString(s, cur0, cur0, 0)
    requires s.strstart + MIN_LOOKAHEAD <= s.window.Length && MIN_MATCH - 1 <= s.prevLength <= MAX_MATCH
    requires chainLength0 > 0 && limit == if s.strstart > s.MaxDist() then s.strstart - s.MaxDist() else 0
    modifies s`matchStart
    ensures 1 <= steps <= chainLength0 && BestSoFar(s, cur0, bestLen, steps)
    ensures Unbeaten(s, bestLen) || steps == chainLength0 || (bestLen > s.prevLength && bestLen >= niceMatch)
  {
    hide AtString, BestSoFar, Pow2, Unbeaten;
    steps := 1;
    FirstBest(s, cur0);
    var chainLength, scan := chainLength0, s.strstart;
    var cur: nat := cur0;
    bestLen := s.prevLength;
    var scanEnd1, scanEnd := s.window[scan + bestLen - 1], s.window[scan + bestLen];
    while true
      invariant 1 <= steps == chainLength0 + 1 - chainLength && chainLength > 0 && bestLen <= MAX_MATCH
      invariant AtString(s, cur0, cur, steps - 1) && BestSoFar(s, cur0, bestLen, steps - 1) && 1 <= bestLen
      invariant scanEnd1 == s.window[scan + bestLen - 1] && scanEnd == s.window[scan + bestLen]
      decreases chainLength
    {
      var done;
      bestLen, cur, done := Pass(s, cur0, cur, bestLen, scanEnd1, scanEnd, niceMatch, limit, steps - 1);
      BestBounds(s, cur0, bestLen, steps);
      if done { break; }
      scanEnd1, scanEnd := s.window[scan + bestLen - 1], s.window[scan + bestLen];
      chainLength := chainLength - 1;
      if chainLength == 0 { break; }
      steps := steps + 1;
    }
  }

  lemma AtFirst(s: State, cur0: nat)
    requires ChainOf(s, cur0) && Candidate(s, cur0) && s.strstart - cur0 <= s.MaxDist()
    ensures AtString(s, cur0, cur0, 0) && s.Sizes() && |s.owner| == s.wsize
  {
    hide Chained, Hash3, Pow2;
    WalkOn(s.prev[..], cur0, 0);
  }

  lemma FirstBest(s: State, cur0: nat)
    requires s.Sizes() && s.prevLength <= MAX_MATCH
    ensures BestSoFar(s, cur0, s.prevLength, 0)
  {
    BestNone(s.window[..], s.prev[..], cur0, s.strstart, s.prevLength, s.matchStart);
  }

  lemma BestBounds(s: State, cur0: nat, best: nat, n: nat)
    requires BestSoFar(s, cur0, best, n)
    ensures s.prevLength <= best <= MAX_MATCH && InReach(s, best)
    ensures s.Sizes() && BestOf(s.window[..], s.prev[..], cur0, s.strstart, s.prevLength, s.matchStart, best, n)
  {
  }

  // longest_match. The result is the longest match along the chain as far as it
  // is followed, or prev_length if none is longer, cut off at the lookahead; if
  // it is more than prev_length, match_start is where a true match of that
  // length starts.
  method Longest(s: State, cur0: nat) returns (len: nat, ghost best: nat, ghost steps: nat)
    requires s.Shows() && ChainOf(s, cur0)
    requires Candidate(s, cur0) && s.strstart - cur0 <= s.MaxDist() && s.strstart + MIN_LOOKAHEAD <= s.window.Length
    requires MIN_MATCH - 1 <= s.prevLength <= MAX_MATCH && MIN_MATCH <= s.lookahead
    modifies s`matchStart
    ensures len <= s.lookahead && len <= MAX_MATCH && len == (if best <= s.lookahead then best else s.lookahead)
    ensures Searched(s, cur0, best, steps) && best >= s.prevLength
    ensures len > s.prevLength ==>
      TrueMatch(s.data, s.base + s.strstart, s.strstart - s.matchStart, len)
        && 1 <= s.strstart - s.matchStart <= s.MaxDist()
  {
    hide Candidate, ChainOf, AtString, BestSoFar, BestOf, Unbeaten, Agree, TrueMatch, Pow2, State.Shows;
    AtFirst(s, cur0);
    var chainLength := s.maxChain;
    var niceMatch := s.niceMatch;
    var limit := if s.strstart > s.MaxDist() then s.strstart - s.MaxDist() else 0;
    if s.prevLength >= s.goodMatch { chainLength := chainLength / 4; }
    if niceMatch > s.lookahead { niceMatch := s.lookahead; }
    var bestLen;
    bestLen, steps := FollowChain(s, cur0, chainLength, niceMatch, limit);
    BestBounds(s, cur0, bestLen, steps);
    best := bestLen;
    len := if bestLen <= s.lookahead then bestLen else s.lookahead;
    BestMeans(s.window[..], s.prev[..], cur0, s.strstart, s.prevLength, s.matchStart, best, steps);
    if len > s.prevLength { AgreeIsMatch(s, s.matchStart, bestLen, len); }
  }
}
