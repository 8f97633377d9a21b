// inflate over many calls: the fast and the careful decoder are the same
// decoder, and it does not matter how the caller cuts up input and output.
module InflateCalls {
  import opened Bits
  import opened InflateBits
  import opened InflateSymbols
  import opened InflateMachine
  import opened InflateFast
  import opened Window
  import C = MatchCopy

  // From equal states, as many symbols by the careful states as the fast decoder
  // has begun bring both to the same place, bit for bit and byte for byte. The
  // careful states do not stop where the fast decoder does not.
  method FastIsCareful(fast: Inflate, careful: Inflate, k: nat) returns (ghost steps: nat)
    requires fast.Valid() && careful.Valid() && fast != careful && fast.mode == careful.mode == LEN
    requires fast.tables == careful.tables && fast.input == careful.input && fast.Output() == careful.Output()
    requires fast.hold == careful.hold && fast.bits == careful.bits < 8 && fast.next == careful.next
    requires fast.left == careful.left >= 258 && fast.next + 6 <= |fast.input|
    requires fast.out != careful.out && fast.out != careful.win.window && careful.out != fast.win.window
    modifies fast, fast.out, careful, careful.out
    ensures fast.Valid() && careful.Valid()
    ensures k == Started(fast.mode, steps) ==>
      && careful.mode == fast.mode && careful.Output() == fast.Output() && careful.left == fast.left
      && careful.hold == fast.hold && careful.bits == fast.bits && careful.next == fast.next
  {
    hide Unread, Pow2, TablesOk, C.Total, InflateWindow.Valid, Symbol, Symbols, Roomy, Extended;
    fast.OutputLength();
    careful.OutputLength();
    ghost var q, t := fast.X(), fast.Output();
    steps := Run(fast);
    fast.OutputLength();
    var leave;
    ghost var done;
    leave, done := careful.SeveralSymbols(k);
    careful.OutputLength();
    if k == Started(fast.mode, steps) {
      ExtendedNothing(q);
      ExtendedNothing(careful.X());
      assert Symbols(fast.tables, Extended(q, []), t, k) == Followed(careful.Reached(), []);
      SamePlace(fast.hold, fast.bits, fast.next, careful.hold, careful.bits, careful.next, fast.input);
    }
  }

  lemma NoneOnward(g: Tables, o: Outcome)
    ensures Onward(g, o, 0) == o
  {
  }

  // inflate_fast as a part of inflate.
  method FastPart(s: Inflate) returns (ghost steps: nat)
    requires s.Valid() && s.mode == LEN && s.Lean() && (s.bits < 8 || s.next == 0)
    requires s.next + 6 <= |s.input| && s.left >= 258
    modifies s`hold, s`bits, s`next, s`put, s`left, s`mode, s.out
    ensures s.Valid() && s.bits < 8 && s.put >= old(s.put) && s.put + s.left == old(s.put + s.left)
    ensures (s.mode == LEN && s.put > old(s.put)) || s.mode == TYPE || s.mode == BAD
    ensures forall more :: Onward(s.tables, old(s.Finish(more)), steps) == s.Finish(more)
  {
    hide Unread, Pow2, C.Total, InflateWindow.Valid, Symbol, Symbols, Onward, Extended, Roomy, Inflate.Lean, TableOf;
    ghost var q, t := s.X(), s.Output();
    steps := Run(s);
    forall more ensures Onward(s.tables, old(s.Finish(more)), steps) == s.Finish(more) {
      SymbolsExtend(s.tables, s.ll, s.dl, q, more, t, Started(s.mode, steps));
      if s.mode == LEN {
        SymbolsFirst(s.tables, Extended(q, more), t, steps - 1);
        OnwardNext(s.tables, Symbol(s.tables, Extended(q, more), t), steps - 1);
      } else {
        SymbolsFirst(s.tables, Extended(q, more), t, steps);
      }
    }
  }

  // One symbol, or what is left of one.
  method CarefulPart(s: Inflate) returns (leave: bool, ghost steps: nat)
    requires s.Valid() && s.Lean() && s.mode != TYPE && s.mode != BAD
    modifies s`hold, s`bits, s`next, s`mode, s`length, s`offset, s`extra, s`put, s`left, s.out
    ensures s.Valid() && s.Lean() && s.put >= old(s.put) && s.put + s.left == old(s.put + s.left)
    ensures if leave then s.Starved() || s.left == 0
            else s.bits < 8 && ((s.mode == LEN && s.put > old(s.put)) || s.mode == TYPE || s.mode == BAD)
    ensures forall more :: Onward(s.tables, old(s.Finish(more)), steps) == s.Finish(more)
  {
    hide Unread, Pow2, C.Total, InflateWindow.Valid, Symbol, Symbols, Onward, Extended, TablesOk;
    leave := s.OneSymbol();
    steps := if !leave && s.mode == LEN then 1 else 0;
    forall more ensures Onward(s.tables, old(s.Finish(more)), steps) == s.Finish(more) {
      NoneOnward(s.tables, old(s.Finish(more)));
      if steps == 1 { OnwardNext(s.tables, old(s.Finish(more)), 0); }
    }
  }

  // One call of inflate, as far as these states go: inflate_fast while there is
  // much of both input and output, single symbols otherwise. Whatever the input
  // goes on with, the symbol in progress and done more have been decoded.
  method Decode(s: Inflate) returns (leave: bool, ghost done: nat)
    requires s.Valid() && s.Lean() && (s.bits < 8 || s.next == 0)
    modifies s`hold, s`bits, s`next, s`mode, s`length, s`offset, s`extra, s`put, s`left, s.out
    ensures s.Valid() && s.Lean() && s.put >= old(s.put) && s.put + s.left == old(s.put + s.left)
    ensures if leave then s.Starved() || s.left == 0 else s.mode == TYPE || s.mode == BAD
    ensures forall more :: Onward(s.tables, old(s.Finish(more)), done) == s.Finish(more)
  {
    hide Unread, Pow2, TablesOk, C.Total, InflateWindow.Valid, Onward, Extended, Inflate.Lean, Inflate.Finish,
      Inflate.Starved, Inflate.Valid;
    leave := false;
    done := 0;
    forall more ensures Onward(s.tables, s.Finish(more), 0) == s.Finish(more) { NoneOnward(s.tables, s.Finish(more)); }
    while s.mode != TYPE && s.mode != BAD
      invariant s.Valid() && s.Lean() && (s.mode == LEN ==> s.bits < 8 || s.next == 0)
      invariant s.put >= old(s.put) && s.put + s.left == old(s.put + s.left)
      invariant forall more :: Onward(s.tables, old(s.Finish(more)), done) == s.Finish(more)
      decreases s.left, if s.mode == TYPE || s.mode == BAD then 0 else 1
    {
      ghost var n;
      ghost var before := done;
      if s.mode == LEN && s.next + 6 <= |s.input| && s.left >= 258 {
        n := FastPart(s);
        ShortIsLean(s);
      } else {
        leave, n := CarefulPart(s);
      }
      done := before + n;
      forall more ensures Onward(s.tables, old(s.Finish(more)), done) == s.Finish(more) {
        OnwardSum(s.tables, old(s.Finish(more)), before, n);
      }
      if leave { return; }
    }
  }

  lemma ShortIsLean(s: Inflate)
    requires s.bits < 8
    ensures s.Lean()
  {
  }

  // The caller gives more input, and more space behind what has been written.
  method Feed(s: Inflate, more: seq<byte>, space: nat)
    requires s.Valid() && s.put + s.left + space <= s.out.Length
    modifies s`input, s`next, s`left
    ensures s.Valid() && s.next == 0 && s.left == old(s.left) + space
    ensures forall later :: s.Finish(later) == old(s.Finish(more + later))
  {
    hide Unread, Extended, Pow2, TablesOk, C.Total, InflateWindow.Valid, Symbol, AfterLength, AtDistance,
      AfterDistance, Matched;
    ghost var q := s.X();
    UnreadMore(s.hold, s.bits, s.input, s.next, more);
    s.input := s.input[s.next..] + more;
    s.next := 0;
    s.left := s.left + space;
    forall later ensures s.Finish(later) == old(s.Finish(more + later)) { ExtendedTwice(q, more, later); }
  }

  datatype Call = Call(input: seq<byte>, space: nat)

  ghost function AllInput(calls: seq<Call>): seq<byte>
  {
    if calls == [] then [] else calls[0].input + AllInput(calls[1..])
  }

  ghost function AllSpace(calls: seq<Call>): nat
  {
    if calls == [] then 0 else calls[0].space + AllSpace(calls[1..])
  }

  // One call of inflate with some input and some space.
  method OneCall(s: Inflate, call: Call) returns (ghost done: nat)
    requires s.Valid() && s.Lean() && s.put + s.left + call.space <= s.out.Length
    modifies s`input, s`hold, s`bits, s`next, s`mode, s`length, s`offset, s`extra, s`put, s`left, s.out
    ensures s.Valid() && s.Lean() && s.put >= old(s.put) && s.put + s.left == old(s.put + s.left) + call.space
    ensures s.mode == TYPE || s.mode == BAD || s.Starved() || s.left == 0
    ensures forall later :: Onward(s.tables, old(s.Finish(call.input + later)), done) == s.Finish(later)
  {
    hide Onward, Inflate.Lean, Inflate.Finish, Inflate.Starved, Inflate.Valid;
    var leave;
    Feed(s, call.input, call.space);
    leave, done := Decode(s);
  }

  lemma NoCalls(s: Inflate)
    requires s.Valid()
    ensures forall later :: Onward(s.tables, s.Finish(AllInput([]) + later), 0) == s.Finish(later)
  {
    hide Onward, Inflate.Finish, Inflate.Valid;
    forall later ensures Onward(s.tables, s.Finish(AllInput([]) + later), 0) == s.Finish(later) {
      assert AllInput([]) + later == later;
      NoneOnward(s.tables, s.Finish(later));
    }
  }

  // Any sequence of calls: what has been decoded at the end, and what is still
  // to be decoded of the symbol in progress, are what one call with all the
  // input would come to, wherever the calls stopped for input or for space.
  method InCalls(s: Inflate, calls: seq<Call>) returns (ghost done: nat)
    requires s.Valid() && s.Lean() && s.put + s.left + AllSpace(calls) <= s.out.Length
    modifies s`input, s`hold, s`bits, s`next, s`mode, s`length, s`offset, s`extra, s`put, s`left, s.out
    ensures s.Valid() && s.Lean() && s.put >= old(s.put)
    ensures calls != [] ==> s.mode == TYPE || s.mode == BAD || s.Starved() || s.left == 0
    ensures forall later :: Onward(s.tables, old(s.Finish(AllInput(calls) + later)), done) == s.Finish(later)
    decreases |calls|
  {
    hide Unread, Pow2, TablesOk, C.Total, InflateWindow.Valid, Onward, Extended, Inflate.Lean, Inflate.Finish,
      Inflate.Starved, Inflate.Valid;
    done := 0;
    if calls == [] {
      NoCalls(s);
      return;
    }
    ghost var m, n;
    m := OneCall(s, calls[0]);
    if |calls| > 1 {
      n := InCalls(s, calls[1..]);
    } else {
      n := 0;
      NoCalls(s);
    }
    done := m + n;
    forall later ensures Onward(s.tables, old(s.Finish(AllInput(calls) + later)), done) == s.Finish(later) {
      assert AllInput(calls) + later == calls[0].input + (AllInput(calls[1..]) + later);
      OnwardSum(s.tables, old(s.Finish(AllInput(calls) + later)), m, n);
    }
  }

  // ---------------------------------------------------------------------
  // A new output buffer, and the window in between
  // ---------------------------------------------------------------------

  // What a symbol in progress will do, by the parts it depends on.
  ghost function InProgress(g: Tables, mode: State, length: nat, offset: nat, extra: nat, q: Queue,
    t: seq<byte>): Outcome
    requires mode == LIT ==> length < 0x100
  {
    match mode
    case LEN => Symbol(g, q, t)
    case LENEXT => AfterLength(g, length, extra, q, t)
    case DIST => AtDistance(g, length, q, t)
    case DISTEXT => AfterDistance(length, offset, extra, q, t)
    case MATCH => Matched(length, offset, q, t)
    case LIT => More(q, t + [length])
    case TYPE => Ended(q, t)
    case BAD => Failed(q, t)
  }

  lemma DoingIs(s: Inflate, q: Queue)
    requires s.Valid()
    ensures s.mode == LIT ==> s.length < 0x100
    ensures s.Doing(q) == InProgress(s.tables, s.mode, s.length, s.offset, s.extra, q, s.Output())
  {
    hide Symbol, AfterLength, AtDistance, AfterDistance, Matched, Pow2;
  }

  lemma ProgressBehind(s: Inflate, q: Queue, e: seq<byte>, t: seq<byte>)
    requires s.Valid() && Recent(e, t)
    ensures InProgress(s.tables, s.mode, s.length, s.offset, s.extra, q, e + t)
         == Behind(e, InProgress(s.tables, s.mode, s.length, s.offset, s.extra, q, t))
  {
    hide Symbol, AfterLength, AtDistance, AfterDistance, Matched, Pow2, TableOf, InflateWindow.Valid;
    match s.mode
    case LEN => SymbolBehind(s.tables, s.ll, s.dl, q, e, t);
    case LENEXT => LengthBehind(s.tables, s.dl, s.length, s.extra, q, e, t);
    case DIST => AtDistanceBehind(s.tables, s.dl, s.length, q, e, t);
    case DISTEXT => DistanceBehind(s.length, s.offset, s.extra, q, e, t);
    case MATCH => MatchedBehind(s.length, s.offset, q, e, t);
    case LIT => assert e + (t + [s.length]) == e + t + [s.length];
    case _ =>
  }

  // What the window holds after a call is the end of the output so far.
  lemma WindowKeeps(h: seq<byte>, c: seq<byte>, size0: nat, x: seq<byte>, size: nat)
    requires c == Last(h, size0) && (size0 == size || (size0 == 0 && h == []))
    ensures Last(h + x, size) == Last(c + x, size)
  {
    LastAppend(h, x, size);
  }

  // updatewindow at the end of a call.
  method SaveOutput(s: Inflate) returns (ghost forgotten: seq<byte>)
    requires s.Valid()
    modifies s.win, s.win.window
    ensures s.win.Valid() && (s.win.window != old(s.win.window) ==> fresh(s.win.window))
    ensures old(s.Output()) == forgotten + s.win.Contents()
    ensures forgotten == [] || |s.win.Contents()| == Pow2(s.win.wbits)
  {
    hide Pow2, TablesOk, Last;
    ghost var h, c, size0, t := s.win.history, s.win.Contents(), s.win.wsize, s.Output();
    var failed := s.win.Update(s.out, s.put, s.put - s.beg, true);
    assert s.out[s.put - (s.put - s.beg)..s.put] == s.out[s.beg..s.put];
    WindowKeeps(h, c, size0, s.out[s.beg..s.put], s.win.wsize);
    forgotten := t[..|t| - |Last(t, s.win.wsize)|];
    LastSplits(t, s.win.wsize);
  }

  lemma LastSplits(t: seq<byte>, n: nat)
    ensures |Last(t, n)| <= |t| && t[..|t| - |Last(t, n)|] + Last(t, n) == t
    ensures |Last(t, n)| == |t| || |Last(t, n)| == n
  {
  }

  // The next call goes on from the saved state, with more input and a new output buffer.
  method Reenter(s: Inflate, out: array<byte>, put: nat, left: nat, more: seq<byte>) returns (r: Inflate)
    requires s.InputOk() && s.win.Valid() && out != s.win.window && put + left <= out.Length
    ensures fresh(r) && r.win == s.win && r.out == out && r.put == r.beg == put && r.left == left
    ensures r.tables == s.tables && r.ll == s.ll && r.dl == s.dl
    ensures r.InputOk() && r.OutputOk() && r.Output() == s.win.Contents()
    ensures r.hold == s.hold && r.bits == s.bits && r.next == 0 && r.X() == Extended(s.X(), more)
    ensures r.mode == s.mode && r.length == s.length && r.offset == s.offset && r.extra == s.extra
  {
    hide Pow2, TablesOk, Unread, Extended, InflateWindow.Valid;
    r := new Inflate(s.tables, s.ll, s.dl, s.win, out, put, left, s.input[s.next..] + more);
    r.hold, r.bits, r.mode, r.length, r.offset, r.extra := s.hold, s.bits, s.mode, s.length, s.offset, s.extra;
    UnreadMore(s.hold, s.bits, s.input, s.next, more);
    NothingWritten(s.win, out, put);
  }

  lemma NothingWritten(win: InflateWindow, out: array<byte>, put: nat)
    requires win.Valid() && put <= out.Length
    ensures C.Total(win, out, put, put) == win.Contents()
  {
    assert win.Contents() + out[put..put] == win.Contents();
  }

  // The end of a call and the beginning of the next, which writes to a buffer of
  // its own: the output so far moves to the window. With a window of 32K, whatever
  // has been forgotten makes no difference to what the symbol in progress will do.
  method NextCall(s: Inflate, out: array<byte>, put: nat, left: nat, more: seq<byte>)
    returns (r: Inflate, ghost forgotten: seq<byte>)
    requires s.Valid() && put + left <= out.Length && out != s.win.window
    modifies s.win, s.win.window
    ensures fresh(r) && r.Valid() && r.win == s.win && r.out == out && r.put == put && r.left == left
    ensures r.hold == s.hold && r.bits == s.bits && r.mode == s.mode && r.tables == s.tables && r.next == 0
    ensures old(s.Output()) == forgotten + r.Output()
    ensures Pow2(s.win.wbits) >= 32768
      ==> forall later :: Behind(forgotten, r.Finish(later)) == old(s.Finish(more + later))
  {
    hide Unread, Extended, Pow2, TablesOk, InflateWindow.Valid, InProgress, Behind, Recent;
    ghost var t, x := s.Output(), s.X();
    forall q ensures s.mode == LIT ==> s.length < 0x100
      ensures s.Doing(q) == InProgress(s.tables, s.mode, s.length, s.offset, s.extra, q, t)
    {
      DoingIs(s, q);
    }
    forgotten := SaveOutput(s);
    r := Reenter(s, out, put, left, more);
    if Pow2(s.win.wbits) >= 32768 {
      assert Recent(forgotten, r.Output()) by { RecentMeans(forgotten, r.Output()); }
      forall later ensures Behind(forgotten, r.Finish(later)) == old(s.Finish(more + later)) {
        ExtendedTwice(x, more, later);
        DoingIs(r, Extended(r.X(), later));
        ProgressBehind(r, Extended(r.X(), later), forgotten, r.Output());
      }
    }
  }

  lemma RecentMeans(e: seq<byte>, t: seq<byte>)
    ensures Recent(e, t) <==> e == [] || |t| >= 32768
  {
  }
}
