// inflate_fast of zlib's inffast.c: the same symbols without checking for
// input or output space inside a symbol. The bits and the output after each
// pass are those of the careful states.
module InflateFast {
  import opened Bits
  import opened InflateTable
  import opened InflateBits
  import opened InflateSymbols
  import opened InflateMachine
  import opened Window
  import C = MatchCopy

  // The local copies of hold, bits and next_in.
  datatype Acc = Acc(hold: nat, bits: nat, next: nat)

  // hold never needs more than 30 bits, and its whole bytes can be given back.
  ghost predicate AccOk(a: Acc, input: seq<byte>)
  {
    a.next <= |input| && a.hold < Pow2(a.bits) && a.bits <= 30 && Tail(a.hold, a.bits, input, a.next)
  }

  ghost function X(a: Acc, input: seq<byte>): (q: Queue)
    requires AccOk(a, input)
    ensures q.n >= a.bits
  {
    Count(a.hold, a.bits, input, a.next);
    Unread(a.hold, a.bits, input, a.next)
  }

  // hold += PUP(in) << bits; bits += 8
  function Pulled(a: Acc, input: seq<byte>): (r: Acc)
    requires AccOk(a, input) && a.next < |input| && a.bits <= 22
    ensures AccOk(r, input) && X(r, input) == X(a, input) && r.bits == a.bits + 8 && r.next == a.next + 1
  {
    PulledOk(a, input);
    Acc(a.hold + input[a.next] * Pow2(a.bits), a.bits + 8, a.next + 1)
  }

  lemma PulledOk(a: Acc, input: seq<byte>)
    requires AccOk(a, input) && a.next < |input| && a.bits <= 22
    ensures var r := Acc(a.hold + input[a.next] * Pow2(a.bits), a.bits + 8, a.next + 1);
            AccOk(r, input) && X(r, input) == X(a, input)
  {
    hide Pow2, Tail, Unread;
    Pull(a.hold, a.bits, input, a.next);
    TailPull(a.hold, a.bits, input, a.next);
  }

  // hold >>= n; bits -= n
  function Shifted(a: Acc, n: nat, ghost input: seq<byte>): (r: Acc)
    requires AccOk(a, input) && n <= a.bits
    ensures AccOk(r, input) && X(r, input) == Dropped(X(a, input), n) && r.bits == a.bits - n && r.next == a.next
  {
    Drop(a.hold, a.bits, input, a.next, n);
    TailDrop(a.hold, a.bits, input, a.next, n);
    Acc(Quotient(a.hold, Pow2(n)), a.bits - n, a.next)
  }

  // hold & ((1 << n) - 1)
  function Low(a: Acc, n: nat, ghost input: seq<byte>): (v: nat)
    requires AccOk(a, input) && n <= a.bits
    ensures v == X(a, input).x % Pow2(n)
  {
    LowBits(a.hold, a.bits, input, a.next, n);
    a.hold % Pow2(n)
  }

  // if (bits < 15) two more bytes
  function Refilled(a: Acc, input: seq<byte>): (r: Acc)
    requires AccOk(a, input) && a.next + 2 <= |input|
    ensures AccOk(r, input) && X(r, input) == X(a, input) && r.bits >= 15 && r.bits == a.bits + 8 * (r.next - a.next)
    ensures a.next <= r.next <= a.next + 2
  {
    if a.bits < 15 then Pulled(Pulled(a, input), input) else a
  }

  // dolen and dodist: the lookup with at least 15 bits at hand. The label is
  // reached a second time only through a link, and never a third time.
  method FastLook(t: seq<Code>, root: nat, a0: Acc, input: seq<byte>, ghost kind: CodeType, ghost lens: seq<byte>)
    returns (a: Acc, here: Code)
    requires TableOf(t, root, kind, lens) && AccOk(a0, input) && a0.bits >= 15
    ensures AccOk(a, input) && a.next == a0.next && a0.bits - 15 <= a.bits <= a0.bits
    ensures var (e, m) := Look(t, root, X(a0, input).x);
            e == here && EntryOk(kind, here) && m <= X(a0, input).n && X(a, input) == Dropped(X(a0, input), m)
            && a.bits == a0.bits - m
  {
    hide Pow2, TableOf, Look, Dropped, Tail, Unread, EntryOk;
    a := a0;
    ghost var q := X(a, input);
    ghost var x := q.x;
    LookGood(t, root, kind, lens, x);
    LookGood(t, root, kind, lens, a.hold);
    Settled(t, root, kind, lens, a.hold, a.bits, input, a.next);
    FirstLook(t, root, kind, lens, a.hold);
    LowBits(a.hold, a.bits, input, a.next, root);
    here := t[a.hold % Pow2(root)];
    if IsLink(here) {
      SecondLook(t, root, kind, lens, a.hold);
      ghost var h := here;
      SplitHold(a.hold, here.bits, here.op);
      a := Shifted(a, here.bits, input);
      here := t[here.val + a.hold % Pow2(here.op)];
      DroppedTwice(q, h.bits, here.bits);
    }
    a := Shifted(a, here.bits, input);
  }

  lemma SplitHold(hold: nat, root: nat, op: nat)
    ensures Quotient(hold % Pow2(root + op), Pow2(root)) == Quotient(hold, Pow2(root)) % Pow2(op)
  {
    SplitCode(hold, root, op);
  }

  // ---------------------------------------------------------------------
  // One pass of the loop
  // ---------------------------------------------------------------------
  datatype End = Again | EndOfBlock | Invalid

  // The outcome of a pass.
  ghost function Finally(end: End, q: Queue, total: seq<byte>): Outcome
  {
    match end
    case Again => More(q, total)
    case EndOfBlock => Ended(q, total)
    case Invalid => Failed(q, total)
  }

  // Bytes taken since a0, when used bits have been dropped.
  ghost predicate Spent(a0: Acc, a: Acc, used: nat)
  {
    a0.next <= a.next && a.bits + used == a0.bits + 8 * (a.next - a0.next)
  }

  // The extra bits of a length.
  method FastLength(a0: Acc, input: seq<byte>, val: nat, op: nat) returns (a: Acc, len: nat)
    requires AccOk(a0, input) && op <= 5 && a0.next < |input|
    ensures AccOk(a, input) && Spent(a0, a, op) && a.next <= a0.next + 1
    ensures op <= X(a0, input).n && len == val + X(a0, input).x % Pow2(op) && X(a, input) == Dropped(X(a0, input), op)
  {
    hide Pow2, Dropped, Tail, Unread;
    a, len := a0, val;
    if op > 0 {
      if a.bits < op { a := Pulled(a, input); }
      len := len + Low(a, op, input);
      a := Shifted(a, op, input);
    } else {
      NoExtra(X(a, input));
    }
  }

  // The extra bits of a distance: at most two more bytes, the second only if
  // six bytes have not been reached.
  method FastDistance(a0: Acc, input: seq<byte>, val: nat, op: nat, ghost first: Acc, ghost used: nat) returns (a: Acc,
    dist: nat)
    requires AccOk(a0, input) && op <= 13 && Spent(first, a0, used) && used <= 35
    requires a0.next <= first.next + 5 && first.next + 6 <= |input|
    ensures AccOk(a, input) && Spent(first, a, used + op) && a0.next <= a.next <= first.next + 6
    ensures op <= X(a0, input).n && dist == val + X(a0, input).x % Pow2(op) && X(a, input) == Dropped(X(a0, input), op)
  {
    hide Pow2, Dropped, Tail, Unread;
    a := a0;
    if a.bits < op {
      a := Pulled(a, input);
      if a.bits < op {
        a := Pulled(a, input);
      }
    }
    dist := val + Low(a, op, input);
    a := Shifted(a, op, input);
  }

  // The copy, when the whole match is known.
  method FastCopy(s: Inflate, ghost q: Queue, o: nat, dist: nat, len: nat) returns (o': nat, end: End)
    requires s.Valid() && s.beg <= o && o + 258 <= s.out.Length && 3 <= len <= 258 && dist >= 1
    modifies s.out
    ensures s.Valid() && o <= o' <= o + 258 && s.out[..o] == old(s.out[..o])
    ensures end != EndOfBlock && (end == Again ==> o < o')
    ensures Matched(len, dist, q, old(C.Total(s.win, s.out, s.beg, o)))
            == Finally(end, q, C.Total(s.win, s.out, s.beg, o'))
  {
    hide Pow2, TablesOk, C.Total, InflateWindow.Valid;
    C.TotalLength(s.win, s.out, s.beg, o);
    var ok := C.CopyFast(s.win, s.out, s.beg, o, dist, len);
    o' := if ok then o + len else o;
    end := if ok then Again else Invalid;
  }

  // A match after its length: the distance code, its extra bits and the copy.
  method FastReach(s: Inflate, a0: Acc, o: nat, len: nat, ghost first: Acc, ghost used: nat)
    returns (a: Acc, o': nat, end: End)
    requires s.Valid() && AccOk(a0, s.input) && s.beg <= o && o + 258 <= s.out.Length && 3 <= len <= 258
    requires Spent(first, a0, used) && used <= 20 && a0.next <= first.next + 3 && first.next + 6 <= |s.input|
    modifies s.out
    ensures s.Valid() && AccOk(a, s.input) && a0.next <= a.next <= first.next + 6 && o <= o' <= o + 258
      && s.out[..o] == old(s.out[..o])
    ensures end != EndOfBlock && (end == Again ==> o < o') && a.bits + used <= first.bits + 8 * (a.next - first.next)
    ensures AtDistance(s.tables, len, X(a0, s.input), old(C.Total(s.win, s.out, s.beg, o)))
            == Finally(end, X(a, s.input), C.Total(s.win, s.out, s.beg, o'))
  {
    hide Pow2, Dropped, Tail, Unread, TableOf, Look, Matched, C.Total, InflateWindow.Valid;
    var here, dist;
    a := Refilled(a0, s.input);
    ghost var k := Look(s.tables.dcode, s.tables.dbits, X(a, s.input).x).1;
    LookGood(s.tables.dcode, s.tables.dbits, DISTS, s.dl, X(a, s.input).x);
    a, here := FastLook(s.tables.dcode, s.tables.dbits, a, s.input, DISTS, s.dl);
    o' := o;
    if !Flag16(here.op) { return a, o', Invalid; }
    a, dist := FastDistance(a, s.input, here.val, here.op % 16, first, used + k);
    o', end := FastCopy(s, X(a, s.input), o, dist, len);
  }

  // A match after its length code.
  method FastMatch(s: Inflate, a0: Acc, o: nat, val: nat, extra: nat, ghost first: Acc, ghost used: nat)
    returns (a: Acc, o': nat, end: End)
    requires s.Valid() && AccOk(a0, s.input) && s.beg <= o && o + 258 <= s.out.Length
    requires extra <= 5 && 3 <= val && val + Pow2(extra) - 1 <= 258
    requires Spent(first, a0, used) && used <= 15 && a0.next <= first.next + 2 && first.next + 6 <= |s.input|
    modifies s.out
    ensures s.Valid() && AccOk(a, s.input) && a0.next <= a.next <= first.next + 6 && o <= o' <= o + 258
      && s.out[..o] == old(s.out[..o])
    ensures end != EndOfBlock && (end == Again ==> o < o') && a.bits + used <= first.bits + 8 * (a.next - first.next)
    ensures AfterLength(s.tables, val, extra, X(a0, s.input), old(C.Total(s.win, s.out, s.beg, o)))
            == Finally(end, X(a, s.input), C.Total(s.win, s.out, s.beg, o'))
  {
    hide Pow2, Dropped, Tail, Unread, TableOf, AtDistance, C.Total, InflateWindow.Valid;
    var len;
    a, len := FastLength(a0, s.input, val, extra);
    a, o', end := FastReach(s, a, o, len, first, used + extra);
  }

  // How long the next code is.
  ghost function FirstCode(s: Inflate, a: Acc): nat
    requires AccOk(a, s.input)
    reads s`input
  {
    Look(s.tables.lcode, s.tables.lbits, X(a, s.input).x).1
  }

  // One pass: a symbol, using at most 6 bytes of input and 258 of output space.
  method FastSymbol(s: Inflate, a0: Acc, o: nat) returns (a: Acc, o': nat, end: End)
    requires s.Valid() && AccOk(a0, s.input) && s.beg <= o && o + 258 <= s.out.Length && a0.next + 6 <= |s.input|
    modifies s.out
    ensures s.Valid() && AccOk(a, s.input) && a0.next <= a.next <= a0.next + 6 && o <= o' <= o + 258
      && s.out[..o] == old(s.out[..o])
    ensures end == Again ==> o < o'
    ensures a.bits + FirstCode(s, a0) <= a0.bits + 8 * (a.next - a0.next)
    ensures Symbol(s.tables, X(a0, s.input), old(C.Total(s.win, s.out, s.beg, o)))
            == Finally(end, X(a, s.input), C.Total(s.win, s.out, s.beg, o'))
  {
    hide Pow2, Dropped, Tail, Unread, TableOf, Look, C.Total, InflateWindow.Valid, AfterLength;
    var here;
    a := Refilled(a0, s.input);
    ghost var m := Look(s.tables.lcode, s.tables.lbits, X(a, s.input).x).1;
    LookGood(s.tables.lcode, s.tables.lbits, LENS, s.ll, X(a, s.input).x);
    a, here := FastLook(s.tables.lcode, s.tables.lbits, a, s.input, LENS, s.ll);
    o' := o;
    if here.op == 0 {
      SmallMod(here.val, 0x100);
      C.PutByte(s.win, s.out, s.beg, o, here.val);
      o' := o + 1;
      end := Again;
    } else if Flag16(here.op) {
      a, o', end := FastMatch(s, a, o, here.val, here.op % 16, a0, m);
    } else if Flag32(here.op) {
      end := EndOfBlock;
    } else {
      end := Invalid;
    }
  }

  function EndOf(state: State): End
  {
    if state == TYPE then EndOfBlock else if state == BAD then Invalid else Again
  }

  // The symbols begun: those complete, and the one that ended the block or failed.
  function Started(state: State, steps: nat): nat
  {
    if state == LEN then steps else steps + 1
  }

  // The loop, while there are six bytes of input and 258 of output space.
  method Loop(s: Inflate, a0: Acc) returns (a: Acc, out: nat, state: State, ghost steps: nat)
    requires s.Valid() && AccOk(a0, s.input) && a0.next + 6 <= |s.input| && s.left >= 258 && X(a0, s.input) == s.X()
    modifies s.out
    ensures a0.next <= a.next && a.bits + FirstCode(s, a0) <= a0.bits + 8 * (a.next - a0.next)
    ensures s.Valid() && AccOk(a, s.input) && s.put <= out <= s.put + s.left && s.out[..s.put] == old(s.out[..s.put])
    ensures state == LEN || state == TYPE || state == BAD
    ensures state == LEN ==> steps >= 1 && out > s.put && (out + 258 > s.put + s.left || a.next + 6 > |s.input|)
    ensures Symbols(s.tables, old(s.X()), old(s.Output()), Started(state, steps))
            == Finally(EndOf(state), X(a, s.input), C.Total(s.win, s.out, s.beg, out))
    ensures forall j :: 0 <= j < Started(state, steps) ==> Roomy(s.tables, old(s.X()), old(s.Output()), j, s.left)
  {
    hide AccOk, Unread, Pow2, TablesOk, C.Total, InflateWindow.Valid, Symbol, Symbols, Look;
    var input := s.input;
    a, out := a0, s.put;
    ghost var x0, t0, b := s.X(), s.Output(), s.out[..s.put];
    SymbolsZero(s.tables, x0, t0);
    C.TotalLength(s.win, s.out, s.beg, s.put);
    steps := 0;
    state := LEN;
    while true
      invariant s.Valid() && AccOk(a, input) && a.next + 6 <= |input| && a0.next <= a.next
      invariant if steps == 0 then a == a0 else a.bits + FirstCode(s, a0) <= a0.bits + 8 * (a.next - a0.next)
      invariant s.put <= out && out + 258 <= s.put + s.left && s.out[..s.put] == b && (steps > 0 ==> out > s.put)
      invariant Symbols(s.tables, x0, t0, steps) == More(X(a, input), C.Total(s.win, s.out, s.beg, out))
      invariant forall j :: 0 <= j < steps ==> Roomy(s.tables, x0, t0, j, s.left)
      decreases s.put + s.left - out
    {
      ghost var c := s.out[..out];
      C.TotalLength(s.win, s.out, s.beg, out);
      assert Roomy(s.tables, x0, t0, steps, s.left);
      var end;
      a, out, end := FastSymbol(s, a, out);
      assert s.out[..s.put] == c[..s.put];
      SymbolsNext(s.tables, x0, t0, steps);
      if end == EndOfBlock { state := TYPE; break; }
      if end == Invalid { state := BAD; break; }
      steps := steps + 1;
      if !(a.next + 6 <= |input| && out + 258 <= s.put + s.left) { break; }
    }
  }

  // inflate_fast. steps is the number of symbols decoded before it stopped. It
  // may be entered with a byte or more in hold when a call begins, if that does
  // not suffice for a code; it never goes back before where it began.
  method Run(s: Inflate) returns (ghost steps: nat)
    requires s.Valid() && s.mode == LEN && s.Lean() && (s.bits < 8 || s.next == 0)
    requires s.next + 6 <= |s.input| && s.left >= 258
    modifies s`hold, s`bits, s`next, s`put, s`left, s`mode, s.out
    ensures s.Valid() && s.bits < 8 && s.next >= old(s.next)
    ensures s.put >= old(s.put) && s.put + s.left == old(s.put + s.left) && s.out[..old(s.put)] == old(s.out[..s.put])
    ensures s.mode == LEN || s.mode == TYPE || s.mode == BAD
    ensures Symbols(s.tables, old(s.X()), old(s.Output()), Started(s.mode, steps)) == s.Reached()
    ensures s.mode == LEN ==> steps >= 1 && s.put > old(s.put) && (s.left < 258 || s.next + 9 > |s.input|)
    ensures forall j :: 0 <= j < Started(s.mode, steps)
              ==> Roomy(s.tables, old(s.X()), old(s.Output()), j, old(s.left))
  {
    hide AccOk, X, Pow2, TablesOk, C.Total, InflateWindow.Valid, Symbol, Symbols, Look, Roomy;
    var a, out := Acc(s.hold, s.bits, s.next), s.put;
    var state;
    LongFirst(s);
    Entering(s);
    a, out, state, steps := Loop(s, a);
    Leave(s, a, out, state);
  }

  // Back to inflate's own state.
  method Leave(s: Inflate, a: Acc, out: nat, state: State)
    requires s.Valid() && AccOk(a, s.input) && a.bits / 8 <= a.next
    requires s.put <= out <= s.put + s.left && (state == LEN || state == TYPE || state == BAD)
    modifies s`hold, s`bits, s`next, s`put, s`left, s`mode
    ensures s.Valid() && s.mode == state && s.put == out && s.left == old(s.put + s.left) - out
    ensures s.bits < 8 && a.next - 3 <= s.next == a.next - a.bits / 8
    ensures s.Reached() == Finally(EndOf(state), X(a, s.input), C.Total(s.win, s.out, s.beg, out))
  {
    hide AccOk, X, Pow2, TablesOk, C.Total, InflateWindow.Valid;
    ReturnBytes(s, a);
    s.left := s.left - (out - s.put);
    s.put := out;
    s.mode := state;
  }

  // return unused bytes
  method ReturnBytes(s: Inflate, a: Acc)
    requires AccOk(a, s.input) && a.bits / 8 <= a.next && TablesOk(s.tables, s.ll, s.dl)
    modifies s`hold, s`bits, s`next
    ensures s.InputOk() && s.X() == X(a, s.input) && s.bits < 8 && s.next == a.next - a.bits / 8 >= a.next - 3
  {
    hide Tail, Unread, Pow2, TablesOk;
    var len := a.bits / 8;
    GiveBack(a.hold, a.bits, s.input, a.next, len);
    s.next := a.next - len;
    s.bits := a.bits - 8 * len;
    s.hold := a.hold % Pow2(s.bits);
  }

  // The first code takes all that was in hold, or less than a byte was.
  lemma LongFirst(s: Inflate)
    requires s.Valid() && s.mode == LEN && s.Lean()
    ensures s.bits <= 14 && Look(s.tables.lcode, s.tables.lbits, s.X().x).1 + 7 > s.bits
  {
    hide Unread, Pow2, TableOf, Look;
    LookGood(s.tables.lcode, s.tables.lbits, LENS, s.ll, s.hold);
    LookGood(s.tables.lcode, s.tables.lbits, LENS, s.ll, s.X().x);
    if s.bits >= 8 { NotYet(s.tables.lcode, s.tables.lbits, LENS, s.ll, s.hold, s.bits, s.input, s.next); }
  }

  lemma Entering(s: Inflate)
    requires s.Valid() && s.bits <= 14 && (s.bits < 8 || s.next == 0)
    ensures AccOk(Acc(s.hold, s.bits, s.next), s.input) && X(Acc(s.hold, s.bits, s.next), s.input) == s.X()
  {
    hide Unread, Pow2, TablesOk, InflateWindow.Valid;
    ShortTail(s.hold, s.bits, s.input, s.next);
  }

  lemma ShortTail(hold: nat, bits: nat, input: seq<byte>, i: nat)
    requires (bits < 8 || i == 0) && i <= |input|
    ensures Tail(hold, bits, input, i)
  {
  }
}
