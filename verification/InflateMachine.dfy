// The LEN, LENEXT, DIST, DISTEXT, MATCH and LIT states of zlib's inflate: a
// machine that can stop for input or for output space anywhere. Every step
// keeps what the symbol in progress will finally do.
module InflateMachine {
  import opened Bits
  import opened CodeSpace
  import opened InflateTable
  import opened InflateBits
  import opened InflateSymbols
  import opened Lz77
  import opened Window
  import C = MatchCopy

  datatype State = LEN | LENEXT | DIST | DISTEXT | MATCH | LIT | TYPE | BAD

  class Inflate {
    const tables: Tables
    ghost const ll: seq<byte>     // the code lengths the tables were made from
    ghost const dl: seq<byte>
    const win: InflateWindow
    const out: array<byte>
    const beg: nat

    var input: seq<byte>
    var next: nat
    var hold: nat
    var bits: nat
    var put: nat
    var left: nat
    var mode: State
    var length: nat
    var offset: nat
    var extra: nat

    ghost predicate InputOk()
      reads this`input, this`next, this`hold, this`bits
    {
      next <= |input| && hold < Pow2(bits) && TablesOk(tables, ll, dl)
    }

    ghost predicate OutputOk()
      reads this`put, this`left, win, win.window
    {
      win.Valid() && out != win.window && beg <= put && put + left <= out.Length
    }

    ghost predicate Valid()
      reads this, win, win.window
    {
      && InputOk() && OutputOk()
      && match mode
         case LENEXT => extra <= 5 && 3 <= length && length + Pow2(extra) - 1 <= 258
         case DIST => 3 <= length <= 258
         case DISTEXT => 3 <= length <= 258 && extra <= 13 && 1 <= offset && offset + Pow2(extra) - 1 <= 32768
         case MATCH => 1 <= length <= 258 && 1 <= offset <= 32768
         case LIT => length < 0x100
         case _ => true
    }

    // The unread bits and the output so far.
    ghost function X(): Queue
      requires InputOk()
      reads this`input, this`next, this`hold, this`bits
    {
      Unread(hold, bits, input, next)
    }

    ghost function Output(): seq<byte>
      requires OutputOk()
      reads this`put, this`left, win, win.window, out
    {
      C.Total(win, out, beg, put)
    }

    // What the symbol in progress will do when the unread bits are q.
    ghost function Doing(q: Queue): Outcome
      requires Valid()
      reads this, win, win.window, out
    {
      match mode
      case LEN => Symbol(tables, q, Output())
      case LENEXT => AfterLength(tables, length, extra, q, Output())
      case DIST => AtDistance(tables, length, q, Output())
      case DISTEXT => AfterDistance(length, offset, extra, q, Output())
      case MATCH => Matched(length, offset, q, Output())
      case LIT => More(q, Output() + [length])
      case TYPE => Ended(q, Output())
      case BAD => Failed(q, Output())
    }

    // What it will do if the input goes on with these bytes.
    ghost function Finish(more: seq<byte>): Outcome
      requires Valid()
      reads this, win, win.window, out
    {
      Doing(Extended(X(), more))
    }

    // The input at hand does not suffice for it.
    ghost predicate Starved()
      requires Valid()
      reads this, win, win.window, out
    {
      next == |input| && Doing(X()) == Short
    }

    // Less than a byte is in hold, or what is in hold does not suffice for the
    // next step, so that another byte will be pulled.
    ghost predicate Lean()
      reads this`hold, this`bits, this`mode, this`extra
    {
      bits < 8 || match mode
                  case LEN => Look(tables.lcode, tables.lbits, hold).1 > bits
                  case DIST => Look(tables.dcode, tables.dbits, hold).1 > bits
                  case LENEXT => extra > bits
                  case DISTEXT => extra > bits
                  case _ => false
    }

    constructor (tables: Tables, ghost ll: seq<byte>, ghost dl: seq<byte>, win: InflateWindow, out: array<byte>,
      put: nat, left: nat, input: seq<byte>)
      requires TablesOk(tables, ll, dl) && win.Valid() && out != win.window && put + left <= out.Length
      ensures Valid() && Lean() && mode == LEN && X() == Unread(0, 0, input, 0)
        && Output() == C.Total(win, out, put, put)
      ensures this.tables == tables && this.win == win && this.out == out && this.ll == ll && this.dl == dl
      ensures this.input == input && this.put == this.beg == put && this.left == left && next == 0
    {
      this.tables, this.ll, this.dl, this.win, this.out, this.beg := tables, ll, dl, win, out, put;
      this.input, next, hold, bits, this.put, this.left := input, 0, 0, 0, put, left;
      mode, length, offset, extra := LEN, 0, 0, 0;
    }

    // PULLBYTE
    method PullByte() returns (ok: bool)
      requires InputOk()
      modifies this`hold, this`bits, this`next
      ensures InputOk() && X() == old(X())
      ensures ok <==> old(next) < |input|
      ensures ok ==> bits == old(bits) + 8 && next == old(next) + 1
      ensures !ok ==> bits == old(bits) && next == old(next) && hold == old(hold)
    {
      hide Val, Pow2, TablesOk;
      if next == |input| { return false; }
      Pull(hold, bits, input, next);
      hold := hold + input[next] * Pow2(bits);
      bits := bits + 8;
      next := next + 1;
      ok := true;
    }

    // NEEDBITS
    method NeedBits(n: nat) returns (ok: bool)
      requires InputOk()
      modifies this`hold, this`bits, this`next
      ensures InputOk() && X() == old(X())
      ensures ok ==> n <= bits
      ensures !ok ==> next == |input| && bits < n && X().n < n
      ensures (bits == old(bits) && hold == old(hold)) || bits < n + 8
    {
      hide Val, Pow2, TablesOk;
      while bits < n
        invariant InputOk() && X() == old(X())
        invariant (bits == old(bits) && hold == old(hold)) || bits < n + 8
        decreases |input| - next
      {
        ok := PullByte();
        if !ok { return; }
      }
      ok := true;
    }

    // BITS
    method BitsOf(n: nat) returns (v: nat)
      requires InputOk() && n <= bits
      ensures v == X().x % Pow2(n)
    {
      hide Pow2, TablesOk, Val;
      LowBits(hold, bits, input, next, n);
      v := hold % Pow2(n);
    }

    // DROPBITS
    method DropBits(n: nat)
      requires InputOk() && n <= bits
      modifies this`hold, this`bits
      ensures InputOk() && n <= old(X()).n && X() == Dropped(old(X()), n) && bits == old(bits) - n
    {
      hide Unread, Pow2, TablesOk;
      Count(hold, bits, input, next);
      Drop(hold, bits, input, next, n);
      hold := Quotient(hold, Pow2(n));
      bits := bits - n;
    }

    // NEEDBITS, BITS and DROPBITS.
    method Take(n: nat) returns (ok: bool, v: nat)
      requires InputOk()
      modifies this`hold, this`bits, this`next
      ensures InputOk()
      ensures ok ==> n <= old(X()).n && v == old(X()).x % Pow2(n) && X() == Dropped(old(X()), n)
      ensures ok && (old(bits) < 8 || n > old(bits)) ==> bits < 8
      ensures !ok ==> X() == old(X()) && next == |input| && X().n < n && bits < n
    {
      hide Unread, Pow2, TablesOk, Dropped;
      v := 0;
      ok := NeedBits(n);
      if !ok { return; }
      LowBits(hold, bits, input, next, n);
      v := BitsOf(n);
      DropBits(n);
    }

    // A lookup with as many pulled bytes as it takes, and its bits dropped.
    method LookUp(t: seq<Code>, root: nat, ghost kind: CodeType, ghost lens: seq<byte>) returns (ok: bool, here: Code)
      requires InputOk() && TableOf(t, root, kind, lens)
      modifies this`hold, this`bits, this`next
      ensures InputOk()
      ensures ok
        ==> var (e, m) := Look(t, root, old(X()).x);
            e == here && m <= old(X()).n && X() == Dropped(old(X()), m)
      ensures !ok ==> X() == old(X()) && next == |input| && Look(t, root, X().x).1 > X().n
      ensures !ok ==> Look(t, root, hold).1 > bits
      ensures ok && (old(bits) < 8 || Look(t, root, old(hold)).1 > old(bits)) ==> bits < 8
    {
      hide Unread, Pow2, TableOf, TablesOk, Dropped, Look;
      ghost var q := X();
      while true
        invariant InputOk() && X() == q
        invariant (bits == old(bits) && hold == old(hold)) || bits < Look(t, root, q.x).1 + 8
        decreases |input| - next
      {
        FirstLook(t, root, kind, lens, hold);
        here := t[hold % Pow2(root)];
        if here.bits <= bits { break; }
        NotYet(t, root, kind, lens, hold, bits, input, next);
        Count(hold, bits, input, next);
        ok := PullByte();
        if !ok { return; }
      }
      Count(hold, bits, input, next);
      if IsLink(here) {
        LowBits(hold, bits, input, next, root);
        ok, here := FollowLink(t, root, here, kind, lens);
      } else {
        Settled(t, root, kind, lens, hold, bits, input, next);
        DropBits(here.bits);
        ok := true;
      }
    }

    // The second half of a lookup, when the root entry is a link.
    method FollowLink(t: seq<Code>, root: nat, last: Code, ghost kind: CodeType, ghost lens: seq<byte>)
      returns (ok: bool, here: Code)
      requires InputOk() && TableOf(t, root, kind, lens) && last.bits == root <= bits && IsLink(last)
      requires X().x % Pow2(root) < |t| && last == t[X().x % Pow2(root)]
      modifies this`hold, this`bits, this`next
      ensures InputOk()
      ensures ok
        ==> var (e, m) := Look(t, root, old(X()).x);
            e == here && m <= old(X()).n && X() == Dropped(old(X()), m)
      ensures !ok ==> X() == old(X()) && next == |input| && Look(t, root, X().x).1 > X().n
      ensures !ok ==> Look(t, root, hold).1 > bits
      ensures ok ==> bits < 8 || bits + Look(t, root, old(X()).x).1 == old(bits)
      ensures ok && (old(bits) < 8 || Look(t, root, old(hold)).1 > old(bits)) ==> bits < 8
    {
      hide Unread, Pow2, TableOf, TablesOk, Dropped, Look;
      ghost var q := X();
      while true
        invariant InputOk() && X() == q && root <= bits
        invariant (bits == old(bits) && hold == old(hold)) || bits < Look(t, root, q.x).1 + 8
        decreases |input| - next
      {
        LowBits(hold, bits, input, next, root);
        SecondLook(t, root, kind, lens, hold);
        here := t[last.val + Quotient(hold % Pow2(last.bits + last.op), Pow2(last.bits))];
        if last.bits + here.bits <= bits { break; }
        NotYet(t, root, kind, lens, hold, bits, input, next);
        Count(hold, bits, input, next);
        ok := PullByte();
        if !ok { return; }
      }
      Settled(t, root, kind, lens, hold, bits, input, next);
      Count(hold, bits, input, next);
      DroppedTwice(q, last.bits, here.bits);
      DropBits(last.bits);
      DropBits(here.bits);
      ok := true;
    }

    // What comes after a literal/length code.
    method AfterLen(here: Code)
      requires Valid() && mode == LEN && EntryOk(LENS, here)
      modifies this`mode, this`length, this`extra
      ensures Valid() && (mode == LIT || mode == TYPE || mode == BAD || mode == LENEXT)
      ensures forall q :: Doing(q) == AfterCode(tables, here, q, Output())
    {
      hide Unread, Pow2, TableOf, Dropped, AfterLength, C.Total, InflateWindow.Valid;
      length := here.val;
      if here.op == 0 {
        SmallMod(here.val, 0x100);
        mode := LIT;
      } else if Flag32(here.op) {
        mode := TYPE;
      } else if Flag64(here.op) {
        mode := BAD;
      } else {
        extra := here.op % 16;
        mode := LENEXT;
      }
    }

    // case LEN: a literal/length code.
    method StepLen() returns (leave: bool)
      requires Valid() && mode == LEN
      modifies this`hold, this`bits, this`next, this`mode, this`length, this`extra
      ensures Valid() && forall more :: Finish(more) == old(Finish(more))
      ensures if leave then mode == LEN && Starved()
              else mode == LIT || mode == TYPE || mode == BAD || mode == LENEXT
      ensures if leave then Lean() else old(Lean()) ==> bits < 8
    {
      hide Unread, Extended, Pow2, TableOf, Dropped, Look, AfterLength, C.Total;
      ghost var q, t := X(), Output();
      LookGood(tables.lcode, tables.lbits, LENS, ll, q.x);
      var ok, here := LookUp(tables.lcode, tables.lbits, LENS, ll);
      if !ok { return true; }
      AfterLen(here);
      leave := false;
      forall more ensures Finish(more) == old(Finish(more)) { CodeTaken(tables, ll, q, more, t); }
    }

    // case LENEXT: the extra bits of a length.
    method StepLenExt() returns (leave: bool)
      requires Valid() && mode == LENEXT
      modifies this`hold, this`bits, this`next, this`mode, this`length
      ensures Valid() && forall more :: Finish(more) == old(Finish(more))
      ensures if leave then mode == LENEXT && Starved() else mode == DIST
      ensures if leave then Lean() else old(Lean()) ==> bits < 8
    {
      hide Unread, Extended, Pow2, TableOf, Dropped, AtDistance, C.Total;
      ghost var q, t, len := X(), Output(), length;
      if extra > 0 {
        var ok, v := Take(extra);
        if !ok { return true; }
        length := length + v;
      } else {
        NoExtra(q);
      }
      mode := DIST;
      leave := false;
      forall more ensures Finish(more) == old(Finish(more)) { LengthTaken(tables, len, extra, q, more, t); }
    }

    // What comes after a distance code.
    method AfterDist(here: Code)
      requires Valid() && mode == DIST && EntryOk(DISTS, here)
      modifies this`mode, this`offset, this`extra
      ensures Valid() && (mode == DISTEXT || mode == BAD)
      ensures forall q :: Doing(q) == AfterDistanceCode(old(length), here, q, Output())
    {
      hide Unread, Pow2, TableOf, Dropped, AfterDistance, C.Total, InflateWindow.Valid;
      if Flag64(here.op) {
        mode := BAD;
      } else {
        offset := here.val;
        extra := here.op % 16;
        mode := DISTEXT;
      }
    }

    // case DIST: a distance code.
    method StepDist() returns (leave: bool)
      requires Valid() && mode == DIST
      modifies this`hold, this`bits, this`next, this`mode, this`offset, this`extra
      ensures Valid() && forall more :: Finish(more) == old(Finish(more))
      ensures if leave then mode == DIST && Starved() else mode == DISTEXT || mode == BAD
      ensures if leave then Lean() else old(Lean()) ==> bits < 8
    {
      hide Unread, Extended, Pow2, TableOf, Dropped, Look, AfterDistance, C.Total;
      ghost var q, t := X(), Output();
      LookGood(tables.dcode, tables.dbits, DISTS, dl, q.x);
      var ok, here := LookUp(tables.dcode, tables.dbits, DISTS, dl);
      if !ok { return true; }
      AfterDist(here);
      leave := false;
      forall more ensures Finish(more) == old(Finish(more)) { DistanceCodeTaken(tables, dl, length, q, more, t); }
    }

    // case DISTEXT: the extra bits of a distance.
    method StepDistExt() returns (leave: bool)
      requires Valid() && mode == DISTEXT
      modifies this`hold, this`bits, this`next, this`mode, this`offset
      ensures Valid() && forall more :: Finish(more) == old(Finish(more))
      ensures if leave then mode == DISTEXT && Starved() else mode == MATCH
      ensures if leave then Lean() else old(Lean()) ==> bits < 8
    {
      hide Unread, Extended, Pow2, TableOf, Dropped, Matched, C.Total;
      ghost var q, t, base := X(), Output(), offset;
      if extra > 0 {
        var ok, v := Take(extra);
        if !ok { return true; }
        offset := offset + v;
      } else {
        NoExtra(q);
      }
      mode := MATCH;
      leave := false;
      forall more ensures Finish(more) == old(Finish(more)) { DistanceTaken(length, base, extra, q, more, t); }
    }

    // One stretch of the copy.
    method CopyStretch() returns (m: C.Mode)
      requires Valid() && mode == MATCH
      modifies this`length, this`put, this`left, out
      ensures InputOk() && OutputOk() && (m == C.LEAVE <==> old(left) == 0)
      ensures put + left == old(put + left) && length + put == old(length + put)
      ensures m == C.LEAVE || m == C.BAD ==> put == old(put) && Output() == old(Output())
      ensures m == C.BAD ==> forall q :: Matched(length, offset, q, Output()) == Failed(q, Output())
      ensures m == C.LEN || m == C.MATCH ==> put > old(put) && (m == C.LEN <==> length == 0)
      ensures m == C.LEN || m == C.MATCH
        ==> forall q :: Matched(old(length), offset, q, old(Output()))
                        == if length == 0 then More(q, Output()) else Matched(length, offset, q, Output())
    {
      hide Unread, Pow2, TablesOk, C.Total, InflateWindow.Valid, Repeats, Matched;
      ghost var t0 := Output();
      C.TotalLength(win, out, beg, put);
      C.AlreadyRepeats(t0, offset);
      m, put, left, length := C.MatchStep(win, out, beg, put, left, offset, length, t0);
      C.TotalLength(win, out, beg, put);
      if m == C.BAD {
        MatchFails(t0, offset, length);
      } else if m != C.LEAVE {
        MatchGoesOn(t0, Output(), offset, length);
      }
    }

    // case MATCH: back at LEN, the symbol is complete.
    method StepMatch() returns (leave: bool)
      requires Valid() && mode == MATCH
      modifies this`mode, this`length, this`put, this`left, out
      ensures Valid() && (leave ==> left == 0 && mode == MATCH)
      ensures mode == LEN || mode == MATCH || mode == BAD
      ensures mode == LEN ==> length == 0 && forall q :: old(Doing(q)) == More(q, Output())
      ensures mode != LEN ==> forall q :: Doing(q) == old(Doing(q))
      ensures !leave && mode == MATCH ==> length < old(length)
      ensures put >= old(put) && put + left == old(put + left) && length + put == old(length + put)
    {
      hide Unread, Pow2, TablesOk, C.Total, InflateWindow.Valid, Symbol, AfterLength, AtDistance, AfterDistance,
        Matched;
      var m := CopyStretch();
      leave := m == C.LEAVE;
      if m == C.BAD {
        mode := BAD;
      } else if m == C.LEN {
        mode := LEN;
      }
    }

    // case LIT
    method StepLit() returns (leave: bool)
      requires Valid() && mode == LIT
      modifies this`mode, this`put, this`left, out
      ensures Valid() && (leave <==> mode == LIT) && (leave ==> left == 0)
      ensures leave ==> forall q :: Doing(q) == old(Doing(q))
      ensures !leave ==> mode == LEN && forall q :: old(Doing(q)) == More(q, Output())
      ensures put + left == old(put + left) && (if leave then put == old(put) else put == old(put) + 1)
    {
      hide Unread, Pow2, TablesOk, C.Total, InflateWindow.Valid;
      if left == 0 { return true; }
      C.PutByte(win, out, beg, put, length);
      put := put + 1;
      left := left - 1;
      mode := LEN;
      leave := false;
    }

    // The MATCH state until it is left.
    method CopyAll() returns (leave: bool)
      requires Valid() && mode == MATCH
      modifies this`mode, this`length, this`put, this`left, out
      ensures Valid() && (leave ==> left == 0 && mode == MATCH) && (!leave ==> mode == LEN || mode == BAD)
      ensures mode == LEN ==> put > old(put)
      ensures mode == LEN ==> forall q :: old(Doing(q)) == More(q, Output())
      ensures mode != LEN ==> forall q :: Doing(q) == old(Doing(q))
      ensures put >= old(put) && put + left == old(put + left) && length + put == old(length + put)
    {
      hide Unread, Pow2, TablesOk, Matched, C.Total, InflateWindow.Valid;
      leave := false;
      while !leave && mode == MATCH
        invariant Valid() && (leave ==> left == 0 && mode == MATCH) && (mode == LEN || mode == MATCH || mode == BAD)
        invariant mode == LEN ==> length == 0 && forall q :: old(Doing(q)) == More(q, Output())
        invariant mode != LEN ==> forall q :: Doing(q) == old(Doing(q))
        invariant put >= old(put) && put + left == old(put + left) && length + put == old(length + put)
        decreases if leave then 0 else 1, length, if mode == MATCH then 1 else 0
      {
        leave := StepMatch();
      }
    }

    // Between symbols: the bits left and the output.
    ghost function Reached(): (o: Outcome)
      requires Valid()
      reads this, win, win.window, out
      ensures !o.Short?
    {
      if mode == TYPE then Ended(X(), Output()) else if mode == BAD then Failed(X(), Output()) else More(X(), Output())
    }

    // The code, the extra bits, the distance code and its extra bits: everything before the copy.
    method ReadSymbol() returns (leave: bool)
      requires Valid() && mode != TYPE && mode != BAD
      modifies this`hold, this`bits, this`next, this`mode, this`length, this`offset, this`extra
      ensures Valid() && forall more :: Finish(more) == old(Finish(more))
      ensures if leave then Starved() else mode == LIT || mode == MATCH || mode == TYPE || mode == BAD
      ensures old(Lean()) ==> if leave then Lean() else bits < 8
    {
      hide Unread, Extended, Pow2, TablesOk, Symbol, AfterLength, AtDistance, AfterDistance, Matched, C.Total,
        InflateWindow.Valid, Doing;
      leave := false;
      LeanElsewhere();
      if mode == LEN { leave := StepLen(); }
      if !leave && mode == LENEXT { leave := StepLenExt(); }
      if !leave && mode == DIST { leave := StepDist(); }
      if !leave && mode == DISTEXT { leave := StepDistExt(); }
    }

    lemma LeanElsewhere()
      ensures mode == LIT || mode == MATCH ==> (Lean() <==> bits < 8)
    {
    }

    // From LEN to the end of one symbol, or to where input or output space runs
    // out. A stop for want of input means that the symbol needs more bits than
    // there are; whatever bytes come next, it ends as it would have with them
    // at hand from the start.
    method OneSymbol() returns (leave: bool)
      requires Valid() && mode != TYPE && mode != BAD
      modifies this`hold, this`bits, this`next, this`mode, this`length, this`offset, this`extra, this`put, this`left,
        out
      ensures Valid() && put >= old(put) && put + left == old(put + left)
      ensures leave ==> (Starved() || left == 0) && forall more :: Finish(more) == old(Finish(more))
      ensures leave && old(mode) == LEN && old(left) >= 258 ==> Starved()
      ensures !leave ==> (mode == LEN && put > old(put)) || mode == TYPE || mode == BAD
      ensures !leave ==> forall more :: old(Finish(more)) == Followed(Reached(), more)
      ensures old(Lean()) ==> Lean() && (!leave ==> bits < 8)
    {
      hide Unread, Extended, Pow2, TablesOk, Symbol, AfterLength, AtDistance, AfterDistance, Matched, C.Total,
        InflateWindow.Valid;
      leave := ReadSymbol();
      if leave { return; }
      if mode == LIT {
        leave := StepLit();
      } else if mode == MATCH {
        leave := CopyAll();
      }
    }

    lemma OutputLength()
      requires OutputOk()
      ensures |Output()| == win.whave + (put - beg)
    {
      hide InflateWindow.Valid;
      C.TotalLength(win, out, beg, put);
    }

    // What has been written between symbols.
    lemma OutputGrows(q0: Queue, t0: seq<byte>, n: nat, put0: nat, left0: nat)
      requires Valid() && mode == LEN && put >= put0 >= beg && put + left == put0 + left0
      requires |t0| + put == |Output()| + put0
      requires Symbols(tables, Extended(q0, []), t0, n) == Followed(Reached(), [])
      ensures Roomy(tables, q0, t0, n, left0) ==> left >= 258
    {
      hide Symbols, Extended, Unread, C.Total;
      ExtendedNothing(q0);
    }

    lemma ShortNow(q0: Queue, t0: seq<byte>, n: nat, k: nat)
      requires Valid() && Starved() && n < k && Symbols(tables, Extended(q0, []), t0, n + 1) == Finish([])
      ensures Symbols(tables, q0, t0, k) == Short
    {
      hide Symbols, Extended, Unread, Doing;
      ExtendedNothing(q0);
      ExtendedNothing(X());
      SymbolsEnd(tables, q0, t0, n + 1, k);
    }

    // k symbols, unless the block ends or input or output space runs out; done
    // of them are complete before the one in which that happens.
    method SeveralSymbols(k: nat) returns (leave: bool, ghost done: nat)
      requires Valid() && mode == LEN
      modifies this`hold, this`bits, this`next, this`mode, this`length, this`offset, this`extra, this`put, this`left,
        out
      ensures Valid() && put >= old(put) && put + left == old(put + left)
      ensures !leave ==> mode == LEN || mode == TYPE || mode == BAD
      ensures !leave
        ==> forall more :: Symbols(tables, Extended(old(X()), more), old(Output()), k) == Followed(Reached(), more)
      ensures leave ==> (Starved() || left == 0) && done < k
      ensures leave
        ==> forall more :: Symbols(tables, Extended(old(X()), more), old(Output()), done + 1) == Finish(more)
      ensures leave && (forall j :: 0 <= j < k ==> Roomy(tables, old(X()), old(Output()), j, old(left)))
        ==> Symbols(tables, old(X()), old(Output()), k) == Short
      ensures old(bits) < 8 ==> Lean() && (!leave ==> bits < 8)
    {
      hide Unread, Extended, Pow2, TablesOk, Symbol, Symbols, C.Total, InflateWindow.Valid;
      var n := 0;
      leave := false;
      done := 0;
      ghost var q0, t0 := X(), Output();
      OutputLength();
      forall more ensures Symbols(tables, Extended(q0, more), t0, 0) == Followed(Reached(), more) {
        SymbolsZero(tables, Extended(q0, more), t0);
      }
      while n < k && mode == LEN
        invariant Valid() && n <= k && put >= old(put) && put + left == old(put + left)
        invariant mode == LEN || mode == TYPE || mode == BAD
        invariant forall more :: Symbols(tables, Extended(q0, more), t0, n) == Followed(Reached(), more)
        invariant old(bits) < 8 ==> bits < 8
        invariant |t0| + put == |Output()| + old(put)
      {
        forall more ensures Symbols(tables, Extended(q0, more), t0, n + 1) == Finish(more) {
          SymbolsNext(tables, Extended(q0, more), t0, n);
        }
        ghost var before := left;
        OutputGrows(q0, t0, n, old(put), old(left));
        done := n;
        leave := OneSymbol();
        if leave {
          if before >= 258 { ShortNow(q0, t0, n, k); }
          return;
        }
        n := n + 1;
        OutputLength();
      }
      if mode != LEN {
        forall more ensures Symbols(tables, Extended(q0, more), t0, k) == Followed(Reached(), more) {
          SymbolsEnd(tables, Extended(q0, more), t0, n, k);
        }
      }
    }
  }

  // After j symbols there is room for the longest there is.
  ghost predicate Roomy(g: Tables, q: Queue, total: seq<byte>, j: nat, left: nat)
  {
    var o := Symbols(g, q, total, j);
    o.More? && |o.total| + 258 <= |total| + left
  }

  // Part of a match copied, the rest still to copy.
  lemma MatchGoesOn(t0: seq<byte>, t: seq<byte>, offset: nat, rest: nat)
    requires 1 <= offset <= |t0| && Repeats(t0, t, offset)
    ensures forall q :: Matched(|t| - |t0| + rest, offset, q, t0)
                        == if rest == 0 then More(q, t) else Matched(rest, offset, q, t)
  {
    RepeatsIsCopy(t0, t, offset);
    CopyAppend(t0, offset, |t| - |t0|, rest);
  }

  lemma MatchFails(t: seq<byte>, offset: nat, length: nat)
    requires offset > |t|
    ensures forall q :: Matched(length, offset, q, t) == Failed(q, t)
  {
  }

  lemma NoExtra(q: Queue)
    ensures Pow2(0) == 1 && q.x % 1 == 0 && Dropped(q, 0) == q
  {
  }

  lemma DroppedTwice(q: Queue, m: nat, n: nat)
    requires m + n <= q.n
    ensures Dropped(Dropped(q, m), n) == Dropped(q, m + n)
  {
    hide Pow2;
    Pow2Add(m, n);
    DivideTwice(q.x, Pow2(m), Pow2(n));
  }

  lemma Count(hold: nat, bits: nat, input: seq<byte>, i: nat)
    requires i <= |input|
    ensures Unread(hold, bits, input, i).n == bits + 8 * (|input| - i)
  {
    hide Pow2, Val;
  }

  // The first lookup is in the table; a lookup that ends there is the whole lookup.
  lemma FirstLook(t: seq<Code>, root: nat, kind: CodeType, lens: seq<byte>, x: nat)
    requires TableOf(t, root, kind, lens)
    ensures x % Pow2(root) < |t| && 1 <= root <= MAXBITS
    ensures var h := t[x % Pow2(root)]; if IsLink(h) then h.bits == root else Look(t, root, x) == (h, h.bits)
    ensures Look(t, root, x).1 >= t[x % Pow2(root)].bits
  {
    hide Pow2, Quotient, Resolves;
    assert RootEntry(t, root, x % Pow2(root));
    if IsLink(t[x % Pow2(root)]) { SecondLook(t, root, kind, lens, x); }
  }

  // A lookup through a link stays in the table.
  lemma SecondLook(t: seq<Code>, root: nat, kind: CodeType, lens: seq<byte>, x: nat)
    requires TableOf(t, root, kind, lens) && x % Pow2(root) < |t| && IsLink(t[x % Pow2(root)])
    ensures var h := t[x % Pow2(root)];
            var j := h.val + Quotient(x % Pow2(h.bits + h.op), Pow2(h.bits));
            j < |t| && Look(t, root, x) == (t[j], h.bits + t[j].bits)
  {
    hide Pow2, Quotient;
    LookInside(t, root, kind, lens, x);
  }

  lemma LookInside(t: seq<Code>, root: nat, kind: CodeType, lens: seq<byte>, x: nat)
    requires TableOf(t, root, kind, lens)
    ensures Resolves(t, root, x, Look(t, root, x).0, Look(t, root, x).1)
  {
    hide Pow2, Quotient, Resolves, Look, Entry, SortedCodes.Sorted, SortedCodes.Order, IsCode;
    assert DecodesAt(t, root, kind, lens, x);
    if u :| 0 <= u < |SortedCodes.Sorted(lens)| && IsCode(SortedCodes.Sorted(lens), u, x) {
      assert ResolvesTo(t, root, kind, lens, u, x);
      SortedCodes.OrderIn(lens, u);
      var l := SortedCodes.Sorted(lens)[u];
      ResolvesIsLook(t, root, x, Entry(kind, SortedCodes.Order(lens)[u], if l <= root then l else l - root), l);
    } else {
      ResolvesIsLook(t, root, x, Code(INVALID, 1, 0), 1);
    }
  }

  // A lookup of the bits in hold that needs no more than there are is the lookup of all unread bits.
  lemma Settled(t: seq<Code>, root: nat, kind: CodeType, lens: seq<byte>, hold: nat, bits: nat, input: seq<byte>,
    i: nat)
    requires TableOf(t, root, kind, lens) && i <= |input| && Look(t, root, hold).1 <= bits
    ensures Look(t, root, Unread(hold, bits, input, i).x) == Look(t, root, hold)
  {
    hide Pow2, TableOf, Unread, Look;
    LowBits(hold, bits, input, i, Look(t, root, hold).1);
    LookStable(t, root, kind, lens, hold, Unread(hold, bits, input, i).x);
  }

  // A lookup that would need more bits than hold has needs more whatever follows.
  lemma NotYet(t: seq<Code>, root: nat, kind: CodeType, lens: seq<byte>, hold: nat, bits: nat, input: seq<byte>,
    i: nat)
    requires TableOf(t, root, kind, lens) && i <= |input|
    requires Look(t, root, hold).1 > bits
    ensures Look(t, root, Unread(hold, bits, input, i).x).1 > bits
  {
    hide Pow2, TableOf, Unread, Look;
    var x := Unread(hold, bits, input, i).x;
    if Look(t, root, x).1 <= bits {
      LowBits(hold, bits, input, i, Look(t, root, x).1);
      LookStable(t, root, kind, lens, x, hold);
    }
  }
}
