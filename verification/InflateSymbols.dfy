// What one symbol of a deflate block means: a literal, a length and distance
// pair with their extra bits, or the end of the block, read from the decoding
// tables (section 3.2.5 of RFC 1951).
module InflateSymbols {
  import opened Bits
  import opened CodeSpace
  import opened SortedCodes
  import opened InflateTable
  import opened InflateBits
  import opened Lz77

  // The entry a lookup of the bits x ends at, and how many bits it drops.
  ghost function Look(t: seq<Code>, root: nat, x: nat): (Code, nat)
  {
    var i := x % Pow2(root);
    if i >= |t| then (Code(INVALID, 1, 0), 1)
    else if !IsLink(t[i]) then (t[i], t[i].bits)
    else
      var j := t[i].val + Quotient(x % Pow2(t[i].bits + t[i].op), Pow2(t[i].bits));
      if j >= |t| then (Code(INVALID, 1, 0), 1) else (t[j], t[i].bits + t[j].bits)
  }

  lemma ResolvesIsLook(t: seq<Code>, root: nat, x: nat, e: Code, n: nat)
    requires Resolves(t, root, x, e, n)
    ensures Look(t, root, x) == (e, n)
  {
  }

  function Flag16(op: nat): bool { op / 16 % 2 == 1 }
  function Flag32(op: nat): bool { op / 32 % 2 == 1 }
  function Flag64(op: nat): bool { op / 64 % 2 == 1 }

  // What an entry at the end of a lookup can be.
  ghost predicate EntryOk(kind: CodeType, e: Code)
  {
    match kind
    case CODES => true
    case LENS =>
      || (e.op == 0 && e.val < 256)
      || (16 <= e.op <= 21 && 3 <= e.val && e.val + Pow2(e.op - 16) - 1 <= 258)
      || (e.op >= 64 && !Flag16(e.op) && Flag64(e.op))
    case DISTS =>
      || (16 <= e.op <= 29 && 1 <= e.val && e.val + Pow2(e.op - 16) - 1 <= 32768)
      || e.op == 64
  }

  lemma SmallPowers()
    ensures Pow2(0) == 1 && Pow2(1) == 2 && Pow2(2) == 4 && Pow2(3) == 8 && Pow2(4) == 16 && Pow2(5) == 32
      && Pow2(6) == 64
    ensures Pow2(7) == 128 && Pow2(8) == 256 && Pow2(9) == 512 && Pow2(10) == 1024 && Pow2(11) == 2048
      && Pow2(12) == 4096
    ensures Pow2(13) == 8192
  {
    assert Pow2(3) == 8;
    assert Pow2(6) == 64;
    assert Pow2(9) == 512;
    assert Pow2(12) == 4096;
  }

  lemma EntriesOk(kind: CodeType, sym: nat, bits: nat)
    requires sym < Alphabet(kind)
    ensures EntryOk(kind, Entry(kind, sym, bits)) && EntryOk(kind, Code(INVALID, 1, 0))
  {
    hide Pow2, EntryOk;
    OtherEntries(kind, sym, bits);
    if kind == LENS && sym > 256 { LengthEntries(sym - 257, bits); }
    if kind == DISTS { DistanceEntries(sym, bits); }
  }

  lemma OtherEntries(kind: CodeType, sym: nat, bits: nat)
    ensures EntryOk(kind, Code(INVALID, 1, 0)) && EntryOk(CODES, Code(0, bits, sym))
      && EntryOk(LENS, Code(32 + 64, bits, 0))
    ensures sym < 256 ==> EntryOk(LENS, Code(0, bits, sym))
  {
  }

  lemma LengthEntries(i: nat, bits: nat)
    requires i < 31
    ensures EntryOk(LENS, Code(LENGTH_EXTRA[i], bits, LENGTH_BASE[i]))
  {
    hide Pow2;
    SmallPowers();
  }

  lemma DistanceEntries(i: nat, bits: nat)
    requires i < 32
    ensures EntryOk(DISTS, Code(DIST_EXTRA[i], bits, DIST_BASE[i]))
  {
    hide Pow2;
    SmallPowers();
  }

  // The table of some code, as inflate_table makes it.
  ghost predicate TableOf(t: seq<Code>, root: nat, kind: CodeType, lens: seq<byte>)
  {
    && Bounded(lens) && |lens| <= Alphabet(kind) && 1 <= root <= MAXBITS && Decodes(t, root, kind, lens)
    && Ascending(Sorted(lens)) && Accepted(kind, Sorted(lens))
  }

  // The lookup of bits that begin with the code in place u.
  lemma LookCoded(t: seq<Code>, root: nat, kind: CodeType, lens: seq<byte>, u: nat, x: nat)
    requires TableOf(t, root, kind, lens) && u < |Sorted(lens)| && IsCode(Sorted(lens), u, x)
    ensures Order(lens)[u] < |lens| <= Alphabet(kind)
    ensures var l := Sorted(lens)[u];
            Look(t, root, x) == (Entry(kind, Order(lens)[u], if l <= root then l else l - root), l)
  {
    hide Pow2, Quotient, Entry, Resolves, Look, Order, Sorted, IsCode;
    OrderIn(lens, u);
    assert DecodesAt(t, root, kind, lens, x);
    assert ResolvesTo(t, root, kind, lens, u, x);
    var l := Sorted(lens)[u];
    ResolvesIsLook(t, root, x, Entry(kind, Order(lens)[u], if l <= root then l else l - root), l);
  }

  lemma LookUncoded(t: seq<Code>, root: nat, kind: CodeType, lens: seq<byte>, x: nat)
    requires TableOf(t, root, kind, lens) && forall u :: 0 <= u < |Sorted(lens)| ==> !IsCode(Sorted(lens), u, x)
    ensures Look(t, root, x) == (Code(INVALID, 1, 0), 1)
  {
    hide Pow2, Quotient, Resolves, Look, Sorted, IsCode, ResolvesTo;
    assert DecodesAt(t, root, kind, lens, x);
    ResolvesIsLook(t, root, x, Code(INVALID, 1, 0), 1);
  }

  // A lookup drops 1 to 15 bits, depends on no others, and ends at an entry of the alphabet.
  lemma LookGood(t: seq<Code>, root: nat, kind: CodeType, lens: seq<byte>, x: nat)
    requires TableOf(t, root, kind, lens)
    ensures 1 <= Look(t, root, x).1 <= MAXBITS && EntryOk(kind, Look(t, root, x).0)
  {
    hide Pow2, Rev, Start, Quotient, Entry, Resolves, Look, EntryOk, Order, Sorted, IsCode, Decodes;
    var ls := Sorted(lens);
    if u :| 0 <= u < |ls| && IsCode(ls, u, x) {
      LookCoded(t, root, kind, lens, u, x);
      EntriesOk(kind, Order(lens)[u], if ls[u] <= root then ls[u] else ls[u] - root);
    } else {
      LookUncoded(t, root, kind, lens, x);
      EntriesOk(kind, 0, 1);
    }
  }

  lemma LookStable(t: seq<Code>, root: nat, kind: CodeType, lens: seq<byte>, x: nat, y: nat)
    requires TableOf(t, root, kind, lens) && x % Pow2(Look(t, root, x).1) == y % Pow2(Look(t, root, x).1)
    ensures Look(t, root, y) == Look(t, root, x)
  {
    hide Pow2, Rev, Start, Quotient, Entry, Resolves, Look, Order, Sorted, Decodes;
    var ls := Sorted(lens);
    if u :| 0 <= u < |ls| && IsCode(ls, u, x) {
      LookCoded(t, root, kind, lens, u, x);
      assert IsCode(ls, u, y);
      LookCoded(t, root, kind, lens, u, y);
    } else {
      LookUncoded(t, root, kind, lens, x);
      UncodedTogether(kind, ls, x, y);
      LookUncoded(t, root, kind, lens, y);
    }
  }

  // Bits without a code are those that begin with 1 beside a single one-bit code.
  lemma UncodedTogether(kind: CodeType, ls: seq<nat>, x: nat, y: nat)
    requires Ascending(ls) && Accepted(kind, ls) && x % Pow2(1) == y % Pow2(1)
    requires forall u :: 0 <= u < |ls| ==> !IsCode(ls, u, x)
    ensures forall u :: 0 <= u < |ls| ==> !IsCode(ls, u, y)
  {
    hide Pow2, Rev, Start;
    if ls != [] && Start(ls, |ls|) == Pow2(MAXBITS) {
      var u := PointHasCode(ls, |ls|, Rev(x, MAXBITS));
      CodeIsInterval(ls, u, x);
      assert false;
    }
    forall u | 0 <= u < |ls| ensures !IsCode(ls, u, y) { assert !IsCode(ls, u, x); }
  }

  // ---------------------------------------------------------------------
  // Symbols
  // ---------------------------------------------------------------------
  datatype Tables = Tables(lcode: seq<Code>, lbits: nat, dcode: seq<Code>, dbits: nat)

  ghost predicate TablesOk(g: Tables, ll: seq<byte>, dl: seq<byte>)
  {
    TableOf(g.lcode, g.lbits, LENS, ll) && TableOf(g.dcode, g.dbits, DISTS, dl)
  }

  // What follows one symbol: the bits left and the output so far; Short if the
  // bits do not suffice for the symbol.
  datatype Outcome =
    | More(q: Queue, total: seq<byte>)
    | Ended(q: Queue, total: seq<byte>)
    | Failed(q: Queue, total: seq<byte>)
    | Short

  ghost function Symbol(g: Tables, q: Queue, total: seq<byte>): Outcome
  {
    var (e, m) := Look(g.lcode, g.lbits, q.x);
    if m > q.n then Short else AfterCode(g, e, Dropped(q, m), total)
  }

  // After a literal/length code.
  ghost function AfterCode(g: Tables, e: Code, q: Queue, total: seq<byte>): Outcome
  {
    if e.op == 0 then More(q, total + [e.val % 0x100])
    else if Flag16(e.op) then AfterLength(g, e.val, e.op % 16, q, total)
    else if Flag32(e.op) then Ended(q, total)
    else Failed(q, total)
  }

  // After a length code: its extra bits.
  ghost function AfterLength(g: Tables, length: nat, extra: nat, q: Queue, total: seq<byte>): Outcome
  {
    if extra > q.n then Short else AtDistance(g, length + q.x % Pow2(extra), Dropped(q, extra), total)
  }

  // At a distance code.
  ghost function AtDistance(g: Tables, length: nat, q: Queue, total: seq<byte>): Outcome
  {
    var (e, m) := Look(g.dcode, g.dbits, q.x);
    if m > q.n then Short else AfterDistanceCode(length, e, Dropped(q, m), total)
  }

  ghost function AfterDistanceCode(length: nat, e: Code, q: Queue, total: seq<byte>): Outcome
  {
    if Flag16(e.op) then AfterDistance(length, e.val, e.op % 16, q, total) else Failed(q, total)
  }

  // After a distance code: its extra bits.
  ghost function AfterDistance(length: nat, offset: nat, extra: nat, q: Queue, total: seq<byte>): Outcome
  {
    if extra > q.n then Short else Matched(length, offset + q.x % Pow2(extra), Dropped(q, extra), total)
  }

  // A match, which must not reach back before the output.
  ghost function Matched(length: nat, offset: nat, q: Queue, total: seq<byte>): Outcome
  {
    if 1 <= offset <= |total| then More(q, Copy(total, offset, length)) else Failed(q, total)
  }

  // k symbols one after another.
  ghost function Symbols(g: Tables, q: Queue, total: seq<byte>, k: nat): Outcome
  {
    if k == 0 then More(q, total)
    else
      match Symbols(g, q, total, k - 1)
      case More(q', total') => Symbol(g, q', total')
      case other => other
  }

  // k more symbols after the one that comes to o.
  ghost function Onward(g: Tables, o: Outcome, k: nat): Outcome
  {
    if o.More? then Symbols(g, o.q, o.total, k) else o
  }

  lemma {:induction false} SymbolsFirst(g: Tables, q: Queue, total: seq<byte>, k: nat)
    ensures Symbols(g, q, total, k + 1) == Onward(g, Symbol(g, q, total), k)
  {
    hide Symbol;
    if k == 0 {
      SymbolsZero(g, q, total);
    } else {
      SymbolsFirst(g, q, total, k - 1);
    }
  }

  lemma {:induction false} SymbolsSum(g: Tables, q: Queue, total: seq<byte>, j: nat, k: nat)
    ensures Symbols(g, q, total, j + k) == Onward(g, Symbols(g, q, total, j), k)
    decreases k
  {
    hide Symbol;
    if k > 0 { SymbolsSum(g, q, total, j, k - 1); }
  }

  lemma OnwardSum(g: Tables, o: Outcome, j: nat, k: nat)
    ensures Onward(g, Onward(g, o, j), k) == Onward(g, o, j + k)
  {
    hide Symbols;
    if o.More? { SymbolsSum(g, o.q, o.total, j, k); }
  }

  lemma OnwardNext(g: Tables, o: Outcome, k: nat)
    requires Onward(g, o, k).More?
    ensures Onward(g, o, k + 1) == Symbol(g, Onward(g, o, k).q, Onward(g, o, k).total)
  {
    hide Symbol;
  }

  lemma SymbolsZero(g: Tables, q: Queue, total: seq<byte>)
    ensures Symbols(g, q, total, 0) == More(q, total) && Symbols(g, q, total, 1) == Symbol(g, q, total)
  {
    hide Symbol;
  }

  lemma SymbolsNext(g: Tables, q: Queue, total: seq<byte>, k: nat)
    requires Symbols(g, q, total, k).More?
    ensures Symbols(g, q, total, k + 1) == Symbol(g, Symbols(g, q, total, k).q, Symbols(g, q, total, k).total)
  {
    hide Symbol;
  }

  lemma {:induction false} SymbolsEnd(g: Tables, q: Queue, total: seq<byte>, k: nat, m: nat)
    requires !Symbols(g, q, total, k).More? && k <= m
    ensures Symbols(g, q, total, m) == Symbols(g, q, total, k)
  {
    hide Symbol;
    if k < m { SymbolsEnd(g, q, total, k, m - 1); }
  }

  // ---------------------------------------------------------------------
  // More input changes nothing that is settled
  // ---------------------------------------------------------------------

  // A code that the bits at hand complete.
  lemma LookExtends(t: seq<Code>, root: nat, kind: CodeType, lens: seq<byte>, q: Queue, more: seq<byte>)
    requires TableOf(t, root, kind, lens) && Look(t, root, q.x).1 <= q.n
    ensures Look(t, root, Extended(q, more).x) == Look(t, root, q.x)
    ensures Dropped(Extended(q, more), Look(t, root, q.x).1) == Extended(Dropped(q, Look(t, root, q.x).1), more)
  {
    hide Pow2, TableOf, Look, Extended, Dropped;
    ExtendedLow(q, more, Look(t, root, q.x).1);
    LookStable(t, root, kind, lens, q.x, Extended(q, more).x);
  }

  lemma CodeTaken(g: Tables, ll: seq<byte>, q: Queue, more: seq<byte>, total: seq<byte>)
    requires TableOf(g.lcode, g.lbits, LENS, ll) && Look(g.lcode, g.lbits, q.x).1 <= q.n
    ensures var (e, m) := Look(g.lcode, g.lbits, q.x);
            Symbol(g, Extended(q, more), total) == AfterCode(g, e, Extended(Dropped(q, m), more), total)
  {
    hide Pow2, TableOf, Look, AfterCode, Val;
    LookExtends(g.lcode, g.lbits, LENS, ll, q, more);
  }

  lemma LengthTaken(g: Tables, length: nat, extra: nat, q: Queue, more: seq<byte>, total: seq<byte>)
    requires extra <= q.n
    ensures AfterLength(g, length, extra, Extended(q, more), total)
            == AtDistance(g, length + q.x % Pow2(extra), Extended(Dropped(q, extra), more), total)
  {
    hide Pow2, AtDistance, Val;
    ExtendedLow(q, more, extra);
  }

  lemma DistanceCodeTaken(g: Tables, dl: seq<byte>, length: nat, q: Queue, more: seq<byte>, total: seq<byte>)
    requires TableOf(g.dcode, g.dbits, DISTS, dl) && Look(g.dcode, g.dbits, q.x).1 <= q.n
    ensures var (e, m) := Look(g.dcode, g.dbits, q.x);
            AtDistance(g, length, Extended(q, more), total)
              == AfterDistanceCode(length, e, Extended(Dropped(q, m), more), total)
  {
    hide Pow2, TableOf, Look, AfterDistanceCode, Val;
    LookExtends(g.dcode, g.dbits, DISTS, dl, q, more);
  }

  lemma DistanceTaken(length: nat, offset: nat, extra: nat, q: Queue, more: seq<byte>, total: seq<byte>)
    requires extra <= q.n
    ensures AfterDistance(length, offset, extra, Extended(q, more), total)
            == Matched(length, offset + q.x % Pow2(extra), Extended(Dropped(q, extra), more), total)
  {
    hide Pow2, Matched, Val;
    ExtendedLow(q, more, extra);
  }

  // The same outcome with more bytes behind the bits left.
  ghost function Followed(o: Outcome, more: seq<byte>): Outcome
    requires !o.Short?
  {
    match o
    case More(q, total) => More(Extended(q, more), total)
    case Ended(q, total) => Ended(Extended(q, more), total)
    case Failed(q, total) => Failed(Extended(q, more), total)
  }

  lemma SymbolExtends(g: Tables, ll: seq<byte>, dl: seq<byte>, q: Queue, more: seq<byte>, total: seq<byte>)
    requires TablesOk(g, ll, dl) && !Symbol(g, q, total).Short?
    ensures Symbol(g, Extended(q, more), total) == Followed(Symbol(g, q, total), more)
  {
    hide Pow2, TableOf, Look, Extended, Dropped, Matched;
    var (e, m) := Look(g.lcode, g.lbits, q.x);
    CodeTaken(g, ll, q, more, total);
    if e.op != 0 && Flag16(e.op) {
      var q1 := Dropped(q, m);
      var extra := e.op % 16;
      LengthTaken(g, e.val, extra, q1, more, total);
      var q2, length := Dropped(q1, extra), e.val + q1.x % Pow2(extra);
      DistanceCodeTaken(g, dl, length, q2, more, total);
      var (d, n) := Look(g.dcode, g.dbits, q2.x);
      var q3 := Dropped(q2, n);
      if Flag16(d.op) {
        DistanceTaken(length, d.val, d.op % 16, q3, more, total);
        MatchedExtends(length, d.val + q3.x % Pow2(d.op % 16), Dropped(q3, d.op % 16), more, total);
      }
    }
  }

  lemma MatchedExtends(length: nat, offset: nat, q: Queue, more: seq<byte>, total: seq<byte>)
    ensures !Matched(length, offset, q, total).Short?
    ensures Matched(length, offset, Extended(q, more), total) == Followed(Matched(length, offset, q, total), more)
  {
    hide Extended;
  }

  // What the bits at hand have decided, no further input changes.
  lemma {:induction false} SymbolsExtend(g: Tables, ll: seq<byte>, dl: seq<byte>, q: Queue, more: seq<byte>,
    total: seq<byte>, k: nat)
    requires TablesOk(g, ll, dl) && !Symbols(g, q, total, k).Short?
    ensures Symbols(g, Extended(q, more), total, k) == Followed(Symbols(g, q, total, k), more)
  {
    hide Symbol, TablesOk, Extended;
    if k > 0 {
      SymbolsExtend(g, ll, dl, q, more, total, k - 1);
      var o := Symbols(g, q, total, k - 1);
      if o.More? { SymbolExtends(g, ll, dl, o.q, more, o.total); }
    }
  }

  // ---------------------------------------------------------------------
  // Of the output before, the last 32768 bytes are enough
  // ---------------------------------------------------------------------

  // The same outcome with earlier output in front.
  ghost function Behind(e: seq<byte>, o: Outcome): Outcome
  {
    match o
    case More(q, total) => More(q, e + total)
    case Ended(q, total) => Ended(q, e + total)
    case Failed(q, total) => Failed(q, e + total)
    case Short => Short
  }

  // No distance within reach of t, or no earlier output.
  ghost predicate Recent(e: seq<byte>, t: seq<byte>)
  {
    e == [] || |t| >= 32768
  }

  lemma {:induction false} CopyBehind(e: seq<byte>, t: seq<byte>, dist: nat, len: nat)
    requires 1 <= dist <= |t|
    ensures Copy(e + t, dist, len) == e + Copy(t, dist, len)
    decreases len
  {
    if len > 0 {
      assert (e + t) + [(e + t)[|e + t| - dist]] == e + (t + [t[|t| - dist]]);
      CopyBehind(e, t + [t[|t| - dist]], dist, len - 1);
    }
  }

  lemma MatchedBehind(length: nat, dist: nat, q: Queue, e: seq<byte>, t: seq<byte>)
    requires Recent(e, t) && dist <= 32768
    ensures Matched(length, dist, q, e + t) == Behind(e, Matched(length, dist, q, t))
  {
    if 1 <= dist <= |t| { CopyBehind(e, t, dist, length); }
    if e == [] { assert e + t == t; }
  }

  lemma DistanceBehind(length: nat, offset: nat, extra: nat, q: Queue, e: seq<byte>, t: seq<byte>)
    requires Recent(e, t) && offset + Pow2(extra) - 1 <= 32768
    ensures AfterDistance(length, offset, extra, q, e + t) == Behind(e, AfterDistance(length, offset, extra, q, t))
  {
    hide Pow2, Dropped, Matched;
    if extra <= q.n { MatchedBehind(length, offset + q.x % Pow2(extra), Dropped(q, extra), e, t); }
  }

  lemma AtDistanceBehind(g: Tables, dl: seq<byte>, length: nat, q: Queue, e: seq<byte>, t: seq<byte>)
    requires TableOf(g.dcode, g.dbits, DISTS, dl) && Recent(e, t)
    ensures AtDistance(g, length, q, e + t) == Behind(e, AtDistance(g, length, q, t))
  {
    hide Pow2, Dropped, TableOf, Look, AfterDistance;
    LookGood(g.dcode, g.dbits, DISTS, dl, q.x);
    var (d, m) := Look(g.dcode, g.dbits, q.x);
    if m <= q.n && Flag16(d.op) { DistanceBehind(length, d.val, d.op % 16, Dropped(q, m), e, t); }
  }

  lemma LengthBehind(g: Tables, dl: seq<byte>, length: nat, extra: nat, q: Queue, e: seq<byte>, t: seq<byte>)
    requires TableOf(g.dcode, g.dbits, DISTS, dl) && Recent(e, t)
    ensures AfterLength(g, length, extra, q, e + t) == Behind(e, AfterLength(g, length, extra, q, t))
  {
    hide Pow2, Dropped, TableOf, AtDistance;
    if extra <= q.n { AtDistanceBehind(g, dl, length + q.x % Pow2(extra), Dropped(q, extra), e, t); }
  }

  lemma SymbolBehind(g: Tables, ll: seq<byte>, dl: seq<byte>, q: Queue, e: seq<byte>, t: seq<byte>)
    requires TablesOk(g, ll, dl) && Recent(e, t)
    ensures Symbol(g, q, e + t) == Behind(e, Symbol(g, q, t))
  {
    hide Pow2, Dropped, TableOf, Look, AfterLength;
    var (c, m) := Look(g.lcode, g.lbits, q.x);
    if m <= q.n && Flag16(c.op) { LengthBehind(g, dl, c.val, c.op % 16, Dropped(q, m), e, t); }
    assert e + (t + [c.val % 0x100]) == e + t + [c.val % 0x100];
  }

  lemma AtDistanceGrows(g: Tables, length: nat, q: Queue, t: seq<byte>)
    ensures var o := AtDistance(g, length, q, t); o.More? ==> |o.total| >= |t|
  {
    hide Look, Dropped, Pow2;
  }

  lemma SymbolGrows(g: Tables, q: Queue, t: seq<byte>)
    ensures var o := Symbol(g, q, t); o.More? ==> |o.total| >= |t|
  {
    hide Look, Dropped, Pow2, AtDistance;
    var (c, m) := Look(g.lcode, g.lbits, q.x);
    if m <= q.n && Flag16(c.op) {
      var q1, extra := Dropped(q, m), c.op % 16;
      if extra <= q1.n { AtDistanceGrows(g, c.val + q1.x % Pow2(extra), Dropped(q1, extra), t); }
    }
  }

  // A decoder that remembers the last 32768 bytes does as well as one that remembers them all.
  lemma {:induction false} SymbolsBehind(g: Tables, ll: seq<byte>, dl: seq<byte>, q: Queue, e: seq<byte>, t: seq<byte>,
    k: nat)
    requires TablesOk(g, ll, dl) && Recent(e, t)
    ensures Symbols(g, q, e + t, k) == Behind(e, Symbols(g, q, t, k))
    ensures Symbols(g, q, t, k).More? ==> |Symbols(g, q, t, k).total| >= |t|
  {
    hide Symbol, TablesOk;
    if k > 0 {
      SymbolsBehind(g, ll, dl, q, e, t, k - 1);
      var o := Symbols(g, q, t, k - 1);
      if o.More? {
        SymbolBehind(g, ll, dl, o.q, e, o.total);
        SymbolGrows(g, o.q, o.total);
      }
    }
  }
}
