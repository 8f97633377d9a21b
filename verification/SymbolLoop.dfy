// The symbol loop of bzip2's decompress.c: Huffman symbols in groups of fifty,
// run lengths in bijective base 2 (RUNA, RUNB), move-to-front indices, and the
// end-of-block symbol, turned into the block's last column and its counts.
module SymbolLoop {
  import opened Bits
  import opened CountingRank
  import opened InverseTransform
  import opened BitReader
  import opened HuffmanTables
  import opened SymbolGroups
  import opened MoveToFront
  import opened BlockOutput

  const RUNA: nat := 0
  const RUNB: nat := 1

  // ---------------------------------------------------------------------
  // What a sequence of symbols means
  // ---------------------------------------------------------------------

  // The decoder's state: the list, the weight of the next run digit, the column so far.
  datatype Mtf = Mtf(list: seq<byte>, weight: nat, out: seq<byte>)

  ghost predicate Fine(m: Mtf, order: seq<byte>)
  {
    |m.list| == 256 == |order|
  }

  ghost function Repeat(c: byte, n: nat): (s: seq<byte>)
    ensures |s| == n
  {
    seq(n, i => c)
  }

  // A run digit d adds (d + 1) * weight copies of the front symbol; any other
  // symbol adds the symbol at its index and moves it to the front.
  ghost function Advance(m: Mtf, order: seq<byte>, v: nat): (m': Mtf)
    requires Fine(m, order) && v <= 256
    ensures Fine(m', order) && m.out <= m'.out
  {
    if v <= RUNB then
      Mtf(m.list, 2 * m.weight, m.out + Repeat(order[m.list[0]], (v + 1) * m.weight))
    else
      Mtf(ToFront(m.list, v - 1), 1, m.out + [order[m.list[v - 1]]])
  }

  ghost predicate InAlphabet(syms: seq<nat>)
  {
    forall k :: 0 <= k < |syms| ==> syms[k] <= 256
  }

  ghost function Run(m: Mtf, order: seq<byte>, syms: seq<nat>): (m': Mtf)
    requires Fine(m, order) && InAlphabet(syms)
    ensures Fine(m', order)
  {
    if syms == [] then m
    else Advance(Run(m, order, syms[..|syms| - 1]), order, syms[|syms| - 1])
  }

  lemma {:induction false} RunAppend(m: Mtf, order: seq<byte>, s: seq<nat>, t: seq<nat>)
    requires Fine(m, order) && InAlphabet(s) && InAlphabet(t)
    ensures InAlphabet(s + t) && Run(m, order, s + t) == Run(Run(m, order, s), order, t)
  {
    if t == [] {
      assert s + t == s;
    } else {
      assert (s + t)[..|s + t| - 1] == s + t[..|t| - 1];
      RunAppend(m, order, s, t[..|t| - 1]);
    }
  }

  lemma RunOne(m: Mtf, order: seq<byte>, v: nat)
    requires Fine(m, order) && v <= 256
    ensures InAlphabet([v]) && Run(m, order, [v]) == Advance(m, order, v)
    ensures v > RUNB ==> Run(m, order, [v]) == Mtf(ToFront(m.list, v - 1), 1, m.out + [order[m.list[v - 1]]])
  {
    assert [v][..0] == [];
  }

  // The column only grows.
  lemma {:induction false} RunGrows(m: Mtf, order: seq<byte>, s: seq<nat>, k: nat)
    requires Fine(m, order) && InAlphabet(s) && k <= |s|
    ensures |Run(m, order, s[..k]).out| <= |Run(m, order, s).out|
  {
    if k == |s| {
      assert s[..k] == s;
    } else {
      assert s[..|s| - 1][..k] == s[..k];
      RunGrows(m, order, s[..|s| - 1], k);
    }
  }

  // ---------------------------------------------------------------------
  // Run lengths in bijective base 2
  // ---------------------------------------------------------------------
  ghost predicate AreDigits(d: seq<nat>)
  {
    forall k :: 0 <= k < |d| ==> d[k] <= RUNB
  }

  // Least significant digit first, digits worth one and two.
  function Number(d: seq<nat>): nat
  {
    if d == [] then 0 else d[0] + 1 + 2 * Number(d[1..])
  }

  function Digits(n: nat): (d: seq<nat>)
    ensures forall k :: 0 <= k < |d| ==> d[k] <= RUNB
  {
    if n == 0 then [] else [(n - 1) % 2] + Digits((n - 1) / 2)
  }

  // Every number has exactly one numeral.
  lemma {:induction false} DigitsOfNumber(d: seq<nat>)
    requires AreDigits(d)
    ensures Digits(Number(d)) == d
  {
    if d != [] {
      DigitsOfNumber(d[1..]);
      assert d == [d[0]] + d[1..];
    }
  }

  lemma {:induction false} NumberOfDigits(n: nat)
    ensures Number(Digits(n)) == n
  {
    if n > 0 {
      NumberOfDigits((n - 1) / 2);
      assert Digits(n)[1..] == Digits((n - 1) / 2);
    }
  }

  // Reading a numeral digit by digit appends that many copies of the front symbol.
  lemma {:induction false} RunOfDigits(m: Mtf, order: seq<byte>, d: seq<nat>)
    requires Fine(m, order) && AreDigits(d) && InAlphabet(d)
    ensures Run(m, order, d).list == m.list
    ensures Run(m, order, d).out == m.out + Repeat(order[m.list[0]], m.weight * Number(d))
    decreases |d|
  {
    if d == [] {
      assert m.weight * Number(d) == 0;
      assert m.out == m.out + Repeat(order[m.list[0]], 0);
    } else {
      hide Run, Repeat, ToFront;
      var m1 := Advance(m, order, d[0]);
      assert d == [d[0]] + d[1..];
      RunOne(m, order, d[0]);
      RunAppend(m, order, [d[0]], d[1..]);
      RunOfDigits(m1, order, d[1..]);
      var c, a, b: nat := order[m.list[0]], (d[0] + 1) * m.weight, 2 * m.weight * Number(d[1..]);
      RepeatSum(c, a, b);
      DigitWeight(d[0], m.weight, Number(d[1..]));
      assert m.out + Repeat(c, a) + Repeat(c, b) == m.out + (Repeat(c, a) + Repeat(c, b));
    }
  }

  lemma DigitWeight(d: nat, w: nat, x: nat)
    ensures (d + 1) * w + 2 * w * x == w * (d + 1 + 2 * x)
  {
    MulAssoc(w, 2, x);
    MulDist(d + 1, 2 * x, w);
  }

  lemma RunOfNumber(m: Mtf, order: seq<byte>, z: nat)
    requires Fine(m, order) && m.weight == 1
    ensures InAlphabet(Digits(z)) && Run(m, order, Digits(z)).list == m.list
    ensures Run(m, order, Digits(z)).out == m.out + Repeat(order[m.list[0]], z)
  {
    NumberOfDigits(z);
    RunOfDigits(m, order, Digits(z));
  }

  lemma RepeatSum(c: byte, a: nat, b: nat)
    ensures Repeat(c, a) + Repeat(c, b) == Repeat(c, a + b)
  {
  }

  lemma RepeatOne(c: byte, a: nat, s: seq<byte>)
    requires s != [] && s[0] == c
    ensures Repeat(c, a + 1) + s[1..] == Repeat(c, a) + s
    ensures Repeat(c, 0) == []
  {
  }

  // ---------------------------------------------------------------------
  // A column as symbols
  // ---------------------------------------------------------------------

  // The column's bytes are among the first n of the list.
  ghost predicate Covers(list: seq<byte>, order: seq<byte>, n: nat, col: seq<byte>)
  {
    && |list| == 256 == |order| && n <= 256
    && forall k :: 0 <= k < |col| ==> IndexOf(list, order, n, col[k])
  }

  ghost predicate IndexOf(list: seq<byte>, order: seq<byte>, n: nat, c: byte)
    requires |list| == 256 == |order| && n <= 256
  {
    exists i :: 0 <= i < n && order[list[i]] == c
  }

  ghost function Index(list: seq<byte>, order: seq<byte>, n: nat, c: byte): (i: nat)
    requires |list| == 256 == |order| && n <= 256 && IndexOf(list, order, n, c)
    ensures i < n && order[list[i]] == c
  {
    var i :| 0 <= i < n && order[list[i]] == c;
    i
  }

  lemma CoversAfter(list: seq<byte>, order: seq<byte>, n: nat, col: seq<byte>, i: nat)
    requires Covers(list, order, n, col) && i < n
    ensures Covers(ToFront(list, i), order, n, col)
  {
    var t := ToFront(list, i);
    forall k | 0 <= k < |col| ensures IndexOf(t, order, n, col[k]) {
      assert IndexOf(list, order, n, col[k]);
      var j :| 0 <= j < n && order[list[j]] == col[k];
      assert order[t[if j == i then 0 else if j < i then j + 1 else j]] == col[k];
    }
  }

  // The column coded as runs and move-to-front indices, z front symbols pending.
  ghost function Encode(list: seq<byte>, order: seq<byte>, n: nat, col: seq<byte>, z: nat): (syms: seq<nat>)
    requires Covers(list, order, n, col)
    ensures forall k :: 0 <= k < |syms| ==> syms[k] <= n || syms[k] <= RUNB
    decreases |col|
  {
    if col == [] then Digits(z)
    else
      assert IndexOf(list, order, n, col[0]);
      if order[list[0]] == col[0] then Encode(list, order, n, col[1..], z + 1)
      else
        var i := Index(list, order, n, col[0]);
        CoversAfter(list, order, n, col[1..], i);
        Digits(z) + [i + 1] + Encode(ToFront(list, i), order, n, col[1..], 0)
  }

  lemma {:induction false} FewDigits(n: nat)
    ensures |Digits(n)| <= n
  {
    if n > 0 { FewDigits((n - 1) / 2); }
  }

  // The coded column has no more symbols than the column.
  lemma {:induction false} EncodeShort(list: seq<byte>, order: seq<byte>, n: nat, col: seq<byte>, z: nat)
    requires Covers(list, order, n, col)
    ensures |Encode(list, order, n, col, z)| <= |col| + z
    decreases |col|
  {
    FewDigits(z);
    if col != [] {
      assert IndexOf(list, order, n, col[0]);
      if order[list[0]] == col[0] {
        EncodeShort(list, order, n, col[1..], z + 1);
      } else {
        var i := Index(list, order, n, col[0]);
        CoversAfter(list, order, n, col[1..], i);
        EncodeShort(ToFront(list, i), order, n, col[1..], 0);
      }
    }
  }

  // Another copy of the front symbol.
  lemma EncodeFront(list: seq<byte>, order: seq<byte>, n: nat, col: seq<byte>, z: nat)
    requires Covers(list, order, n, col) && col != [] && order[list[0]] == col[0]
    ensures Covers(list, order, n, col[1..])
    ensures Encode(list, order, n, col, z) == Encode(list, order, n, col[1..], z + 1)
  {
    hide Digits, ToFront, Index, IndexOf;
  }

  // Another symbol, found at place i.
  lemma EncodeOther(list: seq<byte>, order: seq<byte>, n: nat, col: seq<byte>, z: nat) returns (i: nat)
    requires Covers(list, order, n, col) && col != [] && order[list[0]] != col[0]
    ensures 0 < i < n && order[list[i]] == col[0] && Covers(ToFront(list, i), order, n, col[1..])
    ensures Encode(list, order, n, col, z) == Digits(z) + [i + 1] + Encode(ToFront(list, i), order, n, col[1..], 0)
  {
    hide Digits, ToFront, Index;
    assert IndexOf(list, order, n, col[0]);
    i := Index(list, order, n, col[0]);
    CoversAfter(list, order, n, col[1..], i);
  }


  // Decoding the coded column gives the column back.
  lemma {:induction false} DecodeEncode(list: seq<byte>, order: seq<byte>, n: nat, col: seq<byte>, z: nat,
    out: seq<byte>)
    requires Covers(list, order, n, col) && 0 < n
    ensures InAlphabet(Encode(list, order, n, col, z))
    ensures Run(Mtf(list, 1, out), order, Encode(list, order, n, col, z)).out == out + Repeat(order[list[0]], z) + col
    decreases |col|
  {
    hide Run, Digits, ToFront, Repeat, Encode, IndexOf, InAlphabet;
    var c := order[list[0]];
    if col == [] {
      EncodeNone(list, order, n, z);
      RunOfNumber(Mtf(list, 1, out), order, z);
      assert out + Repeat(c, z) + [] == out + Repeat(c, z);
    } else if c == col[0] {
      EncodeFront(list, order, n, col, z);
      DecodeEncode(list, order, n, col[1..], z + 1, out);
      RepeatOne(c, z, col);
      Regroup(out, Repeat(c, z + 1), col[1..]);
      Regroup(out, Repeat(c, z), col);
    } else {
      var i := EncodeOther(list, order, n, col, z);
      var out' := out + Repeat(c, z) + [col[0]];
      DecodeEncode(ToFront(list, i), order, n, col[1..], 0, out');
      AfterIndex(list, order, i, z, Encode(ToFront(list, i), order, n, col[1..], 0), out);
      RepeatNone(order[ToFront(list, i)[0]]);
      FirstMoved(out + Repeat(c, z), col);
    }
  }

  lemma EncodeNone(list: seq<byte>, order: seq<byte>, n: nat, z: nat)
    requires Covers(list, order, n, [])
    ensures Encode(list, order, n, [], z) == Digits(z)
  {
  }

  lemma Regroup(a: seq<byte>, b: seq<byte>, c: seq<byte>)
    ensures a + b + c == a + (b + c)
  {
  }

  lemma FirstMoved(a: seq<byte>, s: seq<byte>)
    requires s != []
    ensures a + [s[0]] + [] + s[1..] == a + s
  {
  }

  lemma AfterIndex(list: seq<byte>, order: seq<byte>, i: nat, z: nat, t: seq<nat>, out: seq<byte>)
    requires |list| == 256 == |order| && 0 < i < 256 && InAlphabet(t)
    ensures InAlphabet(Digits(z) + [i + 1] + t)
    ensures Run(Mtf(list, 1, out), order, Digits(z) + [i + 1] + t)
         == Run(Mtf(ToFront(list, i), 1, out + Repeat(order[list[0]], z) + [order[list[i]]]), order, t)
  {
    hide Run, Digits, ToFront, Repeat;
    var m, d := Mtf(list, 1, out), Digits(z);
    RunOfNumber(m, order, z);
    RunOne(Run(m, order, d), order, i + 1);
    RunAppend(m, order, d, [i + 1]);
    RunAppend(m, order, d + [i + 1], t);
  }

  // ---------------------------------------------------------------------
  // The loop
  // ---------------------------------------------------------------------
  datatype Outcome = Complete | Starved | Damaged
  datatype RunEnd = RunIs(es: nat, nextSym: nat) | TooLong | Stopped(f: Fetch)

  // Symbols that stand for column bytes.
  ghost predicate Body(c: seq<nat>, eob: nat)
  {
    2 <= eob <= 257 && forall k :: 0 <= k < |c| ==> c[k] < eob
  }

  // The meaning of a body read from the start of a block.
  ghost function Meaning(order: seq<byte>, c: seq<nat>, eob: nat): (m: Mtf)
    requires |order| == 256 && Body(c, eob)
    ensures Fine(m, order)
  {
    Run(Mtf(Identity(), 1, []), order, c)
  }

  lemma MeaningStep(order: seq<byte>, c: seq<nat>, eob: nat, v: nat)
    requires |order| == 256 && Body(c, eob) && v < eob
    ensures Body(c + [v], eob) && Meaning(order, c + [v], eob) == Advance(Meaning(order, c, eob), order, v)
  {
    assert (c + [v])[..|c + [v]| - 1] == c;
  }

  // The block's storage begins with these symbols.
  ghost predicate InBlock(d: DState, out: seq<byte>)
    reads d.tt, d.ll16
  {
    && |out| <= d.limit && d.limit <= (if d.small then d.ll16.Length else d.tt.Length)
    && if d.small then (forall k :: 0 <= k < |out| ==> d.ll16[k] == out[k])
       else (forall k :: 0 <= k < |out| ==> d.tt[k] == out[k])
  }

  // Store es copies; false when the block would overflow.
  method StoreRun(d: DState, uc: byte, es0: nat, nblock: nat, ghost out: seq<byte>) returns (ok: bool, nblock': nat)
    requires InBlock(d, out) && |out| == nblock
    modifies d.tt, d.ll16
    ensures ok <==> nblock + es0 <= d.limit
    ensures ok ==> nblock' == nblock + es0 && InBlock(d, out + Repeat(uc, es0))
  {
    var es: nat := es0;
    nblock' := nblock;
    if d.small {
      while es > 0
        invariant es <= es0 && nblock' == nblock + (es0 - es) <= d.limit
        invariant InBlock(d, out + Repeat(uc, es0 - es))
      {
        if nblock' >= d.limit { return false, nblock'; }
        d.ll16[nblock'] := uc;
        nblock' := nblock' + 1;
        es := es - 1;
      }
    } else {
      while es > 0
        invariant es <= es0 && nblock' == nblock + (es0 - es) <= d.limit
        invariant InBlock(d, out + Repeat(uc, es0 - es))
      {
        if nblock' >= d.limit { return false, nblock'; }
        d.tt[nblock'] := uc;
        nblock' := nblock' + 1;
        es := es - 1;
      }
    }
    ok := true;
  }

  // After c, n copies of the front symbol have been added to what m0 had.
  ghost predicate RunSoFar(order: seq<byte>, c: seq<nat>, eob: nat, m0: Mtf, n: int, weight: nat)
  {
    && |order| == 256 && Body(c, eob) && Fine(m0, order) && n >= weight - 1 >= 0
    && Meaning(order, c, eob) == Mtf(m0.list, weight, m0.out + Repeat(order[m0.list[0]], n))
  }

  lemma RunBegins(order: seq<byte>, c: seq<nat>, eob: nat)
    requires |order| == 256 && Body(c, eob) && Meaning(order, c, eob).weight == 1
    ensures RunSoFar(order, c, eob, Meaning(order, c, eob), 0, 1)
  {
    hide Meaning;
    var m0 := Meaning(order, c, eob);
    RepeatNone(order[m0.list[0]]);
    assert m0.out == m0.out + [];
  }

  // One more run digit.
  lemma RunDigit(order: seq<byte>, c: seq<nat>, eob: nat, v: nat, m0: Mtf, n: int, weight: nat)
    requires RunSoFar(order, c, eob, m0, n, weight) && v <= RUNB
    ensures RunSoFar(order, c + [v], eob, m0, n + if v == RUNA then weight else 2 * weight, 2 * weight)
  {
    hide Meaning, Repeat;
    var front := order[m0.list[0]];
    MeaningStep(order, c, eob, v);
    RepeatSum(front, n, (v + 1) * weight);
    var a, b := Repeat(front, n), Repeat(front, (v + 1) * weight);
    assert m0.out + a + b == m0.out + (a + b);
  }

  lemma RunMeans(order: seq<byte>, c: seq<nat>, eob: nat, m0: Mtf, n: int, weight: nat)
    requires RunSoFar(order, c, eob, m0, n, weight)
    ensures |order| == 256 && |m0.list| == 256 && Body(c, eob) && n >= weight - 1 >= 0
    ensures Meaning(order, c, eob).list == m0.list
    ensures Meaning(order, c, eob).out == m0.out + Repeat(order[m0.list[0]], n)
    ensures |Meaning(order, c, eob).out| >= n
  {
    hide Meaning, Repeat;
  }

  // A run's digits, from its first to the symbol after its last.
  method ReadRun(src: SymbolSource, first: nat, ghost order: seq<byte>, ghost eob: nat, ghost c0: seq<nat>)
    returns (end: RunEnd, ghost c: seq<nat>)
    requires src.Valid() && src.alphaSize == eob + 1 && |order| == 256 && Body(c0, eob) && first <= RUNB
    requires src.syms == c0 + [first] && Meaning(order, c0, eob).weight == 1
    modifies src, src.r
    ensures src.Spelled() && Body(c, eob) && Meaning(order, c, eob).list == Meaning(order, c0, eob).list
    ensures end.RunIs?
      ==> src.Valid() && src.syms == c + [end.nextSym] && RUNB < end.nextSym <= eob && |src.at| < |old(src.at)|
    ensures end.RunIs? ==> Meaning(order, c, eob).out ==
                           Meaning(order, c0, eob).out + Repeat(order[Meaning(order, c0, eob).list[0]], end.es)
    ensures end.TooLong? ==> c <= src.syms && |Meaning(order, c, eob).out| > 900_000
    ensures end.Stopped?
      ==> !end.f.Symbol? && c == src.syms && Ends(src.codes, src.selectors, |src.syms|, src.at, end.f)
  {
    hide Spells, SymbolSource.Built, SymbolSource.Spelled, Meaning, Ends, RunSoFar, Repeat, Fine, Reader.Valid,
      Reader.Unread;
    ghost var m0 := Meaning(order, c0, eob);
    c := c0;
    var es: int := -1;
    var weight: nat := 1;
    var nextSym: nat := first;
    RunBegins(order, c, eob);
    while nextSym == RUNA || nextSym == RUNB
      invariant src.Valid() && nextSym <= eob && src.syms == c + [nextSym]
      invariant RunSoFar(order, c, eob, m0, es + 1, weight) && weight >= 1
      invariant |src.at| <= |old(src.at)| && (nextSym == first || |src.at| < |old(src.at)|)
      decreases 4 * 1024 * 1024 - weight
    {
      RunMeans(order, c, eob, m0, es + 1, weight);
      if weight >= 2 * 1024 * 1024 {
        return TooLong, c;
      }
      RunDigit(order, c, eob, nextSym, m0, es + 1, weight);
      if nextSym == RUNA {
        es := es + (0 + 1) * weight;
      } else {
        es := es + (1 + 1) * weight;
      }
      weight := weight * 2;
      c := src.syms;
      var f := src.Next();
      if !f.Symbol? {
        RunMeans(order, c, eob, m0, es + 1, weight);
        return Stopped(f), c;
      }
      nextSym := f.value;
    }
    RunMeans(order, c, eob, m0, es + 1, weight);
    end := RunIs(es + 1, nextSym);
  }

  lemma RepeatNone(c: byte)
    ensures Repeat(c, 0) == []
  {
  }

  // Why the loop stopped with no block: the input ended, no symbol could be
  // read, or the symbols before any end of block stand for too many bytes.
  ghost predicate Explains(src: SymbolSource, d: DState, order: seq<byte>, outcome: Outcome, c: seq<nat>)
    requires |order| == 256 && src.alphaSize >= 1 && src.Built()
    reads src
  {
    && Body(c, src.alphaSize - 1) && c <= src.syms
    && match outcome
       case Complete => src.syms == c + [src.alphaSize - 1]
       case Starved => src.syms == c && Ends(src.codes, src.selectors, |c|, src.at, NeedInput)
       case Damaged => (src.syms == c && Ends(src.codes, src.selectors, |c|, src.at, DataError))
                       || |Meaning(order, c, src.alphaSize - 1).out| > d.limit
  }

  lemma CountsAfter(u: seq<int>, out: seq<byte>, c: byte, n: nat)
    requires Counts(u, out)
    ensures Counts(u[c := u[c] + n], out + Repeat(c, n))
  {
    var u' := u[c := u[c] + n];
    forall x | 0 <= x < 256 ensures u'[x] == Occ(out + Repeat(c, n), x, |out| + n) { OccRepeat(out, c, n, x); }
  }

  lemma {:induction false} OccRepeat(out: seq<byte>, c: byte, n: nat, x: nat)
    ensures Occ(out + Repeat(c, n), x, |out| + n) == Occ(out, x, |out|) + (if x == c then n else 0)
  {
    if n == 0 {
      assert out + Repeat(c, 0) == out;
    } else {
      OccRepeat(out, c, n - 1, x);
      OccPrefix(out + Repeat(c, n - 1), out + Repeat(c, n), x, |out| + n - 1);
    }
  }

  lemma {:induction false} OccPrefix(s: seq<byte>, t: seq<byte>, x: nat, i: nat)
    requires i <= |s| && i <= |t| && s[..i] == t[..i]
    ensures Occ(s, x, i) == Occ(t, x, i)
  {
    if i > 0 {
      assert s[..i - 1] == s[..i][..i - 1] && t[..i - 1] == t[..i][..i - 1]
        && s[i - 1] == s[..i][i - 1] == t[..i][i - 1];
      OccPrefix(s, t, x, i - 1);
    }
  }

  // What holds between two symbols of the block.
  ghost predicate Holding(d: DState, mtf: MtfList, u: seq<int>, m: Mtf)
    reads d.tt, d.ll16, mtf.mtfa, mtf.mtfbase
  {
    mtf.Valid() && mtf.List() == m.list && InBlock(d, m.out) && Counts(u, m.out)
  }

  // At the top of the loop: nextSym has been read and not yet been used.
  ghost predicate InLoop(d: DState, src: SymbolSource, mtf: MtfList, u: seq<int>, order: seq<byte>, eob: nat,
    c: seq<nat>, nextSym: nat, nblock: nat)
    requires |order| == 256 && 2 <= eob <= 257
    reads src, src.r, d.tt, d.ll16, mtf.mtfa, mtf.mtfbase
  {
    && src.Valid() && nextSym <= eob && src.syms == c + [nextSym] && Body(c, eob)
    && Holding(d, mtf, u, Meaning(order, c, eob)) && nblock == |Meaning(order, c, eob).out|
    && (nextSym <= RUNB ==> Meaning(order, c, eob).weight == 1)
  }

  datatype Turn = GoOn(next: nat) | Leave(outcome: Outcome)

  // One turn of the loop for a run.
  method RunTurn(d: DState, src: SymbolSource, mtf: MtfList, seqToUnseq: array<byte>, unzftab: array<int>, eob: nat,
    nextSym: nat, nblock: nat, ghost c: seq<nat>) returns (turn: Turn, nblock': nat, ghost c': seq<nat>)
    requires seqToUnseq.Length == unzftab.Length == 256 && seqToUnseq != mtf.mtfa && unzftab != mtf.mtfbase
    requires d.limit <= 900_000 && 2 <= eob <= 257 && src.alphaSize == eob + 1 && nextSym <= RUNB
    requires InLoop(d, src, mtf, unzftab[..], seqToUnseq[..], eob, c, nextSym, nblock)
    modifies src, src.r, unzftab, d.tt, d.ll16
    ensures turn.GoOn?
      ==> |src.at| < |old(src.at)| && InLoop(d, src, mtf, unzftab[..], seqToUnseq[..], eob, c', turn.next, nblock')
    ensures turn.GoOn? ==> turn.next <= eob
    ensures turn.Leave? ==> turn.outcome != Complete && src.Spelled()
    ensures turn.Leave? ==> src.Built() && Explains(src, d, seqToUnseq[..], turn.outcome, c')
  {
    hide Spells, Run, Repeat, Identity, SymbolSource.Built, Counts, MtfList.Valid, MtfList.List, MtfList.Blocks,
      ToFront, Ends, Meaning, Holding, Pow2;
    ghost var order := seqToUnseq[..];
    var end;
    nblock' := nblock;
    end, c' := ReadRun(src, nextSym, order, eob, c);
    match end
    case TooLong => turn := Leave(Damaged);
    case Stopped(f) => turn := Leave(if f == NeedInput then Starved else Damaged);
    case RunIs(es, next) =>
      var ok;
      ok, nblock' := TakeRun(d, mtf, seqToUnseq, unzftab, es, nblock, Meaning(order, c, eob), Meaning(order, c', eob));
      turn := if ok then GoOn(next) else Leave(Damaged);
  }

  // One turn of the loop for a move-to-front index.
  method IndexTurn(d: DState, src: SymbolSource, mtf: MtfList, seqToUnseq: array<byte>, unzftab: array<int>, eob: nat,
    nextSym: nat, nblock: nat, ghost c: seq<nat>) returns (turn: Turn, nblock': nat, ghost c': seq<nat>)
    requires mtf.mtfa.Length == MTFA_SIZE && mtf.mtfbase.Length == 16 && seqToUnseq.Length == unzftab.Length == 256
    requires seqToUnseq != mtf.mtfa && unzftab != mtf.mtfbase && 2 <= eob <= 257 && src.alphaSize == eob + 1
    requires RUNB < nextSym < eob && InLoop(d, src, mtf, unzftab[..], seqToUnseq[..], eob, c, nextSym, nblock)
    modifies src, src.r, mtf.mtfa, mtf.mtfbase, unzftab, d.tt, d.ll16
    ensures seqToUnseq[..] == old(seqToUnseq[..])
    ensures turn.GoOn?
      ==> |src.at| < |old(src.at)| && InLoop(d, src, mtf, unzftab[..], seqToUnseq[..], eob, c', turn.next, nblock')
    ensures turn.GoOn? ==> turn.next <= eob
    ensures turn.Leave? ==> turn.outcome != Complete && src.Spelled()
    ensures turn.Leave? ==> src.Built() && Explains(src, d, seqToUnseq[..], turn.outcome, c')
  {
    hide Spells, Run, Repeat, Identity, SymbolSource.Built, Counts, MtfList.Valid, MtfList.List, MtfList.Blocks,
      ToFront, Ends, Meaning, Holding, Pow2;
    ghost var order := seqToUnseq[..];
    MeaningStep(order, c, eob, nextSym);
    c' := src.syms;
    nblock' := nblock;
    if nblock >= d.limit { return Leave(Damaged), nblock', c'; }
    TakeIndex(d, mtf, seqToUnseq, unzftab, nextSym, nblock, Meaning(order, c, eob));
    nblock' := nblock + 1;
    var f := src.Next();
    turn := if f.Symbol? then GoOn(f.value) else Leave(if f == NeedInput then Starved else Damaged);
  }

  method ReadSymbols(d: DState, src: SymbolSource, mtf: MtfList, seqToUnseq: array<byte>, nInUse: nat,
    unzftab: array<int>)
    returns (outcome: Outcome, nblock: nat, ghost c: seq<nat>)
    requires src.Valid() && src.syms == [] && src.alphaSize == nInUse + 2 && 1 <= nInUse <= 256
    requires mtf.mtfa.Length == MTFA_SIZE && mtf.mtfbase.Length == 16 && seqToUnseq.Length == unzftab.Length == 256
    requires seqToUnseq != mtf.mtfa && unzftab != mtf.mtfbase
    requires d.limit <= 900_000 && InBlock(d, [])
    modifies src, src.r, mtf.mtfa, mtf.mtfbase, unzftab, d.tt, d.ll16
    ensures src.Spelled() && Explains(src, d, seqToUnseq[..], outcome, c)
    ensures outcome == Complete
      ==> src.Valid() && nblock == |Meaning(seqToUnseq[..], c, src.alphaSize - 1).out| <= d.limit
    ensures outcome == Complete ==> InBlock(d, Meaning(seqToUnseq[..], c, src.alphaSize - 1).out)
    ensures outcome == Complete ==> Counts(unzftab[..], Meaning(seqToUnseq[..], c, src.alphaSize - 1).out)
  {
    hide Spells, Run, Repeat, Identity, SymbolSource.Built, Counts, MtfList.Valid, MtfList.List, MtfList.Blocks,
      ToFront, Ends, Meaning, Holding, Pow2, InLoop, Explains;
    ghost var order := seqToUnseq[..];
    var eob := nInUse + 1;
    ClearCounts(unzftab);
    mtf.Init();
    nblock := 0;
    c := [];
    var f := src.Next();
    MeaningStart(order, eob);
    if !f.Symbol? {
      outcome := if f == NeedInput then Starved else Damaged;
      ExplainsNothing(src, d, order, eob, f);
      return;
    }
    var nextSym: nat := f.value;
    HoldingMeans(d, mtf, unzftab[..], Mtf(Identity(), 1, []));
    assert InLoop(d, src, mtf, unzftab[..], order, eob, c, nextSym, nblock) by {
      EntersLoop(d, src, mtf, unzftab[..], order, eob, nextSym);
    }
    while true
      invariant seqToUnseq[..] == order && nextSym <= eob
        && InLoop(d, src, mtf, unzftab[..], order, eob, c, nextSym, nblock)
      decreases |src.at|
    {
      if nextSym == eob { break; }
      var turn;
      if nextSym == RUNA || nextSym == RUNB {
        turn, nblock, c := RunTurn(d, src, mtf, seqToUnseq, unzftab, eob, nextSym, nblock, c);
      } else {
        turn, nblock, c := IndexTurn(d, src, mtf, seqToUnseq, unzftab, eob, nextSym, nblock, c);
      }
      if turn.Leave? { return turn.outcome, nblock, c; }
      nextSym := turn.next;
    }
    LoopEnds(d, src, mtf, unzftab[..], order, eob, c, nblock);
    HoldingMeans(d, mtf, unzftab[..], Meaning(order, c, eob));
    outcome := Complete;
  }

  // No first symbol.
  lemma ExplainsNothing(src: SymbolSource, d: DState, order: seq<byte>, eob: nat, f: Fetch)
    requires |order| == 256 && 2 <= eob <= 257 && src.alphaSize == eob + 1 && src.Built() && src.syms == []
    requires !f.Symbol? && Ends(src.codes, src.selectors, 0, src.at, f)
    ensures Explains(src, d, order, if f == NeedInput then Starved else Damaged, [])
  {
    hide SymbolSource.Built, Ends, Meaning;
  }

  lemma EntersLoop(d: DState, src: SymbolSource, mtf: MtfList, u: seq<int>, order: seq<byte>, eob: nat, nextSym: nat)
    requires |order| == 256 && 2 <= eob <= 257 && src.Valid() && nextSym <= eob && src.syms == [nextSym]
    requires Holding(d, mtf, u, Mtf(Identity(), 1, []))
    ensures InLoop(d, src, mtf, u, order, eob, [], nextSym, 0)
  {
    hide SymbolSource.Valid, Holding, Identity;
    MeaningStart(order, eob);
    assert [] + [nextSym] == [nextSym];
  }

  // At the end of the block.
  lemma LoopEnds(d: DState, src: SymbolSource, mtf: MtfList, u: seq<int>, order: seq<byte>, eob: nat, c: seq<nat>,
    nblock: nat)
    requires |order| == 256 && 2 <= eob <= 257 && src.alphaSize == eob + 1
    requires InLoop(d, src, mtf, u, order, eob, c, eob, nblock)
    ensures src.Valid() && Body(c, eob) && nblock == |Meaning(order, c, eob).out|
    ensures Holding(d, mtf, u, Meaning(order, c, eob)) && Explains(src, d, order, Complete, c)
  {
    hide Holding, Meaning;
  }

  lemma HoldingMeans(d: DState, mtf: MtfList, u: seq<int>, m: Mtf)
    ensures Holding(d, mtf, u, m) <==> mtf.Valid() && mtf.List() == m.list && InBlock(d, m.out) && Counts(u, m.out)
  {
  }

  // A run of es copies of the front symbol; false when the block would overflow.
  method TakeRun(d: DState, mtf: MtfList, seqToUnseq: array<byte>, unzftab: array<int>, es: nat, nblock: nat,
    ghost m: Mtf, ghost m': Mtf)
    returns (ok: bool, nblock': nat)
    requires seqToUnseq.Length == unzftab.Length == 256 && seqToUnseq != mtf.mtfa && unzftab != mtf.mtfbase
    requires Fine(m, seqToUnseq[..]) && Holding(d, mtf, unzftab[..], m) && nblock == |m.out|
    requires m'.list == m.list && m'.out == m.out + Repeat(seqToUnseq[m.list[0]], es)
    modifies unzftab, d.tt, d.ll16
    ensures ok <==> |m'.out| <= d.limit
    ensures ok ==> Holding(d, mtf, unzftab[..], m') && nblock' == |m'.out|
  {
    hide MtfList.Valid, MtfList.List, MtfList.Blocks, Counts, Repeat;
    var front := mtf.Front();
    var uc := seqToUnseq[front];
    CountsAfter(unzftab[..], m.out, uc, es);
    unzftab[uc] := unzftab[uc] + es;
    ok, nblock' := StoreRun(d, uc, es, nblock, m.out);
  }

  method TakeIndex(d: DState, mtf: MtfList, seqToUnseq: array<byte>, unzftab: array<int>, nextSym: nat, nblock: nat,
    ghost m: Mtf)
    requires seqToUnseq.Length == unzftab.Length == 256 && seqToUnseq != mtf.mtfa && unzftab != mtf.mtfbase
    requires mtf.mtfa.Length == MTFA_SIZE && mtf.mtfbase.Length == 16
    requires Fine(m, seqToUnseq[..]) && Holding(d, mtf, unzftab[..], m) && nblock == |m.out| < d.limit
      && RUNB < nextSym <= 256
    modifies unzftab, d.tt, d.ll16, mtf.mtfa, mtf.mtfbase
    ensures Holding(d, mtf, unzftab[..], Advance(m, seqToUnseq[..], nextSym)) && seqToUnseq[..] == old(seqToUnseq[..])
  {
    hide MtfList.Valid, MtfList.List, MtfList.Blocks, Counts, ToFront;
    var uc := mtf.Decode(nextSym - 1);
    uc := seqToUnseq[uc];
    CountsAfter(unzftab[..], m.out, uc, 1);
    assert Repeat(uc, 1) == [uc];
    unzftab[uc] := unzftab[uc] + 1;
    if d.small { d.ll16[nblock] := uc; } else { d.tt[nblock] := uc; }
  }

  method ClearCounts(unzftab: array<int>)
    requires unzftab.Length == 256
    modifies unzftab
    ensures Counts(unzftab[..], [])
  {
    var i := 0;
    while i <= 255
      invariant 0 <= i <= 256 && forall k :: 0 <= k < i ==> unzftab[k] == 0
    {
      unzftab[i] := 0;
      i := i + 1;
    }
  }

  lemma MeaningStart(order: seq<byte>, eob: nat)
    requires |order| == 256 && 2 <= eob <= 257
    ensures Body([], eob) && Meaning(order, [], eob) == Mtf(Identity(), 1, [])
  {
  }

  // ---------------------------------------------------------------------
  // What was written is read back
  // ---------------------------------------------------------------------

  // The block's symbols as bits: the coded column, then the end of block.
  ghost predicate WrittenAs(src: SymbolSource, order: seq<byte>, n: nat, col: seq<byte>, rest: seq<bit>)
    requires 1 <= n <= 256 && Covers(Identity(), order, n, col) && src.Built()
  {
    var full := Encode(Identity(), order, n, col, 0) + [n + 1];
    Writable(src.codes, src.selectors, 0, full) && src.start == Write(src.codes, src.selectors, 0, full) + rest
  }

  // Whatever the loop reports about bits written for a column that fits, it is
  // that column, and the bits after it are untouched.
  lemma ReadsBack(src: SymbolSource, d: DState, order: seq<byte>, n: nat, col: seq<byte>, rest: seq<bit>,
    outcome: Outcome, c: seq<nat>)
    requires 1 <= n <= 256 && Covers(Identity(), order, n, col) && |col| <= d.limit
    requires src.alphaSize == n + 2 && src.Spelled() && Explains(src, d, order, outcome, c)
    requires (forall t :: 0 <= t < |src.codes| ==> Kraft(src.codes[t])) && WrittenAs(src, order, n, col, rest)
    ensures outcome == Complete && Meaning(order, c, n + 1).out == col && src.at == rest
  {
    hide Kraft, Spells, Encode, Writable, Write, Meaning, Identity, Covers;
    var body := Encode(Identity(), order, n, col, 0);
    var full := body + [n + 1];
    WrittenSpells(src.codes, src.selectors, src.alphaSize, 0, full, rest);
    Comparable(src, full, rest, c);
    assert body == full[..|full| - 1];
    BodyDecodes(order, n, col, c);
    if src.syms == c {
      NotStuck(src, full, rest, if outcome == Starved then NeedInput else DataError);
    } else if outcome == Complete {
      EndAtEnd(src.syms, c, body, n + 1);
      NothingLeft(src, full, rest);
    }
  }

  // The coded column means the column, and a prefix of it no more bytes than that.
  lemma BodyDecodes(order: seq<byte>, n: nat, col: seq<byte>, c: seq<nat>)
    requires 1 <= n <= 256 && Covers(Identity(), order, n, col) && c <= Encode(Identity(), order, n, col, 0)
    ensures var body := Encode(Identity(), order, n, col, 0);
            Body(body, n + 1) && Body(c, n + 1) && Meaning(order, body, n + 1).out == col
              && |Meaning(order, c, n + 1).out| <= |col|
  {
    hide Encode, Run, Identity, Repeat, IndexOf;
    var body := Encode(Identity(), order, n, col, 0);
    DecodeEncode(Identity(), order, n, col, 0, []);
    RepeatNone(order[Identity()[0]]);
    assert [] + [] + col == col;
    RunGrows(Mtf(Identity(), 1, []), order, body, |c|);
    assert body[..|c|] == c;
  }

  // The end-of-block symbol occurs only where it was written.
  lemma EndAtEnd(syms: seq<nat>, c: seq<nat>, body: seq<nat>, eob: nat)
    requires syms == c + [eob] && c <= body && (|syms| <= |body| + 1 ==> syms <= body + [eob])
    requires forall k :: 0 <= k < |body| ==> body[k] < eob
    ensures c == body && syms == body + [eob]
  {
    if |c| < |body| {
      SameAt(syms, body + [eob], |c|);
      assert false;
    }
  }

  lemma SameAt(s: seq<nat>, t: seq<nat>, k: nat)
    requires s <= t && k < |s|
    ensures s[k] == t[k]
  {
  }

  lemma NothingLeft(src: SymbolSource, full: seq<nat>, rest: seq<bit>)
    requires src.Built() && Spells(src.codes, src.selectors, |full|, src.at, full[|full|..], rest)
    ensures src.at == rest
  {
  }

  lemma NotStuck(src: SymbolSource, full: seq<nat>, rest: seq<bit>, f: Fetch)
    requires src.Built() && |src.syms| < |full|
    requires Spells(src.codes, src.selectors, |src.syms|, src.at, full[|src.syms|..], rest)
    ensures !Ends(src.codes, src.selectors, |src.syms|, src.at, f)
  {
  }

  // Symbols before the end of block are a prefix of what was written.
  lemma Comparable(src: SymbolSource, full: seq<nat>, rest: seq<bit>, c: seq<nat>)
    requires src.Spelled() && Spells(src.codes, src.selectors, 0, src.start, full, rest)
    requires full != [] && c <= src.syms && forall k :: 0 <= k < |c| ==> c[k] < full[|full| - 1]
    ensures c <= full[..|full| - 1]
    ensures |src.syms| <= |full| ==>
      src.syms <= full && Spells(src.codes, src.selectors, |src.syms|, src.at, full[|src.syms|..], rest)
  {
    if |src.syms| <= |full| {
      SpellsUnique(src.codes, src.selectors, 0, src.start, src.syms, src.at, full, rest);
    } else {
      SpellsUnique(src.codes, src.selectors, 0, src.start, full, rest, src.syms, src.at);
    }
  }
}
