// bzip2's initial run-length code as mathematics: four equal bytes are
// followed by a count of further repetitions.  Also the block CRC.
module RunLength {
  import opened Bits

  // ---------------------------------------------------------------------
  // BZ_UPDATE_CRC, with the table given by its polynomial.
  // ---------------------------------------------------------------------
  function TableEntry(r: bv32, k: nat): bv32
    decreases k
  {
    if k == 0 then r
    else TableEntry(if r & 0x8000_0000 != 0 then (r << 1) ^ 0x04c1_1db7 else r << 1, k - 1)
  }

  function UpdateCrc(crc: bv32, ch: byte): bv32
  {
    (crc << 8) ^ TableEntry(((crc >> 24) ^ (ch as bv32)) << 24, 8)
  }

  // BZ_FINALISE_CRC
  function Finalise(crc: bv32): bv32 { !crc }

  function Crc(crc: bv32, s: seq<byte>): bv32
  {
    if s == [] then crc else UpdateCrc(Crc(crc, s[..|s| - 1]), s[|s| - 1])
  }

  lemma CrcNothing(crc: bv32)
    ensures Crc(crc, []) == crc
  {
  }

  lemma CrcAppend(crc: bv32, s: seq<byte>, ch: byte)
    ensures Crc(crc, s + [ch]) == UpdateCrc(Crc(crc, s), ch)
  {
    hide UpdateCrc;
    assert (s + [ch])[..|s|] == s;
  }

  lemma {:induction false} CrcConcat(crc: bv32, s: seq<byte>, t: seq<byte>)
    ensures Crc(crc, s + t) == Crc(Crc(crc, s), t)
  {
    hide UpdateCrc;
    if t == [] {
      assert s + t == s;
    } else {
      CrcConcat(crc, s, t[..|t| - 1]);
      assert (s + t)[..|s + t| - 1] == s + t[..|t| - 1];
    }
  }

  // ---------------------------------------------------------------------
  // Expansion of the first m symbols of y.  When those end in four equal
  // symbols the count is taken from the symbol after them, and the block is
  // bad.
  // ---------------------------------------------------------------------
  datatype Expansion = Expansion(bytes: seq<byte>, bad: bool)

  function Rep(c: byte, k: nat): (s: seq<byte>)
    ensures |s| == k && forall i :: 0 <= i < k ==> s[i] == c
  {
    seq(k, _ => c)
  }

  // Length of the leading run among the first m symbols, at most four.
  function Run(y: seq<byte>, m: nat): (r: nat)
    requires 1 <= m <= |y|
    ensures 1 <= r <= 4 && r <= m
  {
    if m == 1 || y[1] != y[0] then 1
    else if m == 2 || y[2] != y[0] then 2
    else if m == 3 || y[3] != y[0] then 3
    else 4
  }

  function Expand(y: seq<byte>, m: nat): Expansion
    requires m < |y|
    decreases m
  {
    if m == 0 then Expansion([], false)
    else
      var r := Run(y, m);
      if r < 4 then Prepend(Rep(y[0], r), Expand(y[r..], m - r))
      else if m == 4 then Expansion(Rep(y[0], y[4] as int + 4), true)
      else Prepend(Rep(y[0], y[4] as int + 4), Expand(y[5..], m - 5))
  }

  // The two ways an expansion begins.
  lemma ExpandShort(y: seq<byte>, m: nat, c: byte, r: nat)
    requires 1 <= r <= 3 && r <= m < |y| && y[..r] == Rep(c, r)
    requires r == m || y[r] != c
    ensures Expand(y, m) == Prepend(Rep(c, r), Expand(y[r..], m - r))
  {
    hide Expand;
    assert forall i :: 0 <= i < r ==> y[i] == y[..r][i] == c;
    assert Run(y, m) == r;
    ExpandUnfold(y, m);
  }

  lemma ExpandLong(y: seq<byte>, m: nat, c: byte, s: byte)
    requires 4 <= m && 6 <= |y| && m < |y| && y[..4] == Rep(c, 4) && y[4] == s
    ensures Expand(y, m) == if m == 4 then Expansion(Rep(c, s as int + 4), true)
                            else Prepend(Rep(c, s as int + 4), Expand(y[5..], m - 5))
  {
    hide Expand;
    assert forall i :: 0 <= i < 4 ==> y[i] == y[..4][i] == c;
    assert Run(y, m) == 4;
    ExpandUnfold(y, m);
  }

  lemma ExpandUnfold(y: seq<byte>, m: nat)
    requires 1 <= m < |y|
    ensures var r := Run(y, m);
            Expand(y, m) == if r < 4 then Prepend(Rep(y[0], r), Expand(y[r..], m - r))
                            else if m == 4 then Expansion(Rep(y[0], y[4] as int + 4), true)
                            else Prepend(Rep(y[0], y[4] as int + 4), Expand(y[5..], m - 5))
  {
    hide Run, Prepend;
  }

  lemma ExpandNothing(y: seq<byte>)
    requires y != []
    ensures Expand(y, 0) == Expansion([], false)
  {
  }

  function Prepend(s: seq<byte>, e: Expansion): Expansion
  {
    Expansion(s + e.bytes, e.bad)
  }

  lemma PrependPrepend(s: seq<byte>, t: seq<byte>, e: Expansion)
    ensures Prepend(s, Prepend(t, e)) == Prepend(s + t, e)
  {
    assert s + (t + e.bytes) == (s + t) + e.bytes;
  }

  lemma PrependNothing(e: Expansion)
    ensures Prepend([], e) == e
  {
    assert [] + e.bytes == e.bytes;
  }

  // ---------------------------------------------------------------------
  // What one call may do to the pending output: hand over as many bytes as
  // there is room for.
  // ---------------------------------------------------------------------
  function Take(e: Expansion, room: nat): seq<byte>
  {
    if |e.bytes| <= room then e.bytes else e.bytes[..room]
  }

  function Rest(e: Expansion, room: nat): Expansion
  {
    Expansion(if |e.bytes| <= room then [] else e.bytes[room..], e.bad)
  }

  lemma TakeIsPrefix(e: Expansion, room: nat)
    ensures var w := |Take(e, room)|;
            w <= |e.bytes| && Take(e, room) == e.bytes[..w] && Rest(e, room) == Expansion(e.bytes[w..], e.bad)
  {
    assert e.bytes[..|e.bytes|] == e.bytes;
  }

  lemma RestNothing(e: Expansion, room: nat)
    ensures Rest(e, room) == Expansion([], false) <==> !e.bad && |e.bytes| <= room
    ensures |e.bytes| <= room ==> Take(e, room) == e.bytes
  {
  }

  lemma TakeNone(e: Expansion)
    ensures Take(e, 0) == []
  {
  }

  lemma TakeInTwo(e: Expansion, a: nat, b: nat)
    ensures Take(e, a + b) == Take(e, a) + Take(Rest(e, a), b)
    ensures Rest(e, a).bad == e.bad
  {
  }

  // Something is always owed for a symbol not yet expanded.
  lemma ExpandSome(y: seq<byte>, m: nat)
    requires 1 <= m < |y|
    ensures Expand(y, m).bytes != []
  {
    hide Expand;
    ExpandUnfold(y, m);
  }

  function Sum(rooms: seq<nat>): nat
  {
    if rooms == [] then 0 else rooms[0] + Sum(rooms[1..])
  }

  // The bytes handed over by successive calls.
  function TakeAll(e: Expansion, rooms: seq<nat>): seq<byte>
    decreases rooms
  {
    if rooms == [] then [] else Take(e, rooms[0]) + TakeAll(Rest(e, rooms[0]), rooms[1..])
  }

  // However the output space is cut into calls, what comes out is a prefix of
  // the one-shot expansion as long as the total space.
  lemma {:induction false} ScheduleIndependent(e: Expansion, rooms: seq<nat>)
    ensures TakeAll(e, rooms) == Take(e, Sum(rooms))
    decreases rooms
  {
    if rooms == [] {
      TakeNone(e);
    } else {
      hide Take, Rest;
      TakeInTwo(e, rooms[0], Sum(rooms[1..]));
      ScheduleIndependent(Rest(e, rooms[0]), rooms[1..]);
    }
  }
}
