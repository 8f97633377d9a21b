// LZ77 as zlib uses it: literals and matches, and the bytes they stand for.
module Lz77 {
  import opened Bits

  datatype Token = Literal(c: byte) | Match(dist: nat, len: nat)

  // Extend s by len bytes, each a copy of the byte dist places back.
  function Copy(s: seq<byte>, dist: nat, len: nat): (t: seq<byte>)
    requires 1 <= dist <= |s|
    ensures |t| == |s| + len
    decreases len
  {
    if len == 0 then s else Copy(s + [s[|s| - dist]], dist, len - 1)
  }

  // t is s followed by bytes that repeat what is dist places before them.
  ghost predicate Repeats(s: seq<byte>, t: seq<byte>, dist: nat)
    requires 1 <= dist <= |s|
  {
    s <= t && forall k :: |s| <= k < |t| ==> t[k] == t[k - dist]
  }

  lemma {:induction false} CopyRepeats(s: seq<byte>, dist: nat, len: nat)
    requires 1 <= dist <= |s|
    ensures Repeats(s, Copy(s, dist, len), dist)
    decreases len
  {
    if len > 0 {
      var s1 := s + [s[|s| - dist]];
      CopyRepeats(s1, dist, len - 1);
      var t := Copy(s, dist, len);
      assert s1 <= t && t[|s|] == s1[|s|];
      assert t[|s| - dist] == s1[|s| - dist];
    }
  }

  // The relation determines the result, overlapping copies included.
  lemma {:induction false} RepeatsIsCopy(s: seq<byte>, t: seq<byte>, dist: nat)
    requires 1 <= dist <= |s| && Repeats(s, t, dist)
    ensures t == Copy(s, dist, |t| - |s|)
    decreases |t| - |s|
  {
    if |t| == |s| {
      assert t == s;
    } else {
      var s1 := s + [s[|s| - dist]];
      assert t[|s|] == t[|s| - dist] == s[|s| - dist];
      assert s1 <= t;
      RepeatsIsCopy(s1, t, dist);
    }
  }

  lemma {:induction false} CopyAppend(s: seq<byte>, dist: nat, m: nat, n: nat)
    requires 1 <= dist <= |s|
    ensures Copy(s, dist, m + n) == Copy(Copy(s, dist, m), dist, n)
    decreases m
  {
    if m > 0 { CopyAppend(s + [s[|s| - dist]], dist, m - 1, n); }
  }

  // A token can be expanded after s.
  ghost predicate Fits(s: seq<byte>, token: Token)
  {
    token.Match? ==> 1 <= token.dist <= |s|
  }

  ghost function Apply(s: seq<byte>, token: Token): (t: seq<byte>)
    requires Fits(s, token)
  {
    match token
    case Literal(c) => s + [c]
    case Match(dist, len) => Copy(s, dist, len)
  }

  // ---------------------------------------------------------------------
  // Token sequences
  // ---------------------------------------------------------------------

  // What tokens stand for, one after another.
  ghost function Expand(ts: seq<Token>): seq<byte>
  {
    if ts == [] then []
    else
      var s := Expand(ts[..|ts| - 1]);
      if Fits(s, ts[|ts| - 1]) then Apply(s, ts[|ts| - 1]) else s
  }

  // No match reaches back before the start.
  ghost predicate Sound(ts: seq<Token>)
  {
    ts == [] || (Sound(ts[..|ts| - 1]) && Fits(Expand(ts[..|ts| - 1]), ts[|ts| - 1]))
  }

  // Lengths and distances that deflate can write.
  ghost predicate InRange(token: Token)
  {
    token.Match? ==> 3 <= token.len <= 258 && 1 <= token.dist <= 32768
  }

  ghost predicate Ranged(ts: seq<Token>)
  {
    forall k :: 0 <= k < |ts| ==> InRange(ts[k])
  }

  // The tokens can be written, and stand for exactly the first n bytes of the data.
  ghost predicate Spell(ts: seq<Token>, data: seq<byte>, n: nat)
  {
    n <= |data| && Sound(ts) && Expand(ts) == data[..n] && Ranged(ts)
  }

  lemma SpellMore(ts: seq<Token>, data: seq<byte>, data': seq<byte>, n: nat)
    requires Spell(ts, data, n) && data <= data'
    ensures Spell(ts, data', n)
  {
  }

  lemma SpellLiteral(ts: seq<Token>, data: seq<byte>, n: nat)
    requires Spell(ts, data, n) && n < |data|
    ensures Spell(ts + [Literal(data[n])], data, n + 1)
  {
    var us := ts + [Literal(data[n])];
    assert us[..|us| - 1] == ts;
    assert data[..n] + [data[n]] == data[..n + 1];
  }

  // The len bytes at n repeat those dist before them.
  ghost predicate TrueMatch(data: seq<byte>, n: nat, dist: int, len: nat)
  {
    1 <= dist <= n && n + len <= |data| && forall k :: n <= k < n + len ==> data[k] == data[k - dist]
  }

  lemma SpellMatch(ts: seq<Token>, data: seq<byte>, n: nat, dist: nat, len: nat)
    requires Spell(ts, data, n) && TrueMatch(data, n, dist, len) && 3 <= len <= 258 && dist <= 32768
    ensures Spell(ts + [Match(dist, len)], data, n + len)
  {
    var us := ts + [Match(dist, len)];
    assert us[..|us| - 1] == ts;
    var s, t := data[..n], data[..n + len];
    forall k | |s| <= k < |t| ensures t[k] == t[k - dist] { assert t[k] == data[k]; }
    RepeatsIsCopy(s, t, dist);
  }
}
