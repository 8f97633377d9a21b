// syncsearch of zlib's inflate.c: a matcher for the bytes 0, 0, 0xff, 0xff
// whose only state between calls is how many pattern bytes have been found.
module SyncSearch {
  import opened Bits

  const PATTERN: seq<byte> := [0, 0, 0xff, 0xff]

  // h ends with the first k bytes of the pattern.
  ghost predicate EndsWith(h: seq<byte>, k: nat)
    requires k <= 4
  {
    k <= |h| && h[|h| - k..] == PATTERN[..k]
  }

  // The pattern has not occurred anywhere in h.
  ghost predicate Free(h: seq<byte>)
  {
    forall i :: 0 <= i <= |h| ==> !EndsWith(h[..i], 4)
  }

  // The longest prefix of the pattern that ends h.
  ghost function Matched(h: seq<byte>): (k: nat)
    ensures k <= 4 && EndsWith(h, k) && forall j :: k < j <= 4 ==> !EndsWith(h, j)
  {
    if EndsWith(h, 4) then 4 else if EndsWith(h, 3) then 3 else if EndsWith(h, 2) then 2 else if EndsWith(h, 1)
      then 1 else 0
  }

  lemma MatchedIsLongest(h: seq<byte>, k: nat)
    requires k <= 4 && EndsWith(h, k) && forall j :: k < j <= 4 ==> !EndsWith(h, j)
    ensures Matched(h) == k
  {
  }

  lemma EndsWithStep(h: seq<byte>, x: byte, k: nat)
    requires k < 4
    ensures EndsWith(h + [x], k + 1) <==> EndsWith(h, k) && x == PATTERN[k]
  {
    var s := h + [x];
    if k <= |h| {
      assert s[|s| - (k + 1)..] == h[|h| - k..] + [x];
      assert PATTERN[..k + 1] == PATTERN[..k] + [PATTERN[k]];
      assert (h[|h| - k..] + [x])[..k] == h[|h| - k..];
    }
  }

  // How the search moves on one byte.
  function Step(got: nat, x: byte): nat
    requires got < 4
  {
    if x == (if got < 2 then 0 else 0xff) then got + 1 else if x != 0 then 0 else 4 - got
  }

  // What the prefixes of the pattern that end h say about each other.
  lemma Overlaps(h: seq<byte>)
    ensures EndsWith(h, 0)
    ensures EndsWith(h, 2) ==> EndsWith(h, 1)
    ensures EndsWith(h, 3) ==> !EndsWith(h, 2) && !EndsWith(h, 1)
  {
    var n := |h|;
    if EndsWith(h, 1) { assert h[n - 1..][0] == 0; }
    if EndsWith(h, 2) {
      assert h[n - 2..][1] == h[n - 1] == 0;
      assert h[n - 1..] == [0] == PATTERN[..1];
    }
    if EndsWith(h, 3) { assert h[n - 3..][2] == h[n - 1] == 0xff; }
  }

  // The step keeps the longest match, whatever was read before.
  lemma StepIsLongest(h: seq<byte>, x: byte)
    requires Matched(h) < 4
    ensures Matched(h + [x]) == Step(Matched(h), x)
  {
    hide EndsWith;
    Overlaps(h);
    Overlaps(h + [x]);
    EndsWithStep(h, x, 0);
    EndsWithStep(h, x, 1);
    EndsWithStep(h, x, 2);
    EndsWithStep(h, x, 3);
    MatchedIsLongest(h + [x], Step(Matched(h), x));
  }

  lemma FreeStep(h: seq<byte>, x: byte)
    requires Free(h)
    ensures Free(h + [x]) <==> Matched(h + [x]) < 4
  {
    var s := h + [x];
    assert s[..|s|] == s;
    forall i | 0 <= i <= |h| ensures s[..i] == h[..i] { }
  }

  // h is all that earlier calls have read. The search stops right after the
  // first occurrence, or at the end of the buffer if there is none.
  method Search(have0: nat, buf: seq<byte>, ghost h: seq<byte>) returns (have: nat, next: nat)
    requires Free(h) && have0 == Matched(h)
    ensures next <= |buf| && have == Matched(h + buf[..next])
    ensures have == 4 <==> !Free(h + buf)
    ensures have == 4 ==> next > 0 && Free(h + buf[..next - 1])
    ensures have < 4 ==> next == |buf|
  {
    hide EndsWith, Matched, Free;
    var got := have0;
    next := 0;
    assert h + buf[..0] == h;
    FreeMeans(h);
    while next < |buf| && got < 4
      invariant 0 <= next <= |buf| && got == Matched(h + buf[..next])
      invariant got < 4 ==> Free(h + buf[..next])
      invariant got == 4 ==> next > 0 && Free(h + buf[..next - 1])
    {
      ghost var s := h + buf[..next];
      assert s + [buf[next]] == h + buf[..next + 1];
      StepIsLongest(s, buf[next]);
      FreeStep(s, buf[next]);
      if buf[next] == (if got < 2 then 0 else 0xff) {
        got := got + 1;
      } else if buf[next] != 0 {
        got := 0;
      } else {
        got := 4 - got;
      }
      next := next + 1;
    }
    have := got;
    if got == 4 {
      FoundStays(h + buf[..next], buf[next..]);
      assert h + buf[..next] + buf[next..] == h + buf;
    } else {
      assert h + buf[..next] == h + buf;
    }
  }

  lemma FreeMeans(h: seq<byte>)
    requires Free(h)
    ensures Matched(h) < 4
  {
    assert h[..|h|] == h;
  }

  lemma FoundStays(s: seq<byte>, t: seq<byte>)
    requires Matched(s) == 4
    ensures !Free(s + t)
  {
    assert (s + t)[..|s|] == s;
  }

  // Two calls on the pieces of a buffer do what one call does on the whole.
  method SearchInPieces(have0: nat, first: seq<byte>, second: seq<byte>, ghost h: seq<byte>) returns (have: nat,
    read: nat)
    requires Free(h) && have0 == Matched(h)
    ensures read <= |first| + |second| && have == Matched(h + (first + second)[..read])
    ensures have == 4 <==> !Free(h + (first + second))
    ensures have == 4 ==> read > 0 && Free(h + (first + second)[..read - 1])
    ensures have < 4 ==> read == |first| + |second|
  {
    hide EndsWith, Matched, Free;
    var next;
    have, next := Search(have0, first, h);
    read := next;
    assert first[..next] == (first + second)[..read];
    assert h + first + second == h + (first + second);
    if have == 4 {
      FoundStays(h + first[..next], first[next..] + second);
      assert h + first[..next] + (first[next..] + second) == h + (first + second);
      assert first[..next - 1] == (first + second)[..read - 1];
    } else {
      assert first[..next] == first;
      have, next := Search(have, second, h + first);
      read := |first| + next;
      assert h + first + second[..next] == h + (first + second)[..read];
      if have == 4 { assert h + first + second[..next - 1] == h + (first + second)[..read - 1]; }
    }
  }
}
