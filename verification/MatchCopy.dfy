// Copying a match in zlib: the careful MATCH state of inflate.c, which copies
// whatever one stretch of window or output and the output space allow, and the
// unchecked copies of inffast.c. Both produce the bytes of the match.
module MatchCopy {
  import opened Bits
  import opened Lz77
  import opened Window

  // The output so far: what the window remembers, then this call's output.
  ghost function Total(win: InflateWindow, out: array<byte>, beg: nat, put: nat): (t: seq<byte>)
    requires win.Valid() && beg <= put <= out.Length
    reads win, win.window, out
    ensures |t| == win.whave + (put - beg)
  {
    win.Contents() + out[beg..put]
  }

  // The n bytes at from in the window are those dist before the end of the output.
  ghost predicate InWindow(win: InflateWindow, total: nat, from: nat, n: nat, dist: nat)
    requires win.Valid() && win.window != null
    reads win, win.window
  {
    && dist <= total && total - dist + n <= win.whave && from + n <= win.window.Length
    && var p := total - dist; forall k: nat :: k < n ==> WindowByte(win, p, from, k)
  }

  ghost predicate WindowByte(win: InflateWindow, p: nat, from: nat, k: nat)
    requires win.Valid() && win.window != null && p + k < win.whave && from + k < win.window.Length
    reads win, win.window
  {
    win.window[from + k] == win.Contents()[p + k]
  }

  // The stretch of window that holds the bytes back places before its end.
  lemma Stretch(win: InflateWindow, total: nat, back: nat, dist: nat)
    requires win.Valid() && 0 < back <= win.whave && dist <= total && total - dist == win.whave - back
    ensures win.window != null
    ensures back <= win.wnext ==> InWindow(win, total, win.wnext - back, back, dist)
    ensures back > win.wnext
      ==> win.whave == win.wsize && InWindow(win, total, win.wsize + win.wnext - back, back - win.wnext, dist)
  {
    hide Last, Pow2;
    var w, p := win.window[..], win.whave - back;
    if back <= win.wnext {
      var from := win.wnext - back;
      forall k: nat | k < back ensures WindowByte(win, p, from, k) { InOrderAt(w, win.wnext, win.whave, p + k); }
    } else {
      var from := win.wsize + win.wnext - back;
      forall k: nat | k < back - win.wnext ensures WindowByte(win, p, from, k) {
        InOrderAt(w, win.wnext, win.whave, p + k);
      }
    }
  }

  // One more byte of a match.
  lemma OneMore(t0: seq<byte>, t: seq<byte>, t1: seq<byte>, dist: nat)
    requires 1 <= dist <= |t0| && Repeats(t0, t, dist) && |t| - dist < |t| && t1 == t + [t[|t| - dist]]
    ensures Repeats(t0, t1, dist)
  {
  }

  // n bytes from one stretch of window.
  method WindowBytes(win: InflateWindow, out: array<byte>, put: nat, from: nat, n: nat, dist: nat, ghost beg: nat,
    ghost t0: seq<byte>)
    requires win.Valid() && win.window != null && out != win.window && beg <= put && put + n <= out.Length
    requires 1 <= dist <= |t0| && Repeats(t0, Total(win, out, beg, put), dist)
    requires InWindow(win, |Total(win, out, beg, put)|, from, n, dist)
    modifies out
    ensures out[..put] == old(out[..put]) && Repeats(t0, Total(win, out, beg, put + n), dist)
  {
    hide InflateWindow.Valid, InflateWindow.Contents, Repeats;
    var k := 0;
    ghost var a, p := out[..put], |Total(win, out, beg, put)| - dist;
    while k < n
      invariant 0 <= k <= n && out[..put] == a && InWindow(win, p + dist, from, n, dist)
      invariant Repeats(t0, Total(win, out, beg, put + k), dist)
    {
      assert WindowByte(win, p, from, k);
      ghost var t := Total(win, out, beg, put + k);
      out[put + k] := win.window[from + k];
      assert Total(win, out, beg, put + k + 1) == t + [t[|t| - dist]];
      OneMore(t0, t, Total(win, out, beg, put + k + 1), dist);
      k := k + 1;
    }
  }

  // One byte from the output itself.
  method OutputByte(win: InflateWindow, out: array<byte>, put: nat, dist: nat, ghost beg: nat, ghost t0: seq<byte>)
    requires win.Valid() && out != win.window && beg <= put < out.Length && 1 <= dist <= put - beg && dist <= |t0|
    requires Repeats(t0, Total(win, out, beg, put), dist)
    modifies out
    ensures out[..put] == old(out[..put]) && Repeats(t0, Total(win, out, beg, put + 1), dist)
  {
    hide InflateWindow.Valid, InflateWindow.Contents, Repeats;
    ghost var t := Total(win, out, beg, put);
    out[put] := out[put - dist];
    assert Total(win, out, beg, put + 1) == t + [t[|t| - dist]];
    OneMore(t0, t, Total(win, out, beg, put + 1), dist);
  }

  method OutputBytes(win: InflateWindow, out: array<byte>, put: nat, n: nat, dist: nat, ghost beg: nat,
    ghost t0: seq<byte>)
    requires win.Valid() && out != win.window && beg <= put && put + n <= out.Length && 1 <= dist <= put - beg
      && dist <= |t0|
    requires Repeats(t0, Total(win, out, beg, put), dist)
    modifies out
    ensures out[..put] == old(out[..put]) && Repeats(t0, Total(win, out, beg, put + n), dist)
  {
    hide InflateWindow.Valid, InflateWindow.Contents, Repeats, Total;
    var k := 0;
    ghost var a := out[..put];
    while k < n
      invariant 0 <= k <= n && out[..put] == a && Repeats(t0, Total(win, out, beg, put + k), dist)
    {
      ghost var b := out[..put + k];
      OutputByte(win, out, put + k, dist, beg, t0);
      assert out[..put] == b[..put] == a;
      k := k + 1;
    }
  }

  // One literal.
  method PutByte(win: InflateWindow, out: array<byte>, ghost beg: nat, put: nat, c: byte)
    requires win.Valid() && out != win.window && beg <= put < out.Length
    modifies out
    ensures out[..put] == old(out[..put]) && Total(win, out, beg, put + 1) == old(Total(win, out, beg, put)) + [c]
  {
    hide InflateWindow.Valid, InflateWindow.Contents;
    ghost var t := Total(win, out, beg, put);
    out[put] := c;
    assert Total(win, out, beg, put + 1) == t + [c];
  }

  // ---------------------------------------------------------------------
  // The careful copy
  // ---------------------------------------------------------------------
  datatype Mode = MATCH | LEN | BAD | LEAVE

  // One pass through the MATCH state. left is the output space.
  method MatchStep(win: InflateWindow, out: array<byte>, beg: nat, put0: nat, left0: nat, offset: nat, length0: nat,
    ghost t0: seq<byte>)
    returns (mode: Mode, put: nat, left: nat, length: nat)
    requires win.Valid() && out != win.window && beg <= put0 && put0 + left0 <= out.Length && 1 <= offset
      && 1 <= length0
    requires offset <= |t0| ==> Repeats(t0, Total(win, out, beg, put0), offset)
    requires offset > |t0| ==> t0 == Total(win, out, beg, put0)
    modifies out
    ensures mode == LEAVE <==> left0 == 0
    ensures mode == BAD <==> left0 > 0 && offset > |t0|
    ensures mode == LEAVE || mode == BAD
      ==> put == put0 && left == left0 && length == length0 && out[..] == old(out[..])
    ensures mode == LEAVE || mode == BAD ==> Total(win, out, beg, put0) == old(Total(win, out, beg, put0))
    ensures mode == LEN || mode == MATCH ==>
      && put0 < put && left == left0 - (put - put0) && length == length0 - (put - put0)
        && (mode == LEN <==> length == 0)
      && offset <= |t0| && Repeats(t0, Total(win, out, beg, put), offset) && out[..put0] == old(out[..put0])
  {
    hide InflateWindow.Valid, InflateWindow.Contents, Repeats;
    put, left, length := put0, left0, length0;
    if left == 0 { return LEAVE, put, left, length; }
    var copy := put - beg;
    if offset > copy {
      copy := offset - copy;
      WithinOrBeyond(win, out, beg, put, offset, t0);
      if copy > win.whave {
        return BAD, put, left, length;
      }
      Stretch(win, |Total(win, out, beg, put)|, copy, offset);
      var from;
      if copy > win.wnext {
        copy := copy - win.wnext;
        from := win.wsize - copy;
      } else {
        from := win.wnext - copy;
      }
      if copy > length { copy := length; }
      if copy > left { copy := left; }
      Shorter(win, |Total(win, out, beg, put)|, from, copy, offset);
      WindowBytes(win, out, put, from, copy, offset, beg, t0);
    } else {
      copy := length;
      if copy > left { copy := left; }
      WithinOrBeyond(win, out, beg, put, offset, t0);
      OutputBytes(win, out, put, copy, offset, beg, t0);
    }
    put, left, length := put + copy, left - copy, length - copy;
    mode := if length == 0 then LEN else MATCH;
  }

  // Whether a distance is within reach does not change while a match is copied.
  lemma WithinOrBeyond(win: InflateWindow, out: array<byte>, beg: nat, put: nat, offset: nat, t0: seq<byte>)
    requires win.Valid() && beg <= put <= out.Length && 1 <= offset
    requires offset <= |t0| ==> Repeats(t0, Total(win, out, beg, put), offset)
    requires offset > |t0| ==> t0 == Total(win, out, beg, put)
    ensures offset <= |t0| ==> offset <= |Total(win, out, beg, put)|
  {
  }

  lemma Shorter(win: InflateWindow, total: nat, from: nat, n: nat, dist: nat)
    requires win.Valid() && win.window != null
    requires exists m: nat :: m >= n && InWindow(win, total, from, m, dist)
    ensures InWindow(win, total, from, n, dist)
  {
  }

  // The MATCH state until the match is complete or the output is full.
  method MatchAll(win: InflateWindow, out: array<byte>, beg: nat, put0: nat, left0: nat, offset: nat, length0: nat)
    returns (mode: Mode, put: nat, left: nat, length: nat)
    requires win.Valid() && out != win.window && beg <= put0 && put0 + left0 <= out.Length && 1 <= offset
      && 1 <= length0
    modifies out
    ensures mode == BAD <==> left0 > 0 && offset > |old(Total(win, out, beg, put0))|
    ensures mode == BAD ==> put == put0 && left == left0 && length == length0 && out[..] == old(out[..])
    ensures mode != BAD && left0 > 0 ==> put == put0 + (if length0 <= left0 then length0 else left0)
    ensures mode != BAD && left0 > 0
      ==> Total(win, out, beg, put) == Copy(old(Total(win, out, beg, put0)), offset, put - put0)
    ensures mode != BAD
      ==> left == left0 - (put - put0) && length == length0 - (put - put0) && (mode == LEN <==> length == 0)
          && mode != MATCH
    ensures put >= put0 && out[..put0] == old(out[..put0])
  {
    hide InflateWindow.Valid, InflateWindow.Contents, Repeats, Total;
    ghost var t0, a := Total(win, out, beg, put0), out[..put0];
    put, left, length := put0, left0, length0;
    mode := MATCH;
    AlreadyRepeats(t0, offset);
    while mode == MATCH
      invariant put0 <= put && left == left0 - (put - put0) && left >= 0 && length == length0 - (put - put0)
        && out[..put0] == a
      invariant mode == BAD ==> put == put0 && offset > |t0| && left > 0 && out[..] == old(out[..])
      invariant mode == LEAVE ==> left == 0 && length > 0
      invariant mode == LEN ==> length == 0 && offset <= |t0|
      invariant mode == MATCH ==> length > 0
      invariant offset <= |t0| ==> Repeats(t0, Total(win, out, beg, put), offset)
      invariant offset > |t0| ==> t0 == Total(win, out, beg, put) && put == put0 && out[..] == old(out[..])
      decreases left, if mode == MATCH then 1 else 0
    {
      ghost var b := out[..put];
      mode, put, left, length := MatchStep(win, out, beg, put, left, offset, length, t0);
      assert out[..put0] == b[..put0];
    }
    if mode != BAD && left0 > 0 {
      RepeatsIsCopy(t0, Total(win, out, beg, put), offset);
      TotalLength(win, out, beg, put);
      TotalLength(win, out, beg, put0);
    }
  }

  lemma AlreadyRepeats(t: seq<byte>, dist: nat)
    requires 1 <= dist
    ensures dist <= |t| ==> Repeats(t, t, dist)
  {
  }

  lemma TotalLength(win: InflateWindow, out: array<byte>, beg: nat, put: nat)
    requires win.Valid() && beg <= put <= out.Length
    ensures |Total(win, out, beg, put)| == win.whave + (put - beg)
  {
  }

  // ---------------------------------------------------------------------
  // The unchecked copy
  // ---------------------------------------------------------------------

  // The loop tail of inflate_fast when what is left lies in one stretch of the window, three bytes at a time.
  method WindowByThrees(win: InflateWindow, out: array<byte>, put: nat, from: nat, len0: nat, dist: nat, ghost beg: nat,
    ghost t0: seq<byte>)
    requires win.Valid() && win.window != null && out != win.window && beg <= put && put + len0 <= out.Length
    requires 1 <= dist <= |t0| && Repeats(t0, Total(win, out, beg, put), dist)
    requires InWindow(win, |Total(win, out, beg, put)|, from, len0, dist)
    modifies out
    ensures out[..put] == old(out[..put]) && Repeats(t0, Total(win, out, beg, put + len0), dist)
  {
    hide InflateWindow.Valid, InflateWindow.Contents, Repeats, Total;
    var len, at, src := len0, put, from;
    ghost var a := out[..put];
    TotalLength(win, out, beg, put);
    while len > 2
      invariant 0 <= len <= len0 && at == put + (len0 - len) && src == from + (len0 - len) && out[..put] == a
      invariant Repeats(t0, Total(win, out, beg, at), dist) && |Total(win, out, beg, at)| == win.whave + (at - beg)
      invariant InWindow(win, |Total(win, out, beg, at)|, src, len, dist)
    {
      ghost var b, n := out[..at], |Total(win, out, beg, at)|;
      Shorter(win, n, src, 3, dist);
      WindowBytes(win, out, at, src, 3, dist, beg, t0);
      Further(win, n, src, len, 3, dist);
      assert out[..put] == b[..put];
      TotalLength(win, out, beg, at + 3);
      at, src := at + 3, src + 3;
      len := len - 3;
    }
    if len > 0 {
      ghost var b := out[..at];
      WindowBytes(win, out, at, src, len, dist, beg, t0);
      assert out[..put] == b[..put];
    }
  }

  lemma Further(win: InflateWindow, total: nat, from: nat, n: nat, m: nat, dist: nat)
    requires win.Valid() && win.window != null && m <= n && InWindow(win, total, from, n, dist)
    ensures InWindow(win, total + m, from + m, n - m, dist)
  {
    var p, f := total + m - dist, from + m;
    forall k: nat | k < n - m ensures WindowByte(win, p, f, k) { assert WindowByte(win, total - dist, from, m + k); }
  }

  // The same from the output.
  method OutputByThrees(win: InflateWindow, out: array<byte>, put: nat, len0: nat, dist: nat, ghost beg: nat,
    ghost t0: seq<byte>)
    requires win.Valid() && out != win.window && beg <= put && put + len0 <= out.Length && 1 <= dist <= put - beg
      && dist <= |t0|
    requires Repeats(t0, Total(win, out, beg, put), dist)
    modifies out
    ensures out[..put] == old(out[..put]) && Repeats(t0, Total(win, out, beg, put + len0), dist)
  {
    hide InflateWindow.Valid, InflateWindow.Contents, Repeats, Total;
    var len, at := len0, put;
    ghost var a := out[..put];
    while len > 2
      invariant 0 <= len <= len0 && at == put + (len0 - len) && out[..put] == a
      invariant Repeats(t0, Total(win, out, beg, at), dist)
    {
      ghost var b := out[..at];
      OutputBytes(win, out, at, 3, dist, beg, t0);
      assert out[..put] == b[..put];
      at := at + 3;
      len := len - 3;
    }
    if len > 0 {
      ghost var b := out[..at];
      OutputBytes(win, out, at, len, dist, beg, t0);
      assert out[..put] == b[..put];
    }
  }

  // From "max distance in output" to the end of the copy. Not ok is a distance too far back.
  method CopyFast(win: InflateWindow, out: array<byte>, beg: nat, put0: nat, dist: nat, len0: nat) returns (ok: bool)
    requires win.Valid() && out != win.window && beg <= put0 && put0 + len0 <= out.Length && 1 <= dist && 3 <= len0
    modifies out
    ensures ok <==> dist <= |old(Total(win, out, beg, put0))|
    ensures !ok ==> out[..] == old(out[..]) && Total(win, out, beg, put0) == old(Total(win, out, beg, put0))
    ensures ok ==> Total(win, out, beg, put0 + len0) == Copy(old(Total(win, out, beg, put0)), dist, len0)
    ensures out[..put0] == old(out[..put0])
  {
    hide InflateWindow.Valid, InflateWindow.Contents, Repeats, Total;
    ghost var t0 := Total(win, out, beg, put0);
    TotalLength(win, out, beg, put0);
    AlreadyRepeats(t0, dist);
    var op := put0 - beg;
    if dist > op {
      op := dist - op;
      if op > win.whave { return false; }
      Stretch(win, |t0|, op, dist);
      FromWindow(win, out, beg, put0, dist, len0, op, t0);
    } else {
      OutputByThrees(win, out, put0, len0, dist, beg, t0);
    }
    TotalLength(win, out, beg, put0 + len0);
    RepeatsIsCopy(t0, Total(win, out, beg, put0 + len0), dist);
    ok := true;
  }

  // The three cases of where op bytes back in the window are.
  method FromWindow(win: InflateWindow, out: array<byte>, beg: nat, put0: nat, dist: nat, len0: nat, op0: nat,
    ghost t0: seq<byte>)
    requires win.Valid() && out != win.window && beg <= put0 && put0 + len0 <= out.Length && 1 <= dist && 3 <= len0
    requires t0 == Total(win, out, beg, put0) && dist <= |t0| && 0 < op0 <= win.whave && op0 == dist - (put0 - beg)
    requires win.window != null && Repeats(t0, t0, dist)
    requires op0 <= win.wnext ==> InWindow(win, |t0|, win.wnext - op0, op0, dist)
    requires op0 > win.wnext
      ==> win.whave == win.wsize && InWindow(win, |t0|, win.wsize + win.wnext - op0, op0 - win.wnext, dist)
    modifies out
    ensures out[..put0] == old(out[..put0]) && Repeats(t0, Total(win, out, beg, put0 + len0), dist)
  {
    hide InflateWindow.Valid, InflateWindow.Contents, Repeats, Total;
    var op, len, put, from := op0, len0, put0, 0;
    TotalLength(win, out, beg, put0);
    if win.wnext == 0 {
      from := win.wsize - op;
      OneStretch(win, out, beg, put, dist, len, from, op, t0);
    } else if win.wnext < op {
      from := win.wsize + win.wnext - op;
      op := op - win.wnext;
      if op < len {
        WindowBytes(win, out, put, from, op, dist, beg, t0);
        put, len := put + op, len - op;
        TotalLength(win, out, beg, put);
        Stretch(win, |Total(win, out, beg, put)|, win.wnext, dist);
        ghost var b := out[..put];
        OneStretch(win, out, beg, put, dist, len, 0, win.wnext, t0);
        assert out[..put0] == b[..put0];
      } else {
        Shorter(win, |t0|, from, len, dist);
        WindowByThrees(win, out, put, from, len, dist, beg, t0);
      }
    } else {
      from := win.wnext - op;
      OneStretch(win, out, beg, put, dist, len, from, op, t0);
    }
  }

  // op bytes from the window, the rest from the output, or all from the window if it has enough.
  method OneStretch(win: InflateWindow, out: array<byte>, beg: nat, put0: nat, dist: nat, len0: nat, from: nat, op: nat,
    ghost t0: seq<byte>)
    requires win.Valid() && win.window != null && out != win.window && beg <= put0 && put0 + len0 <= out.Length
    requires 1 <= dist <= |t0| && op == dist - (put0 - beg) && Repeats(t0, Total(win, out, beg, put0), dist)
    requires InWindow(win, |Total(win, out, beg, put0)|, from, op, dist)
    modifies out
    ensures out[..put0] == old(out[..put0]) && Repeats(t0, Total(win, out, beg, put0 + len0), dist)
  {
    hide InflateWindow.Valid, InflateWindow.Contents, Repeats, Total;
    var len, put := len0, put0;
    if op < len {
      WindowBytes(win, out, put, from, op, dist, beg, t0);
      put, len := put + op, len - op;
      ghost var b := out[..put];
      OutputByThrees(win, out, put, len, dist, beg, t0);
      assert out[..put0] == b[..put0];
    } else {
      Shorter(win, |Total(win, out, beg, put)|, from, len, dist);
      WindowByThrees(win, out, put, from, len, dist, beg, t0);
    }
  }
}
