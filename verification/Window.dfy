// The sliding window of zlib's inflate.c: a circular buffer that always holds
// the most recent output, whatever chunks the output came in.
module Window {
  import opened Bits

  // The last n elements, or all if there are fewer.
  ghost function Last(s: seq<byte>, n: nat): (t: seq<byte>)
    ensures |t| == if |s| <= n then |s| else n
  {
    if |s| <= n then s else s[|s| - n..]
  }

  lemma LastAppend(h: seq<byte>, x: seq<byte>, n: nat)
    ensures Last(Last(h, n) + x, n) == Last(h + x, n)
  {
  }

  // A circular buffer of whave bytes, read from its oldest byte.
  ghost function InOrder(w: seq<byte>, wnext: nat, whave: nat): (s: seq<byte>)
    requires wnext <= whave <= |w|
    ensures |s| == whave
  {
    w[wnext..whave] + w[..wnext]
  }

  method Memcpy(dst: array<byte>, d: nat, src: array<byte>, s: nat, n: nat)
    requires dst != src && d + n <= dst.Length && s + n <= src.Length
    modifies dst
    ensures dst[..] == old(dst[..d]) + src[s..s + n] + old(dst[d + n..])
    ensures forall i :: 0 <= i < dst.Length ==> dst[i] == if d <= i < d + n then src[s + (i - d)] else old(dst[i])
  {
    ghost var a := dst[..];
    var k := 0;
    while k < n
      invariant 0 <= k <= n
      invariant forall i :: 0 <= i < dst.Length ==> dst[i] == if d <= i < d + k then src[s + (i - d)] else a[i]
    {
      dst[d + k] := src[s + k];
      k := k + 1;
    }
  }

  class InflateWindow {
    const wbits: nat
    var window: array?<byte>
    var wsize: nat                // 0 until the window is in use
    var whave: nat
    var wnext: nat
    ghost var history: seq<byte>  // everything the window has been updated with

    // The window's bytes, oldest first.
    ghost function Contents(): (s: seq<byte>)
      requires wnext <= whave && (window == null ==> whave == 0) && (window != null ==> whave <= window.Length)
      reads this, window
      ensures |s| == whave
    {
      if window == null then [] else InOrder(window[..], wnext, whave)
    }

    ghost predicate Valid()
      reads this, window
    {
      && wnext <= whave <= wsize && (wsize == 0 || wsize == Pow2(wbits))
      && (window == null ==> wsize == 0) && (window != null ==> window.Length == Pow2(wbits))
      && (wsize > 0 ==> wnext < wsize) && (whave < wsize ==> wnext == whave)
      && Contents() == Last(history, wsize) && (wsize == 0 ==> history == [])
    }

    constructor (wbits: nat)
      ensures Valid() && this.wbits == wbits && history == [] && window == null && wsize == 0
    {
      this.wbits := wbits;
      window, wsize, whave, wnext, history := null, 0, 0, 0, [];
    }

    // updatewindow: the copy bytes before end have just been written. True if
    // there is no memory for the window.
    method Update(out: array<byte>, end: nat, copy0: nat, memory: bool) returns (failed: bool)
      requires Valid() && copy0 <= end <= out.Length && out != window
      modifies this, window
      ensures Valid() && (old(window) != null ==> window == old(window)) && (window != old(window) ==> fresh(window))
      ensures failed <==> old(window) == null && !memory
      ensures failed ==> history == old(history) && wsize == old(wsize)
      ensures !failed ==> wsize == Pow2(wbits) && history == old(history) + out[end - copy0..end]
    {
      hide Last, Pow2;
      if window == null {
        if !memory { return true; }
        window := new byte[Pow2(wbits)](_ => 0);
      }
      if wsize == 0 {
        wsize := Pow2(wbits);
        wnext := 0;
        whave := 0;
        LastNothing(wsize);
      }
      CopyIn(out, end, copy0);
      failed := false;
    }

    // As much output as the whole window, or more.
    method CopyWhole(out: array<byte>, end: nat, ghost x: seq<byte>)
      requires Valid() && window != null && 0 < wsize == window.Length && wsize <= |x| <= end <= out.Length
        && out != window && x == out[end - |x|..end]
      modifies this`wnext, this`whave, this`history, window
      ensures Valid() && history == old(history) + x
    {
      hide Last, Pow2, InOrder;
      Replaced(Contents(), x, out[..], end, wsize);
      LastAppend(history, x, wsize);
      history := history + x;
      NothingKept(window[..], out[end - wsize..end]);
      Memcpy(window, 0, out, end - wsize, wsize);
      assert end - wsize + wsize == end;
      wnext := 0;
      whave := wsize;
      WholeInOrder(window[..]);
    }

    // Less output than the window holds, around its end if need be.
    method CopyAround(out: array<byte>, end: nat, copy0: nat, ghost x: seq<byte>)
      requires Valid() && window != null && copy0 < wsize == window.Length && copy0 <= end <= out.Length
        && out != window && x == out[end - copy0..end]
      modifies this`wnext, this`whave, this`history, window
      ensures Valid() && history == old(history) + x
    {
      hide Last, Pow2, Spliced, InOrder;
      ghost var w := window[..];
      SplicedInOrder(w, wnext, whave, x);
      LastAppend(history, x, wsize);
      history := history + x;
      var copy := copy0;
      var dist := wsize - wnext;
      if dist > copy { dist := copy; }
      Splice(window, wnext, out, end, copy0, dist);
      copy := copy - dist;
      if copy > 0 {
        wnext := copy;
        whave := wsize;
      } else {
        wnext := wnext + dist;
        if wnext == wsize { wnext := 0; }
        if whave < wsize { whave := whave + dist; }
      }
      assert wnext == NextAfter(|w|, old(wnext), |x|) && whave == HaveAfter(|w|, old(wnext), old(whave), |x|);
    }

    // Copy wsize or fewer output bytes into the circular window.
    method CopyIn(out: array<byte>, end: nat, copy0: nat)
      requires Valid() && window != null && 0 < wsize == window.Length && copy0 <= end <= out.Length && out != window
      modifies this`wnext, this`whave, this`history, window
      ensures Valid() && history == old(history) + out[end - copy0..end]
    {
      ghost var x := out[end - copy0..end];
      if copy0 >= wsize {
        CopyWhole(out, end, x);
      } else {
        CopyAround(out, end, copy0, x);
      }
    }

    // inflateGetDictionary: the window's bytes in order.
    method GetDictionary(dictionary: array<byte>) returns (dictLength: nat)
      requires Valid() && dictionary != window && whave <= dictionary.Length
      modifies dictionary
      ensures dictLength == |Last(history, wsize)| && dictionary[..dictLength] == Last(history, wsize)
      ensures dictionary[dictLength..] == old(dictionary[dictLength..])
    {
      hide Last, Pow2;
      if whave > 0 {
        ghost var d := dictionary[..];
        Memcpy(dictionary, 0, window, wnext, whave - wnext);
        Memcpy(dictionary, whave - wnext, window, 0, wnext);
      }
      dictLength := whave;
    }
  }

  lemma WholeInOrder(w: seq<byte>)
    ensures InOrder(w, 0, |w|) == w
  {
  }

  lemma LastNothing(n: nat)
    ensures Last([], n) == []
  {
  }

  lemma NothingKept(a: seq<byte>, b: seq<byte>)
    requires |a| == |b|
    ensures a[..0] + b + a[0 + |b|..] == b
  {
  }

  lemma Replaced(c: seq<byte>, x: seq<byte>, out: seq<byte>, end: nat, n: nat)
    requires n <= |x| <= end <= |out| && x == out[end - |x|..end]
    ensures Last(c + x, n) == out[end - n..end]
  {
  }

  // The buffer w after x has been written from place wnext, around the end if need be.
  ghost function Spliced(w: seq<byte>, wnext: nat, x: seq<byte>): (w': seq<byte>)
    requires wnext <= |w| && |x| < |w|
    ensures |w'| == |w|
  {
    var d := |w| - wnext;
    if |x| <= d then w[..wnext] + x + w[wnext + |x|..]
    else x[d..] + w[|x| - d..wnext] + x[..d]
  }

  // The two copies of updatewindow.
  method Splice(window: array<byte>, wnext: nat, out: array<byte>, end: nat, copy0: nat, dist: nat)
    requires wnext < window.Length && copy0 < window.Length && copy0 <= end <= out.Length && out != window
    requires dist == if window.Length - wnext > copy0 then copy0 else window.Length - wnext
    modifies window
    ensures window[..] == Spliced(old(window[..]), wnext, out[end - copy0..end])
  {
    hide Spliced;
    ghost var w, x := window[..], out[end - copy0..end];
    Memcpy(window, wnext, out, end - copy0, dist);
    var copy := copy0 - dist;
    if copy > 0 {
      Memcpy(window, 0, out, end - copy, copy);
    }
    forall i: nat | i < |w| ensures window[i] == Spliced(w, wnext, x)[i] { SplicedAt(w, wnext, x, i); }
  }

  // Where the next byte goes, and how many bytes there are, after x.
  function NextAfter(size: nat, wnext: nat, n: nat): nat
  {
    if wnext + n < size then wnext + n else wnext + n - size
  }

  function HaveAfter(size: nat, wnext: nat, whave: nat, n: nat): nat
  {
    if whave == size || wnext + n >= size then size else whave + n
  }

  // Read in order, the buffer now ends with x.
  lemma SplicedInOrder(w: seq<byte>, wnext: nat, whave: nat, x: seq<byte>)
    requires wnext <= whave <= |w| && wnext < |w| && (whave < |w| ==> wnext == whave) && |x| < |w|
    ensures NextAfter(|w|, wnext, |x|) <= HaveAfter(|w|, wnext, whave, |x|) <= |w|
    ensures InOrder(Spliced(w, wnext, x), NextAfter(|w|, wnext, |x|), HaveAfter(|w|, wnext, whave, |x|))
         == Last(InOrder(w, wnext, whave) + x, |w|)
  {
    hide Spliced, InOrder, Last;
    var size, next, have := |w|, NextAfter(|w|, wnext, |x|), HaveAfter(|w|, wnext, whave, |x|);
    var s, t := InOrder(Spliced(w, wnext, x), next, have), Last(InOrder(w, wnext, whave) + x, size);
    forall k: nat | k < |t| ensures s[k] == t[k] {
      var i := if k < have - next then next + k else k - (have - next);
      SplicedAt(w, wnext, x, i);
      InOrderAt(Spliced(w, wnext, x), next, have, k);
      LastAt(InOrder(w, wnext, whave), x, size, k);
      if k + whave + |x| - |t| < whave { InOrderAt(w, wnext, whave, k + whave + |x| - |t|); }
    }
  }

  lemma InOrderAt(w: seq<byte>, wnext: nat, whave: nat, k: nat)
    requires wnext <= whave <= |w| && k < whave
    ensures InOrder(w, wnext, whave)[k] == if k < whave - wnext then w[wnext + k] else w[k - (whave - wnext)]
  {
  }

  lemma LastAt(c: seq<byte>, x: seq<byte>, n: nat, k: nat)
    requires k < |Last(c + x, n)|
    ensures var i := k + |c| + |x| - |Last(c + x, n)|; Last(c + x, n)[k] == if i < |c| then c[i] else x[i - |c|]
  {
  }

  lemma SplicedAt(w: seq<byte>, wnext: nat, x: seq<byte>, i: nat)
    requires wnext <= |w| && |x| < |w| && i < |w|
    ensures Spliced(w, wnext, x)[i] ==
            if wnext <= i < wnext + |x| then x[i - wnext]
            else if i + |w| < wnext + |x| then x[i + |w| - wnext]
            else w[i]
  {
  }
}
