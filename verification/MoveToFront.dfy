// The move-to-front stage of bzip2's decompress.c: a 256-element list kept as
// sixteen 16-byte blocks inside one 4096-byte array.
module MoveToFront {
  import opened Bits

  const MTFA_SIZE: nat := 4096
  const MTFL_SIZE: nat := 16

  // ---------------------------------------------------------------------
  // The plain list
  // ---------------------------------------------------------------------
  ghost function ToFront(s: seq<byte>, nn: nat): (t: seq<byte>)
    requires nn < |s|
    ensures |t| == |s|
  {
    [s[nn]] + s[..nn] + s[nn + 1..]
  }

  ghost function Identity(): seq<byte>
  {
    seq(256, k requires 0 <= k < 256 => k)
  }

  // Sixteen blocks in ascending, non-overlapping places, none above its initial place.
  ghost predicate BlocksAt(b: seq<int>)
  {
    && |b| == 16
    && (forall i :: 0 <= i < 16 ==> 0 <= b[i] <= 3840 + 16 * i)
    && (forall i, j :: 0 <= i < j < 16 ==> b[i] + 16 * (j - i) <= b[j])
  }

  // The list that blocks at b hold in a.
  ghost function ListOf(a: seq<byte>, b: seq<int>): (s: seq<byte>)
    requires |a| == MTFA_SIZE && BlocksAt(b)
    ensures |s| == 256
  {
    seq(256, k requires 0 <= k < 256 => a[b[k / 16] + k % 16])
  }

  // a' is a with the bytes lo..hi-1 moved one place right.
  ghost predicate Slid(a: seq<byte>, a': seq<byte>, lo: int, hi: int)
  {
    && |a'| == |a| && 0 <= lo <= hi < |a|
    && (forall k :: lo < k <= hi ==> a'[k] == a[k - 1])
    && (forall k :: 0 <= k < |a| && (k < lo || hi < k) ==> a'[k] == a[k])
  }

  lemma NearList(a: seq<byte>, a': seq<byte>, b: seq<int>, n: nat)
    requires |a| == MTFA_SIZE && BlocksAt(b) && n < 16 && Slid(a, a', b[0], b[0] + n) && a'[b[0]] == a[b[0] + n]
    ensures ListOf(a', b) == ToFront(ListOf(a, b), n)
  {
    var s, t := ListOf(a, b), ListOf(a', b);
    forall k | 0 <= k < 256 ensures t[k] == ToFront(s, n)[k] {
      if k < 16 {
        assert k / 16 == 0 && k % 16 == k;
        if 0 < k { assert s[k - 1] == a[b[0] + (k - 1)]; }
      } else {
        assert b[k / 16] >= b[0] + 16 * (k / 16);
      }
    }
  }

  // Byte r of block i.
  ghost function Cell(a: seq<byte>, b: seq<int>, i: int, r: int): byte
    requires |a| == MTFA_SIZE && BlocksAt(b) && 0 <= i < 16 && 0 <= r < 16
  {
    a[b[i] + r]
  }

  // The byte just below block i, which no earlier block uses once the hole has passed.
  ghost function Below(a: seq<byte>, b: seq<int>, i: int): byte
    requires |a| == MTFA_SIZE && BlocksAt(b) && 0 < i < 16
  {
    assert b[0] + 16 * i <= b[i];
    a[b[i] - 1]
  }

  // The array after the hole in block l has travelled down to block lno: each
  // block above lno has taken over the last byte of the block before it.
  // Bytes of other blocks are in place; a byte written just below a block may
  // be the previous block's last, and then it is written with its own value.
  ghost predicate Passed(a: seq<byte>, a': seq<byte>, b: seq<int>, off: int, lno: int, l: int)
    requires BlocksAt(b) && 0 <= lno <= l < 16 && 0 <= off < 16
  {
    && |a'| == |a| == MTFA_SIZE
    && (forall i :: lno < i < l ==> Below(a', b, i) == Cell(a, b, i - 1, 15))
    && (lno < l ==> Cell(a', b, l, 0) == Cell(a, b, l - 1, 15))
    && (forall i, r :: 0 <= i < 16 && i != l && 0 <= r < 16 ==> Cell(a', b, i, r) == Cell(a, b, i, r))
    && (forall r :: 0 < r <= off ==> Cell(a', b, l, r) == Cell(a, b, l, r - 1))
    && (forall r :: off < r < 16 ==> Cell(a', b, l, r) == Cell(a, b, l, r))
  }

  lemma HoleOpened(a: seq<byte>, a': seq<byte>, b: seq<int>, off: int, l: int)
    requires |a| == MTFA_SIZE && BlocksAt(b) && 0 <= l < 16 && 0 <= off < 16 && Slid(a, a', b[l], b[l] + off)
    ensures Passed(a, a', b, off, l, l)
  {
    forall i, r | 0 <= i < 16 && i != l && 0 <= r < 16 ensures Cell(a', b, i, r) == Cell(a, b, i, r) {
      if i < l { assert b[i] + 16 * (l - i) <= b[l]; } else { assert b[l] + 16 * (i - l) <= b[i]; }
    }
  }

  // Where block lno takes its new first byte.
  ghost function HoleAt(b: seq<int>, lno: int, l: int): int
    requires |b| == 16 && 0 <= lno < 16
  {
    if lno == l then b[lno] else b[lno] - 1
  }

  lemma PassElsewhere(a: seq<byte>, a': seq<byte>, b: seq<int>, off: int, lno: int, l: int)
    requires BlocksAt(b) && 0 < lno <= l < 16 && 0 <= off < 16 && Passed(a, a', b, off, lno, l)
    requires 0 <= HoleAt(b, lno, l) < 4096
    ensures forall i, r :: 0 <= i < 16 && i != l && 0 <= r < 16
              ==> Cell(a'[HoleAt(b, lno, l) := Cell(a', b, lno - 1, 15)], b, i, r) == Cell(a, b, i, r)
  {
    var c := a'[HoleAt(b, lno, l) := Cell(a', b, lno - 1, 15)];
    forall i, r | 0 <= i < 16 && i != l && 0 <= r < 16 ensures Cell(c, b, i, r) == Cell(a, b, i, r) {
      assert Cell(a', b, i, r) == Cell(a, b, i, r);
      CellsApart(b, i, r, lno, l);
    }
  }

  lemma PassStep(a: seq<byte>, a': seq<byte>, b: seq<int>, off: int, lno: int, l: int)
    requires BlocksAt(b) && 0 < lno <= l < 16 && 0 <= off < 16 && Passed(a, a', b, off, lno, l)
    ensures 0 <= HoleAt(b, lno, l) < 4096
    ensures Passed(a, a'[HoleAt(b, lno, l) := Cell(a', b, lno - 1, 15)], b, off, lno - 1, l)
  {
    var h := HoleAt(b, lno, l);
    assert b[lno - 1] + 16 * (lno - (lno - 1)) <= b[lno];
    var c := a'[h := Cell(a', b, lno - 1, 15)];
    forall i | lno - 1 < i < l ensures Below(c, b, i) == Cell(a, b, i - 1, 15) {
      if lno < i {
        assert b[lno] + 16 * (i - lno) <= b[i];
        assert Below(a', b, i) == Cell(a, b, i - 1, 15);
      }
    }
    PassElsewhere(a, a', b, off, lno, l);
    if lno < l {
      assert b[lno] + 16 * (l - lno) <= b[l];
      assert Cell(a', b, l, 0) == Cell(a, b, l - 1, 15);
    }
    forall r | 0 < r < 16 ensures Cell(c, b, l, r) == Cell(a', b, l, r) {
      if lno < l { assert b[lno] + 16 * (l - lno) <= b[l]; }
    }
  }

  // The only cell of another block that the hole can touch is the one that is copied.
  lemma CellsApart(b: seq<int>, i: int, r: int, lno: int, l: int)
    requires BlocksAt(b) && 0 < lno <= l < 16 && 0 <= i < 16 && i != l && 0 <= r < 16
    ensures b[i] + r == HoleAt(b, lno, l) ==> i == lno - 1 && r == 15
  {
    if i < lno {
      assert b[i] + 16 * (lno - i) <= b[lno];
    } else if lno < i {
      assert b[lno] + 16 * (i - lno) <= b[i];
    }
  }

  // The bases when all earlier blocks have moved one place left.
  ghost function MovedLeft(b: seq<int>, l: int): (b': seq<int>)
    requires |b| == 16
  {
    seq(16, i requires 0 <= i < 16 => if i < l then b[i] - 1 else b[i])
  }

  lemma MovedLeftBlocks(b: seq<int>, l: int)
    requires BlocksAt(b) && b[0] > 0
    ensures BlocksAt(MovedLeft(b, l))
  {
    forall i | 0 <= i < 16 ensures 0 <= MovedLeft(b, l)[i] <= 3840 + 16 * i {
      if i > 0 { assert b[0] + 16 * i <= b[i]; }
    }
  }

  lemma FarList(a: seq<byte>, a': seq<byte>, b: seq<int>, off: int, l: int, uc: byte)
    requires |a| == |a'| == MTFA_SIZE && BlocksAt(b) && b[0] > 0 && 0 < l < 16 && 0 <= off < 16
      && uc == Cell(a, b, l, off)
    requires Passed(a, a', b, off, 0, l)
    ensures BlocksAt(MovedLeft(b, l))
    ensures ListOf(a'[b[0] - 1 := uc], MovedLeft(b, l)) == ToFront(ListOf(a, b), 16 * l + off)
  {
    hide Passed, Cell, ListOf, ToFront, MovedLeft;
    MovedLeftBlocks(b, l);
    var b', c, nn := MovedLeft(b, l), a'[b[0] - 1 := uc], 16 * l + off;
    var s, t := ListOf(a, b), ListOf(c, b');
    ListAt(a, b, l, off);
    forall k | 0 <= k < 256 ensures t[k] == ToFront(s, nn)[k] {
      hide *;
      var i, r := k / 16, k % 16;
      assert k == 16 * i + r && 0 <= i < 16 && 0 <= r < 16;
      FarByte(a, a', b, off, l, uc, i, r);
      ListAt(c, b', i, r);
      ListAt(a, b, i, r);
      if 0 < r { ListAt(a, b, i, r - 1); }
      if 0 < i { ListAt(a, b, i - 1, 15); }
      ToFrontAt(s, nn, k);
    }
  }

  lemma ToFrontAt(s: seq<byte>, nn: nat, k: nat)
    requires nn < |s| && k < |s|
    ensures ToFront(s, nn)[k] == if k == 0 then s[nn] else if k <= nn then s[k - 1] else s[k]
  {
  }

  lemma ListAt(a: seq<byte>, b: seq<int>, i: int, r: int)
    requires |a| == MTFA_SIZE && BlocksAt(b) && 0 <= i < 16 && 0 <= r < 16
    ensures ListOf(a, b)[16 * i + r] == Cell(a, b, i, r)
  {
    assert (16 * i + r) / 16 == i && (16 * i + r) % 16 == r;
  }

  lemma FarByte(a: seq<byte>, a': seq<byte>, b: seq<int>, off: int, l: int, uc: byte, i: int, r: int)
    requires |a| == MTFA_SIZE && BlocksAt(b) && b[0] > 0 && 0 < l < 16 && 0 <= off < 16
    requires Passed(a, a', b, off, 0, l) && 0 <= i < 16 && 0 <= r < 16 && BlocksAt(MovedLeft(b, l))
    ensures Cell(a'[b[0] - 1 := uc], MovedLeft(b, l), i, r) ==
            if i == 0 && r == 0 then uc
            else if 16 * i + r <= 16 * l + off then (if r == 0 then Cell(a, b, i - 1, 15) else Cell(a, b, i, r - 1))
            else Cell(a, b, i, r)
  {
    if i > 0 { assert b[0] + 16 * i <= b[i]; }
    if i < l && r > 0 {
      assert Cell(a', b, i, r - 1) == Cell(a, b, i, r - 1);
    } else if 0 < i < l {
      assert Below(a', b, i) == Cell(a, b, i - 1, 15);
    } else {
      assert Cell(a'[b[0] - 1 := uc], MovedLeft(b, l), i, r) == if i == 0 && r == 0 then uc else Cell(a', b, i, r);
    }
  }

  // Where the rebuild puts each byte.
  ghost predicate Copied(a: seq<byte>, a': seq<byte>, b: seq<int>, kk: int)
    requires |a| == MTFA_SIZE && BlocksAt(b)
  {
    && |a'| == |a|
    && (forall k :: kk < k < 4096 && 3840 <= k ==> a'[k] == ListOf(a, b)[k - 3840])
    && (forall k :: 0 <= k <= kk && k < 4096 ==> a'[k] == a[k])
  }

  ghost function Top(): (b: seq<int>)
    ensures BlocksAt(b) && b[0] > 0
  {
    seq(16, i => 3840 + 16 * i)
  }

  lemma RebuiltList(a: seq<byte>, a': seq<byte>, b: seq<int>)
    requires |a| == MTFA_SIZE && BlocksAt(b) && Copied(a, a', b, 3839)
    ensures ListOf(a', Top()) == ListOf(a, b)
  {
    var s, t := ListOf(a, b), ListOf(a', Top());
    forall k | 0 <= k < 256 ensures t[k] == s[k] {
      assert 3840 + 16 * (k / 16) + k % 16 == 3840 + k;
      assert s[3840 + k - 3840] == s[k];
    }
  }

  class MtfList {
    const mtfa: array<byte>
    const mtfbase: array<int>

    ghost predicate Blocks()
      reads mtfbase
    {
      mtfa.Length == MTFA_SIZE && BlocksAt(mtfbase[..])
    }

    ghost predicate Valid()
      reads mtfbase
    {
      Blocks() && mtfbase[0] > 0
    }

    ghost function List(): (s: seq<byte>)
      requires Blocks()
      reads mtfa, mtfbase
      ensures |s| == 256
    {
      ListOf(mtfa[..], mtfbase[..])
    }

    constructor ()
      ensures Valid() && List() == Identity() && fresh(mtfa) && fresh(mtfbase)
    {
      mtfa := new byte[MTFA_SIZE](_ => 0);
      mtfbase := new int[16](_ => 0);
      new;
      Init();
    }

    // MTF init
    method Init()
      requires mtfa.Length == MTFA_SIZE && mtfbase.Length == 16
      modifies mtfa, mtfbase
      ensures Valid() && List() == Identity()
    {
      var kk := MTFA_SIZE - 1;
      var ii := 256 / MTFL_SIZE - 1;
      while ii >= 0
        invariant -1 <= ii <= 15 && kk == 3840 + 16 * ii + 15
        invariant forall k :: kk < k < 4096 ==> mtfa[k] == k - 3840
        invariant forall i :: ii < i < 16 ==> mtfbase[i] == 3840 + 16 * i
      {
        var jj := MTFL_SIZE - 1;
        while jj >= 0
          invariant -1 <= jj <= 15 && kk == 3840 + 16 * ii + jj
          invariant forall k :: kk < k < 4096 ==> mtfa[k] == k - 3840
          invariant forall i :: ii < i < 16 ==> mtfbase[i] == 3840 + 16 * i
        {
          mtfa[kk] := ii * MTFL_SIZE + jj;
          kk := kk - 1;
          jj := jj - 1;
        }
        mtfbase[ii] := kk + 1;
        ii := ii - 1;
      }
    }

    // mtfa[mtfbase[0]]
    method Front() returns (uc: byte)
      requires Valid()
      ensures uc == List()[0]
    {
      uc := mtfa[mtfbase[0]];
    }

    // uc = MTF(nn)
    method Decode(nn: nat) returns (uc: byte)
      requires Valid() && nn < 256
      modifies mtfa, mtfbase
      ensures Valid() && uc == old(List()[nn]) && List() == ToFront(old(List()), nn)
    {
      if nn < MTFL_SIZE {
        uc := DecodeNear(nn);
      } else {
        uc := DecodeFar(nn);
        if mtfbase[0] == 0 {
          Rebuild();
        }
      }
    }

    // Within the first block: shift right, four at a time.
    method DecodeNear(n: nat) returns (uc: byte)
      requires Valid() && n < MTFL_SIZE
      modifies mtfa
      ensures Valid() && uc == old(List()[n]) && List() == ToFront(old(List()), n)
    {
      var pp := mtfbase[0];
      uc := mtfa[pp + n];
      SlideByFour(pp, n);
      mtfa[pp] := uc;
      NearList(old(mtfa[..]), mtfa[..], mtfbase[..], n);
      assert n / 16 == 0 && n % 16 == n;
    }

    method SlideByFour(pp: nat, n: nat)
      requires pp + n < mtfa.Length
      modifies mtfa
      ensures Slid(old(mtfa[..]), mtfa[..], pp, pp + n)
    {
      ghost var a := mtfa[..];
      var nn := n;
      while nn > 3
        invariant 0 <= nn <= n
        invariant forall k :: 0 <= k < |a| && (k <= pp + nn || pp + n < k) ==> mtfa[k] == a[k]
        invariant forall k :: pp + nn < k <= pp + n ==> mtfa[k] == a[k - 1]
      {
        var z := pp + nn;
        mtfa[z] := mtfa[z - 1];
        mtfa[z - 1] := mtfa[z - 2];
        mtfa[z - 2] := mtfa[z - 3];
        mtfa[z - 3] := mtfa[z - 4];
        nn := nn - 4;
      }
      while nn > 0
        invariant 0 <= nn <= n
        invariant forall k :: 0 <= k < |a| && (k <= pp + nn || pp + n < k) ==> mtfa[k] == a[k]
        invariant forall k :: pp + nn < k <= pp + n ==> mtfa[k] == a[k - 1]
      {
        mtfa[pp + nn] := mtfa[pp + nn - 1];
        nn := nn - 1;
      }
    }

    // Beyond the first block: open a hole in block lno, then pass one element
    // down from each earlier block, every one of which moves one place left.
    // The hole passes through the blocks down to the first.
    method PassHole(l: nat, off: nat, ghost a: seq<byte>, ghost b: seq<int>)
      requires mtfa.Length == MTFA_SIZE && mtfbase.Length == 16 && BlocksAt(b) && l < 16 && off < 16
      requires mtfbase[..] == MovedBases(b, l, l) && Passed(a, mtfa[..], b, off, l, l)
      modifies mtfa, mtfbase
      ensures mtfbase[..] == MovedBases(b, 0, l) && Passed(a, mtfa[..], b, off, 0, l)
    {
      hide Passed;
      var lno := l;
      while lno > 0
        invariant 0 <= lno <= l && mtfbase[..] == MovedBases(b, lno, l)
        invariant Passed(a, mtfa[..], b, off, lno, l)
      {
        PassStep(a, mtfa[..], b, off, lno, l);
        ghost var a' := mtfa[..];
        mtfbase[lno] := mtfbase[lno] - 1;
        mtfa[mtfbase[lno]] := mtfa[mtfbase[lno - 1] + MTFL_SIZE - 1];
        assert mtfa[..] == a'[HoleAt(b, lno, l) := Cell(a', b, lno - 1, 15)];
        lno := lno - 1;
        assert mtfbase[..] == MovedBases(b, lno, l);
      }
    }

    method DecodeFar(nn: nat) returns (uc: byte)
      requires Valid() && MTFL_SIZE <= nn < 256
      modifies mtfa, mtfbase
      ensures Blocks() && uc == old(List()[nn]) && List() == ToFront(old(List()), nn)
    {
      hide Passed, Slid, ListOf, ToFront;
      ghost var a, b := mtfa[..], mtfbase[..];
      var lno := nn / MTFL_SIZE;
      var off := nn % MTFL_SIZE;
      ListAt(a, b, lno, off);
      ghost var l := lno;
      var pp := mtfbase[lno] + off;
      uc := mtfa[pp];
      Slide(lno, off);
      HoleOpened(a, mtfa[..], b, off, l);
      mtfbase[lno] := mtfbase[lno] + 1;
      assert mtfbase[..] == MovedBases(b, lno, l);
      PassHole(lno, off, a, b);
      FarList(a, mtfa[..], b, off, l, uc);
      ghost var a' := mtfa[..];
      mtfbase[0] := mtfbase[0] - 1;
      mtfa[mtfbase[0]] := uc;
      assert mtfbase[..] == MovedLeft(b, l) && mtfa[..] == a'[b[0] - 1 := uc];
    }

    // The bases while the hole travels down from block l to block lno.
    ghost function MovedBases(b: seq<int>, lno: int, l: int): (b': seq<int>)
      requires |b| == 16
      ensures |b'| == 16
    {
      seq(16, i requires 0 <= i < 16 => if i == l && lno == l then b[i] + 1 else if lno < i < l then b[i] - 1 else b[i])
    }

    method Slide(lno: nat, off: nat)
      requires Blocks() && lno < 16 && off < 16
      modifies mtfa
      ensures Slid(old(mtfa[..]), mtfa[..], mtfbase[lno], mtfbase[lno] + off)
    {
      ghost var a, top := mtfa[..], mtfbase[lno] + off;
      var pp := mtfbase[lno] + off;
      while pp > mtfbase[lno]
        invariant mtfbase[lno] <= pp <= top
        invariant forall k :: 0 <= k < |a| && (k <= pp || top < k) ==> mtfa[k] == a[k]
        invariant forall k :: pp < k <= top ==> mtfa[k] == a[k - 1]
      {
        mtfa[pp] := mtfa[pp - 1];
        pp := pp - 1;
      }
    }

    // Copy all blocks back to the top of the array, in place.
    method Rebuild()
      requires Blocks()
      modifies mtfa, mtfbase
      ensures Valid() && List() == old(List())
    {
      ghost var a, b := mtfa[..], mtfbase[..];
      var kk := MTFA_SIZE - 1;
      var ii := 256 / MTFL_SIZE - 1;
      while ii >= 0
        invariant -1 <= ii <= 15 && kk == 3840 + 16 * ii + 15
        invariant Copied(a, mtfa[..], b, kk)
        invariant forall i :: 0 <= i < 16 ==> mtfbase[i] == if i <= ii then b[i] else 3840 + 16 * i
      {
        kk := CopyBlock(ii, kk, a, b);
        mtfbase[ii] := kk + 1;
        ii := ii - 1;
      }
      RebuiltList(a, mtfa[..], b);
      assert mtfbase[..] == Top();
    }

    method CopyBlock(ii: nat, kk0: nat, ghost a: seq<byte>, ghost b: seq<int>) returns (kk: int)
      requires |a| == MTFA_SIZE && BlocksAt(b) && ii < 16 && kk0 == 3840 + 16 * ii + 15
      requires mtfa.Length == MTFA_SIZE && mtfbase.Length == 16 && mtfbase[ii] == b[ii] && Copied(a, mtfa[..], b, kk0)
      modifies mtfa
      ensures kk == kk0 - 16 && Copied(a, mtfa[..], b, kk)
    {
      kk := kk0;
      var jj := MTFL_SIZE - 1;
      while jj >= 0
        invariant -1 <= jj <= 15 && kk == 3840 + 16 * ii + jj
        invariant Copied(a, mtfa[..], b, kk)
      {
        assert (kk - 3840) / 16 == ii && (kk - 3840) % 16 == jj;
        ghost var a' := mtfa[..];
        mtfa[kk] := mtfa[mtfbase[ii] + jj];
        assert mtfa[..] == a'[kk := a[b[ii] + jj]];
        kk := kk - 1;
        jj := jj - 1;
      }
    }
  }
}
