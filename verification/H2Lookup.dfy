// h2lookup of libstand's hammer2.c: an ordered range lookup in a tree of block
// references through one shared block buffer, which every recursion overwrites
// and which a read that fails may leave with anything in it.
module H2Lookup {
  import opened Bits

  const KEYS: nat := 0x1_0000_0000_0000_0000
  const NO_OFF: nat := 0xffff_ffff_ffff_ffff    // (hammer2_off_t)-1
  const RADICES: nat := 64                      // HAMMER2_OFF_MASK_RADIX + 1

  type pos = x: nat | x > 0 witness 1

  datatype Kind = EMPTY | VOLUME | INODE | INDIRECT | DATA

  // hammer2_blockref: dataOff carries the block's size in its low six bits.
  datatype Bref = Bref(kind: Kind, keybits: nat, key: nat, dataOff: nat)

  // The views of a block: as an indirect block, and as an inode.
  datatype Media = Media(npdata: seq<Bref>, blockset: seq<Bref>, direct: bool)

  datatype Option<T> = None | Some(value: T)

  function BlockOff(b: Bref): nat
  {
    b.dataOff - b.dataOff % RADICES
  }

  function BlockSize(b: Bref): nat
  {
    Pow2(b.dataOff % RADICES)
  }

  // The keys of a reference, as [key, End).
  function End(b: Bref): nat
  {
    b.key + Pow2(b.keybits)
  }

  predicate Aligned(b: Bref)
  {
    BlockOff(b) % BlockSize(b) == 0
  }

  predicate Overlaps(b: Bref, beg: nat, end: nat)
  {
    End(b) > beg && b.key <= end
  }

  predicate IsLeafKind(b: Bref)
  {
    b.kind == INODE || b.kind == DATA
  }

  datatype Result = NotFound | IoError | Embedded | Found(bref: Bref, boff: nat)

  class Volume {
    const device: map<(nat, nat), Media>   // what a read of (offset, size) yields, if it succeeds
    const sroot: seq<Bref>                 // the volume header's block set
    const setCount: nat                    // HAMMER2_SET_COUNT
    const brefBytes: pos                   // sizeof(hammer2_blockref_t)
    const lbufRadix: nat                   // log2 of HAMMER2_LBUFSIZE
    const lbufSize: nat := Pow2(lbufRadix)

    var media: Media
    var savedOff: nat                      // saved_base.data_off
    ghost var bufOff: nat                  // what the buffer holds
    ghost var bufSize: nat

    constructor (device: map<(nat, nat), Media>, sroot: seq<Bref>, setCount: nat, brefBytes: pos, lbufRadix: nat)
      ensures Valid() && this.device == device && this.sroot == sroot && savedOff == NO_OFF
    {
      this.device, this.sroot, this.setCount, this.brefBytes, this.lbufRadix := device, sroot, setCount, brefBytes,
        lbufRadix;
      media, savedOff := Media([], [], false), NO_OFF;
      bufOff, bufSize := 0, 0;
    }

    // What a read yields, if it succeeds.
    function Read(off: nat, size: nat): Option<Media>
    {
      if (off, size) in device then Some(device[(off, size)]) else None
    }

    // A block's contents, if it can be read.
    function Block(base: Bref): Option<Media>
    {
      Read(BlockOff(base), BlockSize(base))
    }

    // How many references a base has.
    function Count(base: Bref): nat
    {
      match base.kind
      case VOLUME => setCount
      case INODE => setCount
      case INDIRECT => BlockSize(base) / brefBytes
      case _ => 0
    }

    // The references under a base; none if its block cannot be read.
    ghost function Refs(base: Bref): seq<Bref>
    {
      match base.kind
      case VOLUME => sroot
      case INODE => if Block(base).Some? then Block(base).value.blockset else []
      case INDIRECT => if Block(base).Some? then Block(base).value.npdata else []
      case _ => []
    }

    // m is the block at off, if there is one at off.
    ghost predicate Holds(off: nat, m: Media)
    {
      off != NO_OFF ==> forall b: Bref :: b.dataOff == off ==> Block(b) == Some(m)
    }

    // When the buffer is said to hold a base's block, it does.
    ghost predicate Valid()
      reads this`media, this`savedOff
    {
      Holds(savedOff, media)
    }

    // A read that fails leaves a buffer that nobody can vouch for: what it is
    // said to hold is right whatever was left in it exactly if it is said to hold nothing.
    lemma KeptExactly(off: nat)
      ensures (forall left: Media :: Holds(off, left)) <==> off == NO_OFF
    {
      var b := Bref(EMPTY, 0, 0, off);
      var m, n := Media([], [], false), Media([], [], true);
      if off != NO_OFF {
        assert Block(b) != Some(m) || Block(b) != Some(n);
        assert !Holds(off, m) || !Holds(off, n);
      }
    }

    // A finite tree: references of known kinds with disjoint ranges inside
    // [lo, hi), and under each indirect one a tree inside its range.
    ghost predicate Tree(base: Bref, lo: nat, hi: nat, depth: nat)
      decreases depth
    {
      var r := Refs(base);
      && hi <= KEYS && (base.kind == VOLUME || Block(base).Some? ==> |r| == Count(base))
      && (forall i :: 0 <= i < |r| && r[i].kind != EMPTY ==> ChildOk(r[i], lo, hi))
      && (forall i, j :: 0 <= i < |r| && 0 <= j < |r| && i != j ==> Apart(r[i], r[j]))
      && (forall i :: 0 <= i < |r| && r[i].kind == INDIRECT ==> depth > 0 && Tree(r[i], r[i].key, End(r[i]), depth - 1))
    }

    ghost predicate ChildOk(c: Bref, lo: nat, hi: nat)
    {
      && (c.kind == INDIRECT || IsLeafKind(c)) && c.keybits < 64 && lo <= c.key && End(c) <= hi
      && c.dataOff != NO_OFF && Aligned(c)
    }

    ghost predicate Apart(a: Bref, b: Bref)
    {
      a.kind != EMPTY && b.kind != EMPTY ==> End(a) <= b.key || End(b) <= a.key
    }

    // b is a leaf below base.
    ghost predicate Leaf(base: Bref, depth: nat, b: Bref)
      decreases depth
    {
      exists i :: 0 <= i < |Refs(base)| && Below(Refs(base)[i], depth, b)
    }

    // b is the leaf c, or a leaf below it.
    ghost predicate Below(c: Bref, depth: nat, b: Bref)
      decreases depth, 0
    {
      (IsLeafKind(c) && b == c) || (c.kind == INDIRECT && depth > 0 && Leaf(c, depth - 1, b))
    }

    // Leaves lie inside the tree's range.
    lemma {:induction false} LeafInside(base: Bref, lo: nat, hi: nat, depth: nat, b: Bref)
      requires Tree(base, lo, hi, depth) && Leaf(base, depth, b)
      ensures lo <= b.key && End(b) <= hi && IsLeafKind(b)
      decreases depth
    {
      var r := Refs(base);
      var i :| 0 <= i < |r| && Below(r[i], depth, b);
      assert r[i].kind != EMPTY ==> ChildOk(r[i], lo, hi);
      if r[i].kind == INDIRECT { LeafInside(r[i], r[i].key, End(r[i]), depth - 1, b); }
    }

    // The answer to a lookup: the least leaf that overlaps, or that there is none.
    ghost predicate Answers(base: Bref, depth: nat, beg: nat, end: nat, r: Result)
    {
      match r
      case Found(b, _) => Leaf(base, depth, b) && Overlaps(b, beg, end)
                          && forall l: Bref :: Leaf(base, depth, l) && Overlaps(l, beg, end) ==> b.key <= l.key
      case NotFound => forall l: Bref :: Leaf(base, depth, l) ==> !Overlaps(l, beg, end)
      case _ => true
    }

    // Every block of the tree, and the stretch of device around every leaf, can be read.
    ghost predicate Healthy(base: Bref, depth: nat)
      decreases depth
    {
      && base.dataOff != NO_OFF && (base.kind == VOLUME || Block(base).Some?)
      && forall i :: 0 <= i < |Refs(base)| ==> HealthyChild(Refs(base)[i], depth)
    }

    ghost predicate HealthyChild(c: Bref, depth: nat)
      decreases depth, 0
    {
      (IsLeafKind(c) ==> Read(LeafStart(c), LeafSize(c)).Some?)
        && (c.kind == INDIRECT && depth > 0 ==> Healthy(c, depth - 1))
    }

    // A leaf is read in device buffers: where the read starts, and how long it is.
    function LeafSize(b: Bref): nat
    {
      if BlockSize(b) < lbufSize then lbufSize else BlockSize(b)
    }

    function LeafStart(b: Bref): nat
    {
      BlockOff(b) - LeafSkew(b)
    }

    // Where in that buffer the leaf begins: its offset's bits under HAMMER2_LBUFMASK64.
    function LeafSkew(b: Bref): (r: nat)
      ensures r <= BlockOff(b)
    {
      Mod(BlockOff(b), lbufSize)
    }

    // The outcome of one scan: the lowest reference in the range, of kind EMPTY if there is none.
    ghost predicate IsBest(base: Bref, beg: nat, end: nat, best: Bref)
    {
      && (best.kind != EMPTY ==> best in Refs(base) && Overlaps(best, beg, end))
      && (best.kind == EMPTY ==> best.key == KEYS - 1)
      && forall i :: 0 <= i < |Refs(base)| ==> NotBetter(Refs(base)[i], beg, end, best)
    }

    ghost predicate NotBetter(c: Bref, beg: nat, end: nat, best: Bref)
    {
      c.kind != EMPTY && Overlaps(c, beg, end) ==> best.kind != EMPTY && best.key <= c.key
    }

    // h2read of a base's block, unless the buffer is said to hold it already. A
    // read that fails leaves `left` in the buffer, and what it is said to hold alone.
    method Load(base: Bref, left: Media) returns (ok: bool)
      requires base.dataOff != NO_OFF
      modifies this
      ensures ok <==> base.dataOff == old(savedOff) || Block(base).Some?
      ensures ok ==> savedOff == base.dataOff && (old(Valid()) ==> Valid() && Block(base) == Some(media))
      ensures base.dataOff == old(savedOff) ==> unchanged(this)
      ensures base.dataOff != old(savedOff) && ok ==> Valid() && media == Block(base).value
      ensures !ok ==> media == left && savedOff == old(savedOff)
    {
      if base.dataOff != savedOff {
        if Block(base).None? {
          media, bufOff, bufSize := left, 0, 0;
          return false;
        }
        media := Block(base).value;
        bufOff, bufSize := BlockOff(base), BlockSize(base);
        savedOff := base.dataOff;
      }
      ok := true;
    }

    // A run after which the code scans the wrong block: a is loaded, the read of b
    // fails and overwrites the buffer, and a is taken to be still there.
    method FailedReadStays() returns (v: Volume, a: Bref, b: Bref)
      ensures v.savedOff == a.dataOff && v.Block(a).Some? && v.media != v.Block(a).value && !v.Valid()
      ensures v.Refs(a) == [b] && v.media.npdata == [Bref(EMPTY, 0, 0, 0)]
    {
      a, b := Bref(INDIRECT, 1, 0, 64), Bref(INDIRECT, 0, 0, 128);
      v := new Volume(map[(64, 1) := Media([b], [], false)], [a], 1, 1, 0);
      assert Pow2(0) == 1;
      var left := Media([Bref(EMPTY, 0, 0, 0)], [], false);
      var ok := v.Load(a, left);
      ok := v.Load(b, left);
      assert !ok;
      ok := v.Load(a, left);
      assert ok;
    }

    // The scan for the lowest reference within the range. Direct is an inode with embedded data.
    method Scan(base: Bref, beg: nat, end: nat, left: Media, ghost lo: nat, ghost hi: nat, ghost depth: nat)
      returns (ok: bool, direct: bool, best: Bref)
      requires Valid() && Tree(base, lo, hi, depth) && base.dataOff != NO_OFF && base.kind != EMPTY && base.kind != DATA
      modifies this
      ensures ok ==> Valid()
      ensures savedOff == old(savedOff) || (savedOff == base.dataOff && base.kind != VOLUME && Block(base).Some?)
      ensures ok && base.kind != VOLUME && Count(base) > 0 ==> savedOff == base.dataOff
      ensures !ok ==> media == left && savedOff == old(savedOff)
      ensures ok && !direct ==> IsBest(base, beg, end, best)
      ensures direct ==> base.kind == INODE && Block(base).Some? && Block(base).value.direct
      ensures ok && base.kind == INODE && Count(base) > 0 ==> Block(base).Some? && direct == Block(base).value.direct
      ensures !ok ==> base.kind != VOLUME && Block(base).None?
    {
      hide Tree, Pow2, Valid;
      ok, direct, best := true, false, Bref(EMPTY, 0, KEYS - 1, 0);
      var count := Count(base);
      ChildrenKnown(base, lo, hi, depth);
      var i := 0;
      while i < count
        invariant 0 <= i <= count && Valid() && ok && !direct
        invariant i == 0 || base.kind == VOLUME ==> savedOff == old(savedOff)
        invariant i > 0 && base.kind != VOLUME ==> savedOff == base.dataOff
        invariant i > 0 ==> base.kind == VOLUME || Block(base).Some?
        invariant i > 0 && base.kind == INODE ==> !Block(base).value.direct
        invariant best.kind != EMPTY ==> best in Refs(base) && Overlaps(best, beg, end)
        invariant best.kind == EMPTY ==> best.key == KEYS - 1
        invariant forall k :: 0 <= k < i && k < |Refs(base)| ==> NotBetter(Refs(base)[k], beg, end, best)
      {
        if base.kind != VOLUME {
          ok := Load(base, left);
          if !ok { return; }
        }
        if base.kind == INODE && media.direct {
          direct := true;
          return;
        }
        var bref := if base.kind == VOLUME then sroot[i] else if base.kind == INODE then media.blockset[i]
          else media.npdata[i];
        assert bref == Refs(base)[i];
        if bref.kind != EMPTY && bref.key <= best.key {
          if End(bref) - 1 >= beg && bref.key <= end {
            best := bref;
          }
        }
        i := i + 1;
      }
    }

    lemma ChildrenKnown(base: Bref, lo: nat, hi: nat, depth: nat)
      requires Tree(base, lo, hi, depth)
      ensures hi <= KEYS && (base.kind == VOLUME || Block(base).Some? ==> |Refs(base)| == Count(base))
      ensures forall i :: 0 <= i < |Refs(base)| && Refs(base)[i].kind != EMPTY ==> ChildOk(Refs(base)[i], lo, hi)
      ensures forall i, j :: 0 <= i < |Refs(base)| && 0 <= j < |Refs(base)| && i != j
                ==> Apart(Refs(base)[i], Refs(base)[j])
    {
    }

    // Other references that overlap a range lie beyond the lowest one.
    lemma Beyond(base: Bref, lo: nat, hi: nat, depth: nat, beg: nat, end: nat, best: Bref, c: Bref)
      requires Tree(base, lo, hi, depth) && IsBest(base, beg, end, best) && best.kind != EMPTY
      requires c in Refs(base) && c.kind != EMPTY && Overlaps(c, beg, end) && c != best
      ensures End(best) <= c.key
    {
      ChildrenKnown(base, lo, hi, depth);
      var i :| 0 <= i < |Refs(base)| && Refs(base)[i] == c;
      var j :| 0 <= j < |Refs(base)| && Refs(base)[j] == best;
      assert NotBetter(Refs(base)[i], beg, end, best) && Apart(Refs(base)[j], Refs(base)[i]);
    }

    // Where a leaf that overlaps a range can be: under the lowest reference, or beyond it.
    lemma LeafPlace(base: Bref, lo: nat, hi: nat, depth: nat, beg: nat, end: nat, best: Bref, l: Bref)
      requires Tree(base, lo, hi, depth) && IsBest(base, beg, end, best) && Leaf(base, depth, l)
        && Overlaps(l, beg, end)
      ensures best.kind != EMPTY && (Below(best, depth, l) || End(best) <= l.key)
    {
      hide Tree, Pow2;
      var r := Refs(base);
      var i :| 0 <= i < |r| && Below(r[i], depth, l);
      BelowInside(base, lo, hi, depth, i, l);
      assert NotBetter(r[i], beg, end, best);
      if r[i] != best { Beyond(base, lo, hi, depth, beg, end, best, r[i]); }
    }

    lemma BelowInside(base: Bref, lo: nat, hi: nat, depth: nat, i: nat, l: Bref)
      requires Tree(base, lo, hi, depth) && i < |Refs(base)| && Below(Refs(base)[i], depth, l)
      ensures Refs(base)[i].kind != EMPTY && Refs(base)[i].key <= l.key && End(l) <= End(Refs(base)[i])
    {
      var c := Refs(base)[i];
      if c.kind == INDIRECT { LeafInside(c, c.key, End(c), depth - 1, l); }
    }

    // The best reference is a leaf: it is the least leaf.
    lemma BestLeaf(base: Bref, lo: nat, hi: nat, depth: nat, beg: nat, end: nat, best: Bref, boff: nat)
      requires Tree(base, lo, hi, depth) && IsBest(base, beg, end, best) && IsLeafKind(best)
      ensures Answers(base, depth, beg, end, Found(best, boff))
    {
      hide Tree, Pow2, Leaf;
      InRefs(base, depth, best, best);
      forall l: Bref | Leaf(base, depth, l) && Overlaps(l, beg, end) ensures best.key <= l.key {
        LeafPlace(base, lo, hi, depth, beg, end, best, l);
      }
    }

    lemma InRefs(base: Bref, depth: nat, c: Bref, l: Bref)
      requires c in Refs(base) && Below(c, depth, l)
      ensures Leaf(base, depth, l)
    {
      var i :| 0 <= i < |Refs(base)| && Refs(base)[i] == c;
    }

    // A leaf found under the best reference is the least leaf.
    lemma BestSubtree(base: Bref, lo: nat, hi: nat, depth: nat, beg: nat, end: nat, best: Bref, b: Bref, boff: nat)
      requires Tree(base, lo, hi, depth) && IsBest(base, beg, end, best) && best.kind == INDIRECT && depth > 0
      requires Tree(best, best.key, End(best), depth - 1) && Answers(best, depth - 1, beg, end, Found(b, boff))
      ensures Answers(base, depth, beg, end, Found(b, boff))
    {
      hide Tree, Pow2, Leaf;
      LeafInside(best, best.key, End(best), depth - 1, b);
      InRefs(base, depth, best, b);
      EndAfter(b);
      forall l: Bref | Leaf(base, depth, l) && Overlaps(l, beg, end) ensures b.key <= l.key {
        LeafPlace(base, lo, hi, depth, beg, end, best, l);
      }
    }

    lemma EndAfter(b: Bref)
      ensures b.key < End(b)
    {
    }

    // Nothing under the best reference: whatever overlaps lies beyond it.
    lemma NothingThere(base: Bref, lo: nat, hi: nat, depth: nat, beg: nat, end: nat, best: Bref, l: Bref)
      requires Tree(base, lo, hi, depth) && IsBest(base, beg, end, best) && best.kind == INDIRECT && depth > 0
      requires Answers(best, depth - 1, beg, end, NotFound) && Leaf(base, depth, l) && Overlaps(l, beg, end)
      ensures End(best) <= l.key && Overlaps(l, End(best), end)
    {
      hide Tree, Pow2, Leaf;
      LeafPlace(base, lo, hi, depth, beg, end, best, l);
      EndAfter(l);
    }

    // What overlaps the range from beg0 on lies from beg on.
    ghost predicate Narrowed(base: Bref, depth: nat, beg0: nat, beg: nat, end: nat)
    {
      beg0 <= beg && forall l: Bref :: Leaf(base, depth, l) && Overlaps(l, beg0, end) ==> Overlaps(l, beg, end)
    }

    lemma Widened(base: Bref, depth: nat, beg0: nat, beg: nat, end: nat, r: Result)
      requires Narrowed(base, depth, beg0, beg, end) && Answers(base, depth, beg, end, r)
      ensures Answers(base, depth, beg0, end, r)
    {
      hide Leaf, Pow2;
    }

    lemma NotNarrowed(base: Bref, depth: nat, beg: nat, end: nat)
      ensures Narrowed(base, depth, beg, beg, end)
    {
    }

    // The search goes on past a subtree without a leaf, or is over.
    lemma PastSubtree(base: Bref, lo: nat, hi: nat, depth: nat, beg0: nat, beg: nat, end: nat, best: Bref)
      requires Tree(base, lo, hi, depth) && IsBest(base, beg, end, best) && best.kind == INDIRECT && depth > 0
      requires Answers(best, depth - 1, beg, end, NotFound) && Narrowed(base, depth, beg0, beg, end)
      ensures End(best) > beg ==> Narrowed(base, depth, beg0, End(best), end)
      ensures End(best) > end ==> Answers(base, depth, beg0, end, NotFound)
    {
      hide Tree, Pow2, Leaf, IsBest;
      forall l: Bref | Leaf(base, depth, l) && Overlaps(l, beg0, end)
        ensures End(best) <= l.key && Overlaps(l, End(best), end)
      {
        NothingThere(base, lo, hi, depth, beg, end, best, l);
      }
    }

    // An aligned block lies inside the device buffer that is read for it.
    lemma WithinBuffer(b: Bref)
      requires Aligned(b)
      ensures LeafSkew(b) + BlockSize(b) <= LeafSize(b)
    {
      hide Pow2;
      var r, o: nat := b.dataOff % RADICES, BlockOff(b);
      if r <= lbufRadix {
        ModOfMod(o, lbufRadix, r);
        Pow2Mono(r, lbufRadix);
        Pow2Add(r, lbufRadix - r);
        LastSlot(o % Pow2(lbufRadix), Pow2(r), Pow2(lbufRadix - r));
      } else {
        Pow2Mono(lbufRadix, r);
        ModOfMod(o, r, lbufRadix);
        SmallMod(0, Pow2(lbufRadix));
      }
    }

    // A multiple of p below p * k leaves room for p more.
    lemma LastSlot(x: nat, p: nat, k: nat)
      requires p > 0 && x % p == 0 && x < p * k
      ensures x + p <= p * k
    {
      var q := x / p;
      assert x == p * q;
      if q >= k { MulMono(p, k, q); }
      MulMono(p, q + 1, k);
      assert p * (q + 1) == p * q + p;
    }

    // Read the device buffer around a leaf. A read that fails leaves `left` there.
    method Fetch(best: Bref, left: Media) returns (r: Result)
      requires Aligned(best)
      modifies this
      ensures r == IoError <==> Read(LeafStart(best), LeafSize(best)).None?
      ensures r == IoError ==> media == left && savedOff == old(savedOff)
      ensures r != IoError ==> Valid() && Read(bufOff, bufSize) == Some(media)
      ensures r == IoError || (r.Found? && r.bref == best && bufOff + r.boff == BlockOff(best)
        && r.boff + BlockSize(best) <= bufSize)
    {
      hide Pow2, BlockOff, BlockSize, Aligned, Mod;
      WithinBuffer(best);
      var devBsize := BlockSize(best);
      if devBsize < lbufSize { devBsize := lbufSize; }
      var devBoff := LeafSkew(best);
      var data := Read(BlockOff(best) - devBoff, devBsize);
      if data.None? {
        media, bufOff, bufSize := left, 0, 0;
        return IoError;
      }
      media := data.value;
      bufOff, bufSize := BlockOff(best) - devBoff, devBsize;
      savedOff := NO_OFF;
      r := Found(best, devBoff);
    }

    // h2lookup with no base: forget what the buffer holds, whatever is in it.
    method Forget()
      modifies this
      ensures Valid() && savedOff == NO_OFF && media == old(media)
    {
      savedOff := NO_OFF;
    }

    // h2lookup. The buffer is as it is said to be afterwards unless a read failed;
    // then it holds what that read left, under the name it had before that read.
    method Lookup(base: Bref, keyBeg0: nat, keyEnd: nat, left: Media, ghost lo: nat, ghost hi: nat,
      ghost depth: nat) returns (r: Result)
      requires Valid() && Tree(base, lo, hi, depth) && keyEnd < KEYS && base.kind != EMPTY && base.kind != DATA
      modifies this
      ensures r != IoError ==> Valid()
      ensures r == IoError ==> if base.dataOff == NO_OFF then unchanged(this) else media == left
      ensures (r == IoError || r == NotFound) && savedOff == NO_OFF ==> old(savedOff) == NO_OFF
      ensures r == IoError && base.dataOff != NO_OFF && base.kind != VOLUME
        ==> (savedOff == NO_OFF <==> old(savedOff) == NO_OFF && Block(base).None?)
      ensures r == Embedded ==> base.kind == INODE && Block(base).Some? && Block(base).value.direct
      ensures base.kind == INODE && Count(base) > 0 && Block(base).Some? && Block(base).value.direct
        ==> r == Embedded || r == IoError
      ensures r != Embedded ==> Answers(base, depth, keyBeg0, keyEnd, r)
      ensures Healthy(base, depth) ==> r != IoError
      ensures r.Found? ==> bufOff + r.boff == BlockOff(r.bref) && r.boff + BlockSize(r.bref) <= bufSize
      ensures r.Found? ==> Read(bufOff, bufSize) == Some(media)
      decreases depth, 1
    {
      hide Tree, Pow2, Valid, Leaf, IsBest, Healthy, Narrowed, Block, Refs, Count, BlockOff, BlockSize,
        LeafStart, LeafSize, LeafSkew, Aligned, IsLeafKind;
      if base.dataOff == NO_OFF {
        NotHealthy(base, depth);
        return IoError;
      }
      var keyBeg := keyBeg0;
      NotNarrowed(base, depth, keyBeg0, keyEnd);
      while true
        invariant Valid() && keyBeg0 <= keyBeg
        invariant savedOff == NO_OFF ==> old(savedOff) == NO_OFF
        invariant keyBeg > keyBeg0 && base.kind != VOLUME ==> savedOff != NO_OFF && Block(base).Some?
        invariant keyBeg == keyBeg0 ==> savedOff == old(savedOff)
        invariant Narrowed(base, depth, keyBeg0, keyBeg, keyEnd)
        invariant keyBeg > keyBeg0
          ==> !(base.kind == INODE && Count(base) > 0 && Block(base).Some? && Block(base).value.direct)
        decreases KEYS - keyBeg
      {
        var ok, direct, best := Scan(base, keyBeg, keyEnd, left, lo, hi, depth);
        if !ok {
          NotHealthy(base, depth);
          return IoError;
        }
        if direct { return Embedded; }
        BestKnown(base, lo, hi, depth, keyBeg, keyEnd, best);
        if best.kind == EMPTY {
          NoneBest(base, lo, hi, depth, keyBeg, keyEnd, best);
          Widened(base, depth, keyBeg0, keyBeg, keyEnd, NotFound);
          return NotFound;
        } else if best.kind == INDIRECT {
          r := Lookup(best, keyBeg, keyEnd, left, best.key, End(best), depth - 1);
          if r != NotFound {
            if r.Found? {
              BestSubtree(base, lo, hi, depth, keyBeg, keyEnd, best, r.bref, r.boff);
              Widened(base, depth, keyBeg0, keyBeg, keyEnd, r);
            }
            return;
          }
          PastSubtree(base, lo, hi, depth, keyBeg0, keyBeg, keyEnd, best);
          EndAfter(best);
          keyBeg := (best.key + Pow2(best.keybits)) % KEYS;
          if !(keyBeg > best.key && keyBeg <= keyEnd) { return; }
        } else {
          r := Fetch(best, left);
          if r.Found? {
            BestLeaf(base, lo, hi, depth, keyBeg, keyEnd, best, r.boff);
            Widened(base, depth, keyBeg0, keyBeg, keyEnd, r);
          }
          return;
        }
      }
    }

    lemma NoneBest(base: Bref, lo: nat, hi: nat, depth: nat, beg: nat, end: nat, best: Bref)
      requires Tree(base, lo, hi, depth) && IsBest(base, beg, end, best) && best.kind == EMPTY
      ensures Answers(base, depth, beg, end, NotFound)
    {
      hide Tree, Pow2, Leaf;
      forall l: Bref | Leaf(base, depth, l) ensures !Overlaps(l, beg, end) {
        if Overlaps(l, beg, end) { LeafPlace(base, lo, hi, depth, beg, end, best, l); }
      }
    }

    lemma NotHealthy(base: Bref, depth: nat)
      requires base.dataOff == NO_OFF || (base.kind != VOLUME && Block(base).None?)
      ensures !Healthy(base, depth)
    {
    }

    // What is known of the reference a scan chooses.
    lemma BestKnown(base: Bref, lo: nat, hi: nat, depth: nat, beg: nat, end: nat, best: Bref)
      requires Tree(base, lo, hi, depth) && IsBest(base, beg, end, best)
      ensures best.kind != EMPTY
        ==> (best.kind == INDIRECT || IsLeafKind(best)) && Overlaps(best, beg, end) && End(best) <= KEYS
      ensures best.kind != EMPTY && base.kind != VOLUME ==> Block(base).Some? && Count(base) > 0
      ensures best.kind != EMPTY ==> best.dataOff != NO_OFF && Aligned(best)
      ensures best.kind == INDIRECT ==> depth > 0 && Tree(best, best.key, End(best), depth - 1)
      ensures best.kind == INDIRECT && Healthy(base, depth) ==> Healthy(best, depth - 1)
      ensures IsLeafKind(best) && Healthy(base, depth) ==> Read(LeafStart(best), LeafSize(best)).Some?
    {
      hide Pow2;
      if best.kind != EMPTY {
        var i :| 0 <= i < |Refs(base)| && Refs(base)[i] == best;
        assert ChildOk(Refs(base)[i], lo, hi);
        if Healthy(base, depth) { assert HealthyChild(Refs(base)[i], depth); }
      }
    }
  }
}
