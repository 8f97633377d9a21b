// Canonical Huffman codes in bzip2 (huffman.c), and the bit-by-bit decoder of
// decompress.c that reads them back through limit, base and perm.
module HuffmanTables {
  import opened Bits
  import opened Permutations
  import opened CountingRank
  import opened BitReader

  const MAX_ALPHA_SIZE: nat := 258
  const MAX_CODE_LEN: nat := 23
  const LONGEST: nat := 20

  // ---------------------------------------------------------------------
  // The canonical code
  // ---------------------------------------------------------------------
  ghost predicate Lengths(lens: seq<byte>)
  {
    0 < |lens| <= MAX_ALPHA_SIZE && forall i :: 0 <= i < |lens| ==> 1 <= lens[i] <= LONGEST
  }

  // The first code of length n when only the first i symbols are counted.
  function FirstIn(lens: seq<byte>, n: nat, i: nat): nat
    requires i <= |lens|
  {
    if n == 0 then 0 else 2 * (FirstIn(lens, n - 1, i) + Occ(lens, n - 1, i))
  }

  function First(lens: seq<byte>, n: nat): nat
  {
    FirstIn(lens, n, |lens|)
  }

  // How many codes have length n.
  function Total(lens: seq<byte>, n: nat): nat
  {
    Occ(lens, n, |lens|)
  }

  function Code(lens: seq<byte>, i: nat): nat
    requires i < |lens|
  {
    First(lens, lens[i]) + Occ(lens, lens[i], i)
  }

  // The bits start with the code word of symbol i.
  predicate Matches(lens: seq<byte>, bits: seq<bit>, i: nat)
    requires i < |lens|
  {
    lens[i] <= |bits| && Value(bits[..lens[i]]) == Code(lens, i)
  }

  function CodeWord(lens: seq<byte>, i: nat): seq<bit>
    requires i < |lens|
  {
    Word(Code(lens, i), lens[i])
  }

  lemma FirstStep(lens: seq<byte>, n: nat)
    ensures First(lens, n + 1) == 2 * (First(lens, n) + Total(lens, n))
  {
  }

  lemma {:induction false} FirstZero(lens: seq<byte>, n: nat)
    requires Less(lens, n, |lens|) == 0
    ensures First(lens, n) == 0
  {
    if n > 0 { FirstZero(lens, n - 1); }
  }

  lemma {:induction false} PastTheLast(lens: seq<byte>, n: nat)
    requires Less(lens, n, |lens|) == |lens| > 0
    ensures First(lens, n) >= 2
  {
    if Total(lens, n - 1) == 0 { PastTheLast(lens, n - 1); }
  }

  lemma CodeInRange(lens: seq<byte>, i: nat)
    requires i < |lens|
    ensures First(lens, lens[i]) <= Code(lens, i) < First(lens, lens[i]) + Total(lens, lens[i])
    ensures Less(lens, lens[i], |lens|) < |lens|
  {
    OccMono(lens, lens[i], i + 1, |lens|);
    RankInBucket(lens, i);
  }

  // Every value in a length's range is the code of exactly the symbol that perm holds for it.
  lemma SymbolAt(lens: seq<byte>, n: nat, v: nat) returns (i: nat)
    requires n < 256 && First(lens, n) <= v < First(lens, n) + Total(lens, n)
    ensures i < |lens| && lens[i] == n && Code(lens, i) == v
    ensures Rank(lens, i) == v - First(lens, n) + Less(lens, n, |lens|) < |lens|
  {
    var p := v - First(lens, n) + Less(lens, n, |lens|);
    LessMono(lens, n + 1, 256, |lens|);
    LessAll(lens, |lens|);
    RanksArePermutation(lens);
    PermutationHits(Ranks(lens), p);
    i :| 0 <= i < |lens| && Ranks(lens)[i] == p;
    RankInBucket(lens, i);
    if lens[i] < n { LessMono(lens, lens[i] as int + 1, n, |lens|); }
    if lens[i] > n { LessMono(lens, n + 1, lens[i], |lens|); }
  }

  // ---------------------------------------------------------------------
  // Prefixes: what reading one more bit does
  // ---------------------------------------------------------------------
  lemma PrefixStep(bits: seq<bit>, n: nat)
    requires n < |bits|
    ensures Value(bits[..n + 1]) == 2 * Value(bits[..n]) + bits[n]
  {
    assert bits[..n + 1][..n] == bits[..n];
  }

  // A prefix below the end of its length's range can only be followed by prefixes below every later range.
  lemma {:induction false} StaysBelow(lens: seq<byte>, bits: seq<bit>, m: nat, n: nat)
    requires m < n <= |bits| && Value(bits[..m]) < First(lens, m) + Total(lens, m)
    ensures Value(bits[..n]) < First(lens, n)
  {
    PrefixStep(bits, n - 1);
    if m < n - 1 { StaysBelow(lens, bits, m, n - 1); }
    FirstStep(lens, n - 1);
  }

  // The code is prefix-free whatever the lengths are.
  lemma UniqueMatch(lens: seq<byte>, bits: seq<bit>, i: nat, j: nat)
    requires i < |lens| && j < |lens| && Matches(lens, bits, i) && Matches(lens, bits, j)
    ensures i == j
  {
    CodeInRange(lens, i);
    CodeInRange(lens, j);
    if lens[i] < lens[j] {
      StaysBelow(lens, bits, lens[i], lens[j]);
    } else if lens[j] < lens[i] {
      StaysBelow(lens, bits, lens[j], lens[i]);
    } else if i < j {
      RankOrder(lens, i, j);
    } else if j < i {
      RankOrder(lens, j, i);
    }
  }

  // Nothing shorter than n matches, and the prefix of length n is not below its range.
  ghost predicate Reached(lens: seq<byte>, bits: seq<bit>, n: nat)
    requires n <= |bits|
  {
    && (forall i :: 0 <= i < |lens| && lens[i] < n ==> !Matches(lens, bits, i))
    && First(lens, n) <= Value(bits[..n])
  }

  lemma ReachedStart(lens: seq<byte>, bits: seq<bit>, n: nat)
    requires n <= |bits| && forall i :: 0 <= i < |lens| ==> n <= lens[i]
    ensures Less(lens, n, |lens|) == 0
    ensures Reached(lens, bits, n)
  {
    NothingLess(lens, n, |lens|);
    FirstZero(lens, n);
  }

  lemma {:induction false} NothingLess(lens: seq<byte>, n: nat, i: nat)
    requires i <= |lens| && forall k :: 0 <= k < i ==> n <= lens[k]
    ensures Less(lens, n, i) == 0
  {
    if i == 0 {
      LessNone(lens, n);
    } else {
      NothingLess(lens, n, i - 1);
      LessStep(lens, n, i - 1);
    }
  }

  lemma ReachedStep(lens: seq<byte>, bits: seq<bit>, n: nat)
    requires n < |bits| && Reached(lens, bits, n) && First(lens, n) + Total(lens, n) <= Value(bits[..n])
    ensures Reached(lens, bits, n + 1)
  {
    NoMatchHere(lens, bits, n);
    PrefixStep(bits, n);
    FirstStep(lens, n);
  }

  lemma NoMatchHere(lens: seq<byte>, bits: seq<bit>, n: nat)
    requires n <= |bits| && First(lens, n) + Total(lens, n) <= Value(bits[..n])
    ensures forall i :: 0 <= i < |lens| && lens[i] == n ==> !Matches(lens, bits, i)
  {
    forall i | 0 <= i < |lens| && lens[i] == n ensures !Matches(lens, bits, i) { CodeInRange(lens, i); }
  }

  // ---------------------------------------------------------------------
  // Which lengths give a usable code
  // ---------------------------------------------------------------------

  // 2^20 times the sum of 2^-len over the first i symbols.
  function KraftSum(lens: seq<byte>, i: nat): nat
    requires i <= |lens| && forall k :: 0 <= k < i ==> lens[k] <= LONGEST
  {
    if i == 0 then 0 else KraftSum(lens, i - 1) + Pow2(LONGEST - lens[i - 1])
  }

  ghost predicate Kraft(lens: seq<byte>)
    requires Lengths(lens)
  {
    KraftSum(lens, |lens|) <= Pow2(LONGEST)
  }

  // Every code is as short as its length says.
  ghost predicate AllFit(lens: seq<byte>)
  {
    forall i :: 0 <= i < |lens| ==> Code(lens, i) < Pow2(lens[i])
  }

  lemma {:induction false} FirstOfOneMore(lens: seq<byte>, n: nat, i: nat)
    requires i < |lens|
    ensures FirstIn(lens, n, i + 1) == FirstIn(lens, n, i) + (if lens[i] < n then Pow2(n - lens[i]) else 0)
  {
    if n > 0 {
      FirstOfOneMore(lens, n - 1, i);
      OccStep(lens, n - 1, i);
    }
  }

  // Kraft's sum is the first code that would come after the longest length.
  lemma {:induction false} FirstIsKraft(lens: seq<byte>, i: nat)
    requires i <= |lens| && forall k :: 0 <= k < i ==> lens[k] <= LONGEST
    ensures FirstIn(lens, LONGEST + 1, i) == 2 * KraftSum(lens, i)
  {
    if i == 0 {
      FirstOfNone(lens, LONGEST + 1);
    } else {
      FirstIsKraft(lens, i - 1);
      FirstOfOneMore(lens, LONGEST + 1, i - 1);
    }
  }

  lemma {:induction false} FirstOfNone(lens: seq<byte>, n: nat)
    ensures FirstIn(lens, n, 0) == 0
  {
    if n > 0 { FirstOfNone(lens, n - 1); }
  }

  lemma {:induction false} FirstGrows(lens: seq<byte>, m: nat, n: nat)
    requires m < n
    ensures First(lens, n) >= Pow2(n - m) * (First(lens, m) + Total(lens, m))
    ensures Less(lens, m + 1, |lens|) == Less(lens, n, |lens|)
      ==> First(lens, n) == Pow2(n - m) * (First(lens, m) + Total(lens, m))
  {
    hide Less, Occ, FirstIn;
    FirstStep(lens, n - 1);
    assert Pow2(1) == 2;
    if m < n - 1 {
      FirstGrows(lens, m, n - 1);
      LessNext(lens, n - 1);
      LessMono(lens, m + 1, n - 1, |lens|);
      var x := First(lens, m) + Total(lens, m);
      MulAssoc(2, Pow2(n - 1 - m), x);
    }
  }

  // The code words fit their lengths exactly when the lengths satisfy Kraft's inequality.
  lemma FitsExactlyKraft(lens: seq<byte>)
    requires Lengths(lens)
    ensures AllFit(lens) <==> Kraft(lens)
  {
    hide Less, Occ, FirstIn, KraftSum, Pow2;
    FirstIsKraft(lens, |lens|);
    if Kraft(lens) {
      forall i | 0 <= i < |lens| ensures Code(lens, i) < Pow2(lens[i]) {
        CodeInRange(lens, i);
        FirstGrows(lens, lens[i], LONGEST + 1);
        Pow2Step(LONGEST + 1);
        Pow2Add(LONGEST + 1 - lens[i], lens[i]);
        CancelLeft(Pow2(LONGEST + 1 - lens[i]), First(lens, lens[i]) + Total(lens, lens[i]), Pow2(lens[i]));
      }
    } else {
      var m := Longest(lens);
      var x := First(lens, m) + Total(lens, m);
      AllLess(lens, m + 1, |lens|);
      AllLess(lens, LONGEST + 1, |lens|);
      FirstGrows(lens, m, LONGEST + 1);
      Pow2Step(LONGEST + 1);
      Pow2Add(LONGEST + 1 - m, m);
      if x <= Pow2(m) { MulMono(Pow2(LONGEST + 1 - m), x, Pow2(m)); }
      SomeOfLength(lens, m);
      var i := SymbolAt(lens, m, x - 1);
    }
  }

  lemma CancelLeft(p: int, x: int, y: int)
    requires p > 0 && p * x <= p * y
    ensures x <= y
  {
    if y < x { MulStep(p, y, x); }
  }

  lemma Longest(lens: seq<byte>) returns (m: byte)
    requires Lengths(lens)
    ensures 1 <= m <= LONGEST && m in lens && forall i :: 0 <= i < |lens| ==> lens[i] <= m
  {
    m := lens[0];
    for i := 1 to |lens|
      invariant m in lens && forall k :: 0 <= k < i ==> lens[k] <= m
    {
      if lens[i] > m { m := lens[i]; }
    }
  }

  lemma SomeOfLength(lens: seq<byte>, m: byte)
    requires m in lens
    ensures Total(lens, m) > 0
  {
    var i :| 0 <= i < |lens| && lens[i] == m;
    CodeInRange(lens, i);
  }

  // Writing a code word and decoding it: the symbol comes back.
  lemma WrittenMatches(lens: seq<byte>, i: nat, rest: seq<bit>)
    requires Lengths(lens) && Kraft(lens) && i < |lens|
    ensures Matches(lens, CodeWord(lens, i) + rest, i)
    ensures (CodeWord(lens, i) + rest)[lens[i]..] == rest
  {
    hide Word, Value, Pow2, FirstIn, Occ, KraftSum;
    FitsExactlyKraft(lens);
    ValueOfWord(Code(lens, i), lens[i]);
    WordLength(Code(lens, i), lens[i]);
    SmallMod(Code(lens, i), Pow2(lens[i]));
    assert (CodeWord(lens, i) + rest)[..lens[i]] == CodeWord(lens, i);
  }

  // No table entry and no partial code outgrows 32 bits, whatever the lengths are.
  lemma {:induction false} FirstBound(lens: seq<byte>, n: nat)
    ensures First(lens, n) <= Pow2(n) * Less(lens, n, |lens|)
  {
    if n > 0 {
      hide Occ, Less, FirstIn, First, Pow2;
      FirstBound(lens, n - 1);
      FirstStep(lens, n - 1);
      LessNext(lens, n - 1);
      Pow2Step(n);
      Doubled(Pow2(n - 1), Less(lens, n - 1, |lens|), Total(lens, n - 1), First(lens, n - 1));
    }
  }

  lemma Doubled(p: nat, a: nat, b: nat, x: nat)
    requires x <= p * a && p > 0
    ensures 2 * (x + b) <= 2 * p * (a + b)
  {
    MulDist(a, b, p);
    MulMono(b, 1, p);
  }

  lemma EntriesFit32(lens: seq<byte>, n: nat)
    requires Lengths(lens) && n <= LONGEST + 1
    ensures First(lens, n) < 0x8000_0000
  {
    FirstBound(lens, n);
    AtMostAll(lens, n);
    Pow2Mono(n, LONGEST + 1);
    Pow2Values();
    Pow2Add(16, 5);
    assert Pow2(5) == 32;
    MulMono(Pow2(n), Less(lens, n, |lens|), 258);
  }

  // ---------------------------------------------------------------------
  // The tables
  // ---------------------------------------------------------------------
  datatype Table = Table(limit: seq<int>, base: seq<int>, perm: seq<int>, minLen: nat)

  // t is the decoding table of the code with these lengths.
  ghost predicate Decodes(t: Table, lens: seq<byte>)
  {
    && Lengths(lens) && |t.limit| == |t.base| == |t.perm| == MAX_ALPHA_SIZE
    && 1 <= t.minLen <= LONGEST && (forall i :: 0 <= i < |lens| ==> t.minLen <= lens[i])
    && (forall n :: t.minLen <= n < MAX_CODE_LEN ==> t.limit[n] == Limit(lens, n))
    && (forall n :: t.minLen <= n < MAX_CODE_LEN && Less(lens, n, |lens|) < |lens| ==> t.base[n] == Base(lens, n))
    && (forall i :: 0 <= i < |lens| ==> Rank(lens, i) < |lens| && t.perm[Rank(lens, i)] == i)
  }

  // The last code of length n, or 0 beyond the longest.
  function Limit(lens: seq<byte>, n: nat): int
  {
    if Less(lens, n, |lens|) < |lens| then First(lens, n) + Total(lens, n) - 1 else 0
  }

  // What to subtract from a code of length n to index perm.
  function Base(lens: seq<byte>, n: nat): int
  {
    First(lens, n) - Less(lens, n, |lens|)
  }

  method AssignCodes(code: array<int>, length: array<byte>, minLen: nat, maxLen: nat, alphaSize: nat)
    requires alphaSize <= length.Length && alphaSize <= code.Length
    requires forall i :: 0 <= i < alphaSize ==> minLen <= length[i] <= maxLen
    modifies code
    ensures forall i :: 0 <= i < alphaSize ==> code[i] == Code(length[..alphaSize], i)
  {
    ghost var lens := length[..alphaSize];
    var vec := 0;
    var n := minLen;
    NothingLess(lens, minLen, |lens|);
    FirstZero(lens, minLen);
    while n <= maxLen
      invariant minLen <= n && vec == First(lens, n)
      invariant forall k :: 0 <= k < alphaSize && lens[k] < n ==> code[k] == Code(lens, k)
    {
      var i := 0;
      while i < alphaSize
        invariant 0 <= i <= alphaSize && vec == First(lens, n) + Occ(lens, n, i)
        invariant forall k :: 0 <= k < alphaSize && (lens[k] < n || (lens[k] == n && k < i))
                    ==> code[k] == Code(lens, k)
      {
        if length[i] == n {
          code[i] := vec;
          vec := vec + 1;
        }
        i := i + 1;
      }
      vec := vec * 2;
      n := n + 1;
    }
  }

  method CreateDecodeTables(limit: array<int>, base: array<int>, perm: array<int>, length: array<byte>,
                            minLen: nat, maxLen: nat, alphaSize: nat)
    requires limit.Length == base.Length == perm.Length == MAX_ALPHA_SIZE && alphaSize <= length.Length
    requires limit != base && limit != perm && base != perm
    requires Lengths(length[..alphaSize]) && 1 <= minLen <= maxLen <= LONGEST
    requires forall i :: 0 <= i < alphaSize ==> minLen <= length[i] <= maxLen
    requires exists i :: 0 <= i < alphaSize && length[i] == maxLen
    modifies limit, base, perm
    ensures Decodes(Table(limit[..], base[..], perm[..], minLen), length[..alphaSize])
  {
    hide Less, Occ, FirstIn;
    ghost var lens := length[..alphaSize];
    FillPerm(perm, length, minLen, maxLen, alphaSize);
    CountBelow(base, length, alphaSize);
    FillLimit(limit, base, minLen, maxLen, lens);
    FillBase(limit, base, minLen, maxLen, lens);
    forall n | minLen <= n < MAX_CODE_LEN
      ensures limit[n] == Limit(lens, n)
      ensures Less(lens, n, |lens|) < |lens| ==> n <= maxLen
    {
      CodesRemain(lens, maxLen, n);
    }
    forall i | 0 <= i < |lens| ensures Rank(lens, i) < |lens| { RankInBucket(lens, i); }
  }

  // Some code has length n or more, exactly up to the longest length.
  lemma CodesRemain(lens: seq<byte>, maxLen: nat, n: nat)
    requires forall i :: 0 <= i < |lens| ==> lens[i] <= maxLen
    requires exists i :: 0 <= i < |lens| && lens[i] == maxLen
    ensures Less(lens, n, |lens|) < |lens| <==> n <= maxLen
  {
    var i :| 0 <= i < |lens| && lens[i] == maxLen;
    if n <= maxLen {
      RankInBucket(lens, i);
      LessMono(lens, n, maxLen, |lens|);
    } else {
      AllLess(lens, n, |lens|);
    }
  }

  lemma {:induction false} AllLess(lens: seq<byte>, n: nat, i: nat)
    requires i <= |lens| && forall k :: 0 <= k < i ==> lens[k] < n
    ensures Less(lens, n, i) == i
  {
    if i == 0 {
      LessNone(lens, n);
    } else {
      AllLess(lens, n, i - 1);
      LessStep(lens, n, i - 1);
    }
  }

  method FillPerm(perm: array<int>, length: array<byte>, minLen: nat, maxLen: nat, alphaSize: nat)
    requires alphaSize <= length.Length && alphaSize <= perm.Length
    requires forall i :: 0 <= i < alphaSize ==> minLen <= length[i] <= maxLen
    modifies perm
    ensures forall i :: 0 <= i < alphaSize
              ==> Rank(length[..alphaSize], i) < alphaSize && perm[Rank(length[..alphaSize], i)] == i
  {
    hide Less, Occ;
    ghost var lens := length[..alphaSize];
    forall k | 0 <= k < alphaSize ensures Rank(lens, k) < alphaSize { RankInBucket(lens, k); }
    var pp := 0;
    var i := minLen;
    NothingLess(lens, minLen, |lens|);
    while i <= maxLen
      invariant minLen <= i && pp == Less(lens, i, |lens|)
      invariant forall k :: 0 <= k < alphaSize && lens[k] < i ==> perm[Rank(lens, k)] == k
    {
      var j := 0;
      assert Occ(lens, i, 0) == 0 by { OccNone(lens, i); }
      while j < alphaSize
        invariant 0 <= j <= alphaSize && pp == Less(lens, i, |lens|) + Occ(lens, i, j)
        invariant forall k :: 0 <= k < alphaSize && (lens[k] < i || (lens[k] == i && k < j))
                    ==> perm[Rank(lens, k)] == k
      {
        OccStep(lens, i, j);
        if length[j] == i {
          assert pp == Rank(lens, j);
          forall k | 0 <= k < alphaSize && (lens[k] < i || (lens[k] == i && k < j)) ensures Rank(lens, k) != pp {
            RankOrder(lens, k, j);
          }
          perm[pp] := j;
          pp := pp + 1;
        }
        j := j + 1;
      }
      LessNext(lens, i);
      i := i + 1;
    }
  }

  lemma OccNone(lens: seq<byte>, c: nat)
    ensures Occ(lens, c, 0) == 0
  {
  }

  lemma LessNext(lens: seq<byte>, n: nat)
    ensures Less(lens, n + 1, |lens|) == Less(lens, n, |lens|) + Occ(lens, n, |lens|)
    ensures Less(lens, 0, |lens|) == 0
  {
  }

  // base[n] becomes the number of codes shorter than n.
  method CountBelow(base: array<int>, length: array<byte>, alphaSize: nat)
    requires base.Length == MAX_ALPHA_SIZE && alphaSize <= length.Length && Lengths(length[..alphaSize])
    modifies base
    ensures forall n :: 0 <= n < MAX_CODE_LEN ==> base[n] == Less(length[..alphaSize], n, alphaSize)
  {
    hide Less, Occ;
    ghost var lens := length[..alphaSize];
    var i := 0;
    while i < MAX_CODE_LEN
      invariant 0 <= i <= MAX_CODE_LEN && forall n :: 0 <= n < i ==> base[n] == 0
    {
      base[i] := 0;
      i := i + 1;
    }
    i := 0;
    forall m: nat | m < MAX_CODE_LEN ensures Occ(lens, m, 0) == 0 { OccNone(lens, m); }
    while i < alphaSize
      invariant 0 <= i <= alphaSize && base[0] == 0
      invariant forall n :: 0 < n < MAX_CODE_LEN ==> base[n] == Occ(lens, n - 1, i)
    {
      assert 1 <= lens[i] <= LONGEST;
      forall m: nat | m < MAX_CODE_LEN ensures Occ(lens, m, i + 1) == Occ(lens, m,
        i) + (if lens[i] == m then 1 else 0) {
        OccStep(lens, m, i);
      }
      base[length[i] as int + 1] := base[length[i] as int + 1] + 1;
      i := i + 1;
    }
    i := 1;
    LessNext(lens, 0);
    while i < MAX_CODE_LEN
      invariant 1 <= i <= MAX_CODE_LEN
      invariant forall n :: 0 <= n < i ==> base[n] == Less(lens, n, alphaSize)
      invariant forall n :: i <= n < MAX_CODE_LEN ==> base[n] == Occ(lens, n - 1, alphaSize)
    {
      LessNext(lens, i - 1);
      base[i] := base[i] + base[i - 1];
      i := i + 1;
    }
  }

  method FillLimit(limit: array<int>, base: array<int>, minLen: nat, maxLen: nat, ghost lens: seq<byte>)
    requires limit.Length == base.Length == MAX_ALPHA_SIZE && limit != base && minLen <= maxLen <= LONGEST
    requires forall n :: 0 <= n < MAX_CODE_LEN ==> base[n] == Less(lens, n, |lens|)
    requires forall i :: 0 <= i < |lens| ==> minLen <= lens[i]
    modifies limit
    ensures forall n :: minLen <= n <= maxLen ==> limit[n] == First(lens, n) + Total(lens, n) - 1
    ensures forall n :: maxLen < n < MAX_CODE_LEN ==> limit[n] == 0
  {
    hide Less, Occ, FirstIn;
    var i := 0;
    while i < MAX_CODE_LEN
      invariant 0 <= i <= MAX_CODE_LEN && forall n :: 0 <= n < i ==> limit[n] == 0
    {
      limit[i] := 0;
      i := i + 1;
    }
    var vec := 0;
    i := minLen;
    NothingLess(lens, minLen, |lens|);
    FirstZero(lens, minLen);
    while i <= maxLen
      invariant minLen <= i <= maxLen + 1 && vec == First(lens, i)
      invariant forall n :: minLen <= n < i ==> limit[n] == First(lens, n) + Total(lens, n) - 1
      invariant forall n :: maxLen < n < MAX_CODE_LEN ==> limit[n] == 0
    {
      LessNext(lens, i);
      vec := vec + (base[i + 1] - base[i]);
      limit[i] := vec - 1;
      FirstStep(lens, i);
      vec := vec * 2;
      i := i + 1;
    }
  }

  method FillBase(limit: array<int>, base: array<int>, minLen: nat, maxLen: nat, ghost lens: seq<byte>)
    requires limit.Length == base.Length == MAX_ALPHA_SIZE && limit != base && minLen <= maxLen <= LONGEST
    requires forall n :: 0 <= n < MAX_CODE_LEN ==> base[n] == Less(lens, n, |lens|)
    requires forall n :: minLen <= n <= maxLen ==> limit[n] == First(lens, n) + Total(lens, n) - 1
    requires forall i :: 0 <= i < |lens| ==> minLen <= lens[i]
    modifies base
    ensures forall n :: minLen <= n <= maxLen ==> base[n] == Base(lens, n)
  {
    hide Less, Occ, FirstIn, First, Total;
    NothingLess(lens, minLen, |lens|);
    FirstZero(lens, minLen);
    var i := minLen + 1;
    while i <= maxLen
      invariant minLen < i <= maxLen + 1
      invariant forall n :: minLen <= n < i ==> base[n] == Base(lens, n)
      invariant forall n :: i <= n < MAX_CODE_LEN ==> base[n] == Less(lens, n, |lens|)
    {
      FirstStep(lens, i - 1);
      base[i] := 2 * (limit[i - 1] + 1) - base[i];
      i := i + 1;
    }
  }

  // ---------------------------------------------------------------------
  // Reading one symbol
  // ---------------------------------------------------------------------
  datatype Fetch = Symbol(value: nat) | NeedInput | DataError

  // What the next symbol of a bit stream is.
  ghost predicate Fetched(lens: seq<byte>, bits: seq<bit>, rest: seq<bit>, f: Fetch)
  {
    match f
    case Symbol(v) => v < |lens| && Matches(lens, bits, v) && rest == bits[lens[v]..]
    case NeedInput => |bits| <= LONGEST && forall i :: 0 <= i < |lens| ==> !Matches(lens, bits, i)
    case DataError => |bits| > LONGEST && forall i :: 0 <= i < |lens| ==> !Matches(lens, bits, i)
  }

  lemma TooShort(lens: seq<byte>, bits: seq<bit>, n: nat)
    requires forall i :: 0 <= i < |lens| && lens[i] < n ==> !Matches(lens, bits, i)
    requires |bits| < n
    ensures forall i :: 0 <= i < |lens| ==> !Matches(lens, bits, i)
  {
  }

  lemma OneBit(b: bit)
    ensures Value([b]) == b
  {
    assert [b][..0] == [];
  }

  // The limit test at length n separates the codes of that length from what lies beyond.
  lemma LimitTest(t: Table, lens: seq<byte>, bits: seq<bit>, n: nat)
    requires Decodes(t, lens) && t.minLen <= n < MAX_CODE_LEN && n <= |bits| && Reached(lens, bits, n)
    ensures Value(bits[..n]) <= t.limit[n] <==> Value(bits[..n]) < First(lens, n) + Total(lens, n)
    ensures Value(bits[..n]) <= t.limit[n] ==> Less(lens, n, |lens|) < |lens|
  {
    RankInBucket(lens, 0);
    LessMono(lens, n, n + 1, |lens|);
    LessNext(lens, n);
    AtMostAll(lens, n);
    if Less(lens, n, |lens|) == |lens| {
      PastTheLast(lens, n);
      AtMostAll(lens, n + 1);
    }
  }

  lemma AtMostAll(lens: seq<byte>, n: nat)
    requires n <= 256
    ensures Less(lens, n, |lens|) <= |lens|
  {
    LessMono(lens, n, 256, |lens|);
    LessAll(lens, |lens|);
  }

  // GET_MTF_VAL after the choice of table.
  method FetchSymbol(r: Reader, t: Table, ghost lens: seq<byte>) returns (f: Fetch)
    requires r.Valid() && Decodes(t, lens)
    modifies r
    ensures r.Valid() && Fetched(lens, old(r.Unread()), r.Unread(), f)
  {
    hide Less, FirstIn, Occ, Word, Stream, Value, Pow2, Reached, Limit;
    ghost var bits := r.Unread();
    var zn := t.minLen;
    var ok, zvec := r.GetBits(zn);
    if !ok {
      TooShort(lens, bits, zn);
      return NeedInput;
    }
    ReachedStart(lens, bits, zn);
    while true
      invariant r.Valid() && t.minLen <= zn <= LONGEST + 1 && zn <= |bits| && r.Unread() == bits[zn..]
        && zvec == Value(bits[..zn])
      invariant Reached(lens, bits, zn)
      decreases LONGEST + 1 - zn
    {
      if zn > LONGEST {
        ReachedMeans(lens, bits, zn);
        return DataError;
      }
      LimitTest(t, lens, bits, zn);
      if zvec <= t.limit[zn] { break; }
      ghost var n := zn;
      zn := zn + 1;
      var zj;
      ok, zj := r.GetBits(1);
      if !ok {
        ReachedMeans(lens, bits, n);
        NoMatchHere(lens, bits, n);
        TooShort(lens, bits, n + 1);
        return NeedInput;
      }
      ReachedStep(lens, bits, n);
      PrefixStep(bits, n);
      assert bits[n..][..1] == [bits[n]];
      OneBit(bits[n]);
      zvec := 2 * zvec + zj;
    }
    ReachedMeans(lens, bits, zn);
    ghost var i := SymbolAt(lens, zn, zvec);
    // The range check on the index never fires.
    if zvec - t.base[zn] < 0 || zvec - t.base[zn] >= MAX_ALPHA_SIZE { assert false; }
    f := Symbol(t.perm[zvec - t.base[zn]]);
  }

  lemma ReachedMeans(lens: seq<byte>, bits: seq<bit>, n: nat)
    requires n <= |bits| && Reached(lens, bits, n)
    ensures forall i :: 0 <= i < |lens| && lens[i] < n ==> !Matches(lens, bits, i)
    ensures First(lens, n) <= Value(bits[..n])
  {
  }
}
