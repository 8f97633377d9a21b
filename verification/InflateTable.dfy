// inflate_table of zlib's inftrees.c: a root table indexed by the next bits of
// the stream, with sub-tables for the codes longer than the root index. Every
// lookup ends at the symbol whose code the bits begin with.
module InflateTable {
  import opened Bits
  import opened CountingRank
  import opened CodeSpace
  import opened SortedCodes

  const ENOUGH_LENS: nat := 852
  const ENOUGH_DISTS: nat := 592

  datatype CodeType = CODES | LENS | DISTS

  // A table entry: operation, bits in this part of the code, value or offset.
  datatype Code = Code(op: nat, bits: nat, val: nat)

  // ---------------------------------------------------------------------
  // What an entry says about its symbol
  // ---------------------------------------------------------------------
  const LENGTH_BASE: seq<nat> := [
    3, 4, 5, 6, 7, 8, 9, 10, 11, 13, 15, 17, 19, 23, 27, 31,
    35, 43, 51, 59, 67, 83, 99, 115, 131, 163, 195, 227, 258, 0, 0]
  const LENGTH_EXTRA: seq<nat> := [
    16, 16, 16, 16, 16, 16, 16, 16, 17, 17, 17, 17, 18, 18, 18, 18,
    19, 19, 19, 19, 20, 20, 20, 20, 21, 21, 21, 21, 16, 72, 78]
  const DIST_BASE: seq<nat> := [
    1, 2, 3, 4, 5, 7, 9, 13, 17, 25, 33, 49, 65, 97, 129, 193,
    257, 385, 513, 769, 1025, 1537, 2049, 3073, 4097, 6145,
    8193, 12289, 16385, 24577, 0, 0]
  const DIST_EXTRA: seq<nat> := [
    16, 16, 16, 16, 17, 17, 18, 18, 19, 19, 20, 20, 21, 21, 22, 22,
    23, 23, 24, 24, 25, 25, 26, 26, 27, 27,
    28, 28, 29, 29, 64, 64]

  // How many symbols each alphabet has.
  function Alphabet(kind: CodeType): nat
  {
    match kind case CODES => 19 case LENS => 288 case DISTS => 32
  }

  function Entry(kind: CodeType, sym: nat, bits: nat): Code
    requires sym < Alphabet(kind)
  {
    match kind
    case CODES => Code(0, bits, sym)
    case LENS =>
      if sym < 256 then Code(0, bits, sym)
      else if sym > 256 then Code(LENGTH_EXTRA[sym - 257], bits, LENGTH_BASE[sym - 257])
      else Code(32 + 64, bits, 0)
    case DISTS => Code(DIST_EXTRA[sym], bits, DIST_BASE[sym])
  }

  const INVALID: nat := 64

  function IsLink(h: Code): bool
  {
    0 < h.op < 16
  }

  // Entries made from symbols are never taken for links to sub-tables.
  lemma EntryIsNotLink(kind: CodeType, sym: nat, bits: nat)
    requires sym < Alphabet(kind)
    ensures !IsLink(Entry(kind, sym, bits)) && Entry(kind, sym, bits).bits == bits
  {
  }

  // Looking up the bits x, first bit lowest, ends at entry e with n bits dropped.
  ghost predicate Resolves(t: seq<Code>, root: nat, x: nat, e: Code, n: nat)
  {
    var i := x % Pow2(root);
    && i < |t|
    && if IsLink(t[i]) then
         var j := t[i].val + Quotient(x % Pow2(t[i].bits + t[i].op), Pow2(t[i].bits));
         j < |t| && e == t[j] && n == t[i].bits + e.bits
       else
         e == t[i] && n == e.bits
  }

  // ---------------------------------------------------------------------
  // What the table holds while it is filled
  // ---------------------------------------------------------------------

  // The codes in canonical order and the size of the root table.
  datatype Spec = Spec(ls: seq<nat>, order: seq<nat>, kind: CodeType, root: nat)

  ghost predicate Good(c: Spec)
  {
    && Fits(c.ls) && |c.order| == |c.ls| && 1 <= c.root <= MAXBITS
    && forall s :: 0 <= s < |c.order| ==> c.order[s] < Alphabet(c.kind)
  }

  ghost function Made(c: Spec, s: nat, bits: nat): Code
    requires Good(c) && s < |c.ls|
  {
    Entry(c.kind, c.order[s], bits)
  }

  ghost predicate Rooted(t: seq<Code>, c: Spec, u: nat)
    requires Good(c) && u < |c.ls|
  {
    && Pow2(c.root) <= |t|
    && forall i: nat {:trigger t[i]} :: i < Pow2(c.root) && i % Pow2(c.ls[u]) == Huff(c.ls, u)
         ==> t[i] == Made(c, u, c.ls[u])
  }

  // Which root entry leads to symbol u.
  ghost function Low(c: Spec, u: nat): (low: nat)
    requires Good(c) && u < |c.ls|
    ensures low < Pow2(c.root)
  {
    Huff(c.ls, u) % Pow2(c.root)
  }

  // A sub-table at v of 2^k entries holds symbol u.
  ghost predicate Held(t: seq<Code>, c: Spec, u: nat, v: nat, k: nat)
    requires Good(c) && u < |c.ls| && c.ls[u] > c.root
  {
    && v + Pow2(k) <= |t|
    && forall j: nat :: j < Pow2(k) ==> HeldAt(t, c, u, v, j)
  }

  ghost predicate HeldAt(t: seq<Code>, c: Spec, u: nat, v: nat, j: nat)
    requires Good(c) && u < |c.ls| && c.ls[u] > c.root && v + j < |t|
  {
    j % Pow2(c.ls[u] - c.root) == Quotient(Huff(c.ls, u), Pow2(c.root)) ==> t[v + j] == Made(c, u, c.ls[u] - c.root)
  }

  ghost predicate Linked(t: seq<Code>, c: Spec, used: nat, u: nat)
    requires Good(c) && u < |c.ls| && c.ls[u] > c.root
  {
    && Pow2(c.root) <= used <= |t|
    && var h := t[Low(c, u)];
    && h.bits == c.root && IsLink(h) && c.ls[u] <= c.root + h.op
    && Pow2(c.root) <= h.val && h.val + Pow2(h.op) <= used && Held(t, c, u, h.val, h.op)
  }

  ghost predicate Entered(t: seq<Code>, c: Spec, used: nat, u: nat)
    requires Good(c) && u < |c.ls|
  {
    if c.ls[u] <= c.root then Rooted(t, c, u) else Linked(t, c, used, u)
  }

  ghost predicate Done(t: seq<Code>, c: Spec, used: nat, s: nat)
    requires Good(c) && s <= |c.ls|
  {
    forall u :: 0 <= u < s ==> Entered(t, c, used, u)
  }

  // The table being filled: its place and size, the bits dropped, the root
  // entry it hangs from (-1 for the root table itself), and all space used.
  datatype Cursor = Cursor(next: nat, curr: nat, drop: nat, low: int, used: nat)

  // Symbol s can be entered at the cursor.
  ghost predicate Ready(t: seq<Code>, c: Spec, k: Cursor, s: nat)
    requires Good(c) && s < |c.ls|
  {
    && k.next + Pow2(k.curr) == k.used && Pow2(c.root) <= k.used <= |t|
    && if c.ls[s] <= c.root then
         k.drop == 0 && k.low == -1 && k.next == 0 && k.curr == c.root
       else
         && k.drop == c.root && k.low == Low(c, s) && Pow2(c.root) <= k.next && 1 <= k.curr <= MAXBITS
         && t[k.low] == Code(k.curr, c.root, k.next) && Spacious(c, s, k.curr) && Behind(t, c, k, s)
  }

  // No later symbol of s's block is too long for a sub-table of 2^curr entries.
  ghost predicate Spacious(c: Spec, s: nat, curr: nat)
    requires Good(c) && s < |c.ls|
  {
    forall v {:trigger Low(c, v)} :: s <= v < |c.ls| && Low(c, v) == Low(c, s) ==> c.ls[v] <= c.root + curr
  }

  // The sub-tables of other blocks end before this one begins.
  ghost predicate Behind(t: seq<Code>, c: Spec, k: Cursor, s: nat)
    requires Good(c) && s < |c.ls| && Pow2(c.root) <= |t|
  {
    forall u {:trigger Low(c, u)} ::
      0 <= u < s && c.ls[u] > c.root && Low(c, u) != Low(c, s) ==> t[Low(c, u)].val + Pow2(t[Low(c, u)].op) <= k.next
  }

  ghost predicate FilledAt(t: seq<Code>, t': seq<Code>, p: nat, step: nat, r: nat, h: Code, j: nat)
    requires step > 0 && |t'| == |t| && p + j < |t|
  {
    t'[p + j] == if j % step == r then h else t[p + j]
  }

  // Entries p + j, j = r modulo step, have been set to h.
  ghost predicate Filled(t: seq<Code>, t': seq<Code>, p: nat, size: nat, step: nat, r: nat, h: Code)
    requires step > 0
  {
    && |t'| == |t| && p + size <= |t|
    && (forall j: nat :: j < size ==> FilledAt(t, t', p, step, r, h, j))
    && (forall i: nat {:trigger t'[i]} :: i < |t| && !(p <= i < p + size) ==> t'[i] == t[i])
  }

  // ---------------------------------------------------------------------
  // Entering a symbol
  // ---------------------------------------------------------------------
  lemma RootKeeps(t: seq<Code>, t': seq<Code>, c: Spec, k: Cursor, s: nat, u: nat)
    requires Good(c) && u < s < |c.ls| && Ready(t, c, k, s) && c.ls[s] <= c.root && Entered(t, c, k.used, u)
    requires Filled(t, t', 0, Pow2(c.root), Pow2(c.ls[s]), Huff(c.ls, s), Made(c, s, c.ls[s]))
    ensures Entered(t', c, k.used, u)
  {
    hide Rev, Pow2, Start, Entry, Good;
    assert Ascending(c.ls) by { GoodMeans(c); }
    forall i: nat | i < Pow2(c.root) && i % Pow2(c.ls[u]) == Huff(c.ls, u) ensures t'[i] == Made(c, u, c.ls[u]) {
      assert FilledAt(t, t', 0, Pow2(c.ls[s]), Huff(c.ls, s), Made(c, s, c.ls[s]), i);
      if i % Pow2(c.ls[s]) == Huff(c.ls, s) {
        GoodMeans(c);
        ModOfMod(i, c.ls[s], c.ls[u]);
        PrefixFree(c.ls, u, s);
        assert false;
      }
    }
  }

  lemma GoodMeans(c: Spec)
    requires Good(c)
    ensures Fits(c.ls) && Ascending(c.ls) && |c.order| == |c.ls| && 1 <= c.root <= MAXBITS
  {
  }

  // The bits of a long code: root bits, then an index into the sub-table.
  lemma SplitCode(x: nat, a: nat, b: nat)
    ensures x % Pow2(a + b) == Quotient(x % Pow2(a + b), Pow2(a)) * Pow2(a) + x % Pow2(a)
    ensures Quotient(x % Pow2(a + b), Pow2(a)) == Quotient(x, Pow2(a)) % Pow2(b)
  {
    hide Pow2;
    Pow2Add(a, b);
    var p, q: nat := Pow2(a), Pow2(b);
    DivideTwice(x, p, q);
    SplitMod(x, p, q);
  }

  lemma SplitMod(x: nat, p: nat, q: nat)
    requires p > 0 && q > 0 && p * q > 0
    ensures x % (p * q) == Quotient(x % (p * q), p) * p + x % p
  {
    ModMod(x, p, q);
  }

  // Equal root bits and equal sub-table bits make equal codes.
  lemma SubFree(c: Spec, u: nat, s: nat, j: nat)
    requires Good(c) && u < s < |c.ls| && c.ls[u] > c.root && Low(c, u) == Low(c, s)
    requires j % Pow2(c.ls[s] - c.root) == Quotient(Huff(c.ls, s), Pow2(c.root)) && c.ls[u] <= c.ls[s]
    ensures j % Pow2(c.ls[u] - c.root) != Quotient(Huff(c.ls, u), Pow2(c.root))
  {
    hide Pow2, Rev, Start, Entry, Quotient;
    var a, b, d: nat := c.root, c.ls[u] - c.root, c.ls[s] - c.root;
    var cu := CodeWord(c.ls, u);
    if j % Pow2(b) == Quotient(Huff(c.ls, u), Pow2(a)) {
      ModOfMod(j, d, b);
      SplitCode(Huff(c.ls, s), a, b);
      SplitCode(Huff(c.ls, u), a, b);
      SmallMod(Huff(c.ls, u), Pow2(a + b));
      PrefixFree(c.ls, u, s);
      assert false;
    }
  }

  lemma SubKeeps(t: seq<Code>, t': seq<Code>, c: Spec, k: Cursor, s: nat, u: nat)
    requires Good(c) && u < s < |c.ls| && Ready(t, c, k, s) && c.ls[s] > c.root && Entered(t, c, k.used, u)
    requires Filled(t, t', k.next, Pow2(k.curr), Pow2(c.ls[s] - c.root), Quotient(Huff(c.ls, s), Pow2(c.root)),
      Made(c, s, c.ls[s] - c.root))
    ensures Entered(t', c, k.used, u)
  {
    hide Rev, Pow2, Start, Entry, Good, Quotient;
    GoodMeans(c);
    BelowSame(t, t', c, k, s);
    if c.ls[u] > c.root {
      var h := t[Low(c, u)];
      if Low(c, u) == Low(c, s) {
        HeldTogether(t, t', c, k, s, u);
      } else {
        HeldFrame(t, t', c, u, h.val, h.op);
      }
    }
  }

  lemma BelowSame(t: seq<Code>, t': seq<Code>, c: Spec, k: Cursor, s: nat)
    requires Good(c) && s < |c.ls| && Ready(t, c, k, s) && c.ls[s] > c.root
    requires Filled(t, t', k.next, Pow2(k.curr), Pow2(c.ls[s] - c.root), Quotient(Huff(c.ls, s), Pow2(c.root)),
      Made(c, s, c.ls[s] - c.root))
    ensures Pow2(c.root) <= k.next <= |t| == |t'| && forall i: nat :: i < k.next ==> t'[i] == t[i]
  {
  }

  lemma HeldFrame(t: seq<Code>, t': seq<Code>, c: Spec, u: nat, v: nat, k: nat)
    requires Good(c) && u < |c.ls| && c.ls[u] > c.root && Held(t, c, u, v, k)
    requires |t'| == |t| && forall i: nat :: v <= i < v + Pow2(k) ==> t'[i] == t[i]
    ensures Held(t', c, u, v, k)
  {
    hide Rev, Pow2, Start, Entry, Good, Quotient;
    GoodMeans(c);
    forall j: nat | j < Pow2(k) ensures HeldAt(t', c, u, v, j) { assert HeldAt(t, c, u, v, j); }
  }

  lemma HeldTogether(t: seq<Code>, t': seq<Code>, c: Spec, k: Cursor, s: nat, u: nat)
    requires Good(c) && u < s < |c.ls| && c.ls[s] >= c.ls[u] > c.root && Low(c, u) == Low(c, s)
      && Held(t, c, u, k.next, k.curr)
    requires Filled(t, t', k.next, Pow2(k.curr), Pow2(c.ls[s] - c.root), Quotient(Huff(c.ls, s), Pow2(c.root)),
      Made(c, s, c.ls[s] - c.root))
    ensures Held(t', c, u, k.next, k.curr)
  {
    hide Rev, Pow2, Start, Entry, Good, Quotient;
    GoodMeans(c);
    var r := Quotient(Huff(c.ls, s), Pow2(c.root));
    forall j: nat | j < Pow2(k.curr) ensures HeldAt(t', c, u, k.next, j) {
      assert HeldAt(t, c, u, k.next, j);
      assert FilledAt(t, t', k.next, Pow2(c.ls[s] - c.root), r, Made(c, s, c.ls[s] - c.root), j);
      if j % Pow2(c.ls[s] - c.root) == r { SubFree(c, u, s, j); }
    }
  }

  // Entering symbol s keeps what was entered and adds s.
  lemma EnterRoot(t: seq<Code>, t': seq<Code>, c: Spec, k: Cursor, s: nat)
    requires Good(c) && s < |c.ls| && Ready(t, c, k, s) && c.ls[s] <= c.root && Done(t, c, k.used, s)
    requires Filled(t, t', 0, Pow2(c.root), Pow2(c.ls[s]), Huff(c.ls, s), Made(c, s, c.ls[s]))
    ensures Done(t', c, k.used, s + 1)
  {
    hide Rev, Pow2, Start, Entry, Good, Rooted, Linked, Ready;
    forall u | 0 <= u < s + 1 ensures Entered(t', c, k.used, u) {
      if u < s { RootKeeps(t, t', c, k, s, u); } else { RootedNow(t, t', c, s); }
    }
  }

  lemma RootedNow(t: seq<Code>, t': seq<Code>, c: Spec, s: nat)
    requires Good(c) && s < |c.ls| && c.ls[s] <= c.root && Pow2(c.root) <= |t|
    requires Filled(t, t', 0, Pow2(c.root), Pow2(c.ls[s]), Huff(c.ls, s), Made(c, s, c.ls[s]))
    ensures Rooted(t', c, s)
  {
    hide Rev, Pow2, Start, Entry, Good;
    GoodMeans(c);
    forall i: nat | i < Pow2(c.root) && i % Pow2(c.ls[s]) == Huff(c.ls, s) ensures t'[i] == Made(c, s, c.ls[s]) {
      assert FilledAt(t, t', 0, Pow2(c.ls[s]), Huff(c.ls, s), Made(c, s, c.ls[s]), i);
    }
  }

  lemma EnterSub(t: seq<Code>, t': seq<Code>, c: Spec, k: Cursor, s: nat)
    requires Good(c) && s < |c.ls| && Ready(t, c, k, s) && c.ls[s] > c.root && Done(t, c, k.used, s)
    requires Filled(t, t', k.next, Pow2(k.curr), Pow2(c.ls[s] - c.root), Quotient(Huff(c.ls, s), Pow2(c.root)),
      Made(c, s, c.ls[s] - c.root))
    ensures Done(t', c, k.used, s + 1)
  {
    hide Rev, Pow2, Start, Entry, Good, Rooted, Linked, Quotient;
    forall u | 0 <= u < s + 1 ensures Entered(t', c, k.used, u) {
      if u < s { SubKeeps(t, t', c, k, s, u); } else { LinkedNow(t, t', c, k, s); }
    }
  }

  lemma LinkedNow(t: seq<Code>, t': seq<Code>, c: Spec, k: Cursor, s: nat)
    requires Good(c) && s < |c.ls| && Ready(t, c, k, s) && c.ls[s] > c.root
    requires Filled(t, t', k.next, Pow2(k.curr), Pow2(c.ls[s] - c.root), Quotient(Huff(c.ls, s), Pow2(c.root)),
      Made(c, s, c.ls[s] - c.root))
    ensures Linked(t', c, k.used, s)
  {
    hide Rev, Pow2, Start, Entry, Good, Quotient;
    GoodMeans(c);
    var r := Quotient(Huff(c.ls, s), Pow2(c.root));
    BelowSame(t, t', c, k, s);
    forall j: nat | j < Pow2(k.curr) ensures HeldAt(t', c, s, k.next, j) {
      assert FilledAt(t, t', k.next, Pow2(c.ls[s] - c.root), r, Made(c, s, c.ls[s] - c.root), j);
    }
    assert t'[Low(c, s)] == Code(k.curr, c.root, k.next);
  }

  // ---------------------------------------------------------------------
  // Moving to the next symbol
  // ---------------------------------------------------------------------

  // The same table still serves the next symbol.
  lemma Stay(t: seq<Code>, c: Spec, k: Cursor, s: nat)
    requires Good(c) && s + 1 < |c.ls| && Ready(t, c, k, s)
    requires c.ls[s + 1] <= c.root || k.low == Low(c, s + 1)
    ensures Ready(t, c, k, s + 1)
  {
    hide Rev, Pow2, Start, Entry, Good;
    assert c.ls[s] <= c.ls[s + 1] by { GoodMeans(c); }
  }

  // A new sub-table for the block that the next symbol opens.
  lemma Open(t: seq<Code>, c: Spec, k: Cursor, s: nat, curr: nat)
    requires Good(c) && s + 1 < |c.ls| && Ready(t, c, k, s) && Done(t, c, k.used, s + 1)
    requires c.ls[s + 1] > c.root && k.low != Low(c, s + 1) && 1 <= curr <= MAXBITS && Spacious(c, s + 1, curr)
    requires k.used + Pow2(curr) <= |t|
    ensures Done(t[Low(c, s + 1) := Code(curr, c.root, k.used)], c, k.used + Pow2(curr), s + 1)
    ensures Ready(t[Low(c, s + 1) := Code(curr, c.root, k.used)], c,
      Cursor(k.used, curr, c.root, Low(c, s + 1), k.used + Pow2(curr)), s + 1)
  {
    hide Rev, Pow2, Start, Entry, Good, Rooted, Linked, Ready, Spacious;
    ReadyFits(t, c, k, s);
    var t' := t[Low(c, s + 1) := Code(curr, c.root, k.used)];
    forall u | 0 <= u < s + 1
      ensures Entered(t', c, k.used + Pow2(curr), u)
      ensures c.ls[u] > c.root ==> Low(c, u) != Low(c, s + 1) && t'[Low(c, u)].val + Pow2(t'[Low(c, u)].op) <= k.used
    {
      OpenKeeps(t, c, k, s, curr, u);
    }
    OpenReady(t', c, k, s, curr);
  }

  lemma ReadyFits(t: seq<Code>, c: Spec, k: Cursor, s: nat)
    requires Good(c) && s < |c.ls| && Ready(t, c, k, s)
    ensures Pow2(c.root) <= k.used <= |t|
  {
  }

  lemma OpenReady(t: seq<Code>, c: Spec, k: Cursor, s: nat, curr: nat)
    requires Good(c) && s + 1 < |c.ls| && c.ls[s + 1] > c.root && 1 <= curr <= MAXBITS && Spacious(c, s + 1, curr)
    requires Pow2(c.root) <= k.used && k.used + Pow2(curr) <= |t| && t[Low(c, s + 1)] == Code(curr, c.root, k.used)
    requires forall u {:trigger Low(c, u)} :: 0 <= u < s + 1 && c.ls[u] > c.root
               ==> t[Low(c, u)].val + Pow2(t[Low(c, u)].op) <= k.used
    ensures Ready(t, c, Cursor(k.used, curr, c.root, Low(c, s + 1), k.used + Pow2(curr)), s + 1)
  {
    hide Rev, Pow2, Start, Entry, Good;
  }

  // The new link disturbs no earlier symbol: its root entry belongs to a fresh block.
  lemma OpenKeeps(t: seq<Code>, c: Spec, k: Cursor, s: nat, curr: nat, u: nat)
    requires Good(c) && s + 1 < |c.ls| && u < s + 1 && Ready(t, c, k, s) && Entered(t, c, k.used, u)
    requires c.ls[s + 1] > c.root && k.low != Low(c, s + 1) && k.used + Pow2(curr) <= |t|
    ensures Low(c, s + 1) < |t|
    ensures Entered(t[Low(c, s + 1) := Code(curr, c.root, k.used)], c, k.used + Pow2(curr), u)
    ensures c.ls[u] > c.root ==> Low(c, u) != Low(c, s + 1) && t[Low(c, u)].val + Pow2(t[Low(c, u)].op) <= k.used
  {
    hide Rev, Pow2, Start, Entry, Good;
    GoodMeans(c);
    var low := Low(c, s + 1);
    var t' := t[low := Code(curr, c.root, k.used)];
    if c.ls[u] <= c.root {
      forall i: nat | i < Pow2(c.root) && i % Pow2(c.ls[u]) == Huff(c.ls, u) ensures t'[i] == Made(c, u, c.ls[u]) {
        if i == low {
          ModOfMod(Huff(c.ls, s + 1), c.root, c.ls[u]);
          PrefixFree(c.ls, u, s + 1);
          assert false;
        }
      }
    } else {
      FreshBlock(c, k, t, s, u);
      var h := t[Low(c, u)];
      assert t'[Low(c, u)] == h;
      HeldFrame(t, t', c, u, h.val, h.op);
    }
  }

  lemma FreshBlock(c: Spec, k: Cursor, t: seq<Code>, s: nat, u: nat)
    requires Good(c) && s + 1 < |c.ls| && u < s + 1 && Ready(t, c, k, s)
    requires c.ls[s + 1] > c.root && k.low != Low(c, s + 1) && c.ls[u] > c.root
    ensures Low(c, u) != Low(c, s + 1)
  {
    hide Rev, Pow2, Start, Entry, Width;
    SameBlock(c.ls, s, s + 1, c.root);
    SameBlock(c.ls, u, s + 1, c.root);
    BlockOpens(c.ls, s + 1, c.root);
    StartStep(c.ls, u);
    StartMono(c.ls, u + 1, s + 1);
    WidthIs(c.root);
    InInterval(Start(c.ls, u), Width(c.root), Block(c.ls, s + 1, c.root));
  }

  // ---------------------------------------------------------------------
  // Lookups in a finished table
  // ---------------------------------------------------------------------

  // The entry that ends the lookup of symbol u.
  ghost function Final(c: Spec, u: nat): Code
    requires Good(c) && u < |c.ls|
  {
    Made(c, u, if c.ls[u] <= c.root then c.ls[u] else c.ls[u] - c.root)
  }

  lemma LookupFinds(t: seq<Code>, c: Spec, used: nat, u: nat, x: nat)
    requires Good(c) && u < |c.ls| && Entered(t, c, used, u) && IsCode(c.ls, u, x)
    ensures Resolves(t, c.root, x, Final(c, u), c.ls[u])
  {
    hide Rev, Pow2, Start, Entry, Good, Quotient;
    GoodMeans(c);
    var l, root: nat := c.ls[u], c.root;
    if l <= root {
      ModOfMod(x, root, l);
      NotLink(c, u, l);
      assert t[x % Pow2(root)] == Made(c, u, l);
    } else {
      NotLink(c, u, l - root);
      ModOfMod(x, l, root);
      var h := t[Low(c, u)];
      SplitCode(x, root, h.op);
      SplitCode(x, root, l - root);
      var j: nat := Quotient(x, Pow2(root)) % Pow2(h.op);
      ModOfMod(Quotient(x, Pow2(root)), h.op, l - root);
      assert HeldAt(t, c, u, h.val, j);
    }
  }

  lemma NotLink(c: Spec, u: nat, bits: nat)
    requires Good(c) && u < |c.ls|
    ensures !IsLink(Made(c, u, bits)) && Made(c, u, bits).bits == bits
  {
    EntryIsNotLink(c.kind, c.order[u], bits);
  }

  // The entries that a table for these lengths takes.
  ghost function SpaceNeeded(kind: CodeType, lens: seq<byte>, root: nat): nat
    requires Bounded(lens) && |lens| <= Alphabet(kind) && 1 <= root <= MAXBITS
    requires Sorted(lens) != [] && Fits(Sorted(lens))
  {
    SpecGood(kind, lens, root);
    Space(SpecOf(kind, lens, root), |Sorted(lens)| - 1)
  }

  // The lengths of an acceptable code: complete, or a single code of one bit.
  ghost predicate Accepted(kind: CodeType, ls: seq<nat>)
    requires Ascending(ls)
  {
    ls == [] || Start(ls, |ls|) == Pow2(MAXBITS) || (kind != CODES && ls == [1])
  }

  // t decodes the code of lens: each stream of bits resolves to the symbol
  // whose code it begins with, and to the invalid marker if there is none.
  ghost predicate Decodes(t: seq<Code>, root: nat, kind: CodeType, lens: seq<byte>)
    requires Bounded(lens) && |lens| <= Alphabet(kind) && 1 <= root <= MAXBITS
  {
    && (forall x: nat :: DecodesAt(t, root, kind, lens, x))
    && (forall i: nat :: i < Pow2(root) ==> RootEntry(t, root, i))
  }

  // Links drop exactly the root bits.
  ghost predicate RootEntry(t: seq<Code>, root: nat, i: nat)
  {
    i < |t| && (IsLink(t[i]) ==> t[i].bits == root)
  }

  ghost predicate DecodesAt(t: seq<Code>, root: nat, kind: CodeType, lens: seq<byte>, x: nat)
    requires Bounded(lens) && |lens| <= Alphabet(kind) && 1 <= root <= MAXBITS
  {
    SortedAscends(lens);
    var ls := Sorted(lens);
    && (forall u :: 0 <= u < |ls| && IsCode(ls, u, x) ==> ResolvesTo(t, root, kind, lens, u, x))
    && ((forall u :: 0 <= u < |ls| ==> !IsCode(ls, u, x)) ==> Resolves(t, root, x, Code(INVALID, 1, 0), 1))
  }

  ghost predicate ResolvesTo(t: seq<Code>, root: nat, kind: CodeType, lens: seq<byte>, u: nat, x: nat)
    requires u < |Sorted(lens)| && |lens| <= Alphabet(kind)
  {
    var l := Sorted(lens)[u];
    OrderIn(lens, u);
    Resolves(t, root, x, Entry(kind, Order(lens)[u], if l <= root then l else l - root), l)
  }

  // The specification of the table for given lengths.
  ghost function SpecOf(kind: CodeType, lens: seq<byte>, root: nat): Spec
  {
    Spec(Sorted(lens), Order(lens), kind, root)
  }

  lemma SpecGood(kind: CodeType, lens: seq<byte>, root: nat)
    requires Bounded(lens) && |lens| <= Alphabet(kind) && 1 <= root <= MAXBITS
    requires Ascending(Sorted(lens)) ==> Start(Sorted(lens), |Sorted(lens)|) <= Pow2(MAXBITS)
    ensures Good(SpecOf(kind, lens, root))
  {
    hide Pow2, Start;
    SortedAscends(lens);
    forall s | 0 <= s < |Order(lens)| ensures Order(lens)[s] < Alphabet(kind) { OrderIn(lens, s); }
  }

  // A finished table decodes.
  lemma FinishedDecodes(t: seq<Code>, kind: CodeType, lens: seq<byte>, root: nat, used: nat)
    requires Bounded(lens) && |lens| <= Alphabet(kind) && 1 <= root <= MAXBITS && Good(SpecOf(kind, lens, root))
    requires Sorted(lens) != [] && Accepted(kind, Sorted(lens))
      && Done(t, SpecOf(kind, lens, root), used, |Sorted(lens)|)
    requires Start(Sorted(lens), |Sorted(lens)|) < Pow2(MAXBITS)
      ==> root == 1 && |t| >= 2 && t[1] == Code(INVALID, 1, 0)
    ensures Decodes(t, root, kind, lens)
  {
    hide Rev, Pow2, Start, Entry, Good, Quotient, Entered, Resolves;
    var c := SpecOf(kind, lens, root);
    GoodMeans(c);
    forall x: nat ensures DecodesAt(t, root, kind, lens, x) {
      forall u | 0 <= u < |c.ls| && IsCode(c.ls, u, x) ensures ResolvesTo(t, root, kind, lens, u, x) {
        assert Entered(t, c, used, u);
        LookupFinds(t, c, used, u, x);
      }
      if forall u :: 0 <= u < |c.ls| ==> !IsCode(c.ls, u, x) { Uncoded(t, c, x); }
    }
    forall i: nat | i < Pow2(root) ensures RootEntry(t, root, i) { RootIsEntered(t, c, used, i); }
  }

  lemma RootIsEntered(t: seq<Code>, c: Spec, used: nat, i: nat)
    requires Good(c) && c.ls != [] && Accepted(c.kind, c.ls) && Done(t, c, used, |c.ls|) && i < Pow2(c.root)
    requires Start(c.ls, |c.ls|) < Pow2(MAXBITS) ==> c.root == 1 && |t| >= 2 && t[1] == Code(INVALID, 1, 0)
    ensures RootEntry(t, c.root, i)
  {
    hide Rev, Pow2, Start, Entry, Quotient, Good;
    GoodMeans(c);
    SmallMod(i, Pow2(c.root));
    if u :| 0 <= u < |c.ls| && IsCode(c.ls, u, i) {
      assert Entered(t, c, used, u);
      if c.ls[u] <= c.root {
        NotLink(c, u, c.ls[u]);
        assert t[i] == Made(c, u, c.ls[u]);
      } else {
        ModOfMod(i, c.ls[u], c.root);
      }
    } else {
      Uncoded(t, c, i);
    }
  }

  // Bits without a code occur only beside a single code of one bit.
  lemma Uncoded(t: seq<Code>, c: Spec, x: nat)
    requires Good(c) && c.ls != [] && Accepted(c.kind, c.ls)
    requires forall u :: 0 <= u < |c.ls| ==> !IsCode(c.ls, u, x)
    requires Start(c.ls, |c.ls|) < Pow2(MAXBITS) ==> c.root == 1 && |t| >= 2 && t[1] == Code(INVALID, 1, 0)
    ensures x % Pow2(c.root) < |t| && t[x % Pow2(c.root)] == Code(INVALID, 1, 0)
    ensures Resolves(t, c.root, x, Code(INVALID, 1, 0), 1)
  {
    hide Rev, Pow2, Start, Entry, Quotient;
    GoodMeans(c);
    if Start(c.ls, |c.ls|) == Pow2(MAXBITS) {
      var u := PointHasCode(c.ls, |c.ls|, Rev(x, MAXBITS));
      CodeIsInterval(c.ls, u, x);
      assert false;
    } else {
      OneBitCode(c.ls, x);
    }
  }

  lemma OneBitCode(ls: seq<nat>, x: nat)
    requires ls == [1] && Fits(ls) && !IsCode(ls, 0, x)
    ensures Pow2(1) == 2 && x % 2 == 1
  {
    RevZero(MAXBITS);
    assert Start(ls, 0) == 0;
  }

  // ---------------------------------------------------------------------
  // Counting and sorting
  // ---------------------------------------------------------------------
  lemma OccZero(l: seq<byte>, c: nat)
    ensures Occ(l, c, 0) == 0
  {
  }

  method CountLengths(lens: array<byte>, from: nat, codes: nat, count: array<nat>)
    requires from + codes <= lens.Length && count.Length == MAXBITS + 1 && Bounded(lens[from..from + codes])
    modifies count
    ensures forall l: nat :: l <= MAXBITS ==> count[l] == Occ(lens[from..from + codes], l, codes)
    ensures forall l: nat :: 1 <= l <= MAXBITS ==> count[l] == Rem(Sorted(lens[from..from + codes]), 0, l)
  {
    hide Occ, Rem, Sorted;
    ghost var s := lens[from..from + codes];
    var len := 0;
    while len <= MAXBITS
      invariant 0 <= len <= MAXBITS + 1 && forall l: nat :: l < len ==> count[l] == 0
    {
      count[len] := 0;
      len := len + 1;
    }
    forall l: nat | l <= MAXBITS ensures Occ(s, l, 0) == 0 { OccZero(s, l); }
    var sym := 0;
    while sym < codes
      invariant 0 <= sym <= codes && forall l: nat :: l <= MAXBITS ==> count[l] == Occ(s, l, sym)
    {
      assert s[sym] == lens[from + sym];
      forall l: nat | l <= MAXBITS ensures Occ(s, l, sym + 1) == Occ(s, l, sym) + (if s[sym] == l then 1 else 0) {
        OccStep(s, l, sym);
      }
      count[lens[from + sym]] := count[lens[from + sym]] + 1;
      sym := sym + 1;
    }
    forall l: nat | 1 <= l <= MAXBITS ensures count[l] == Rem(Sorted(s), 0, l) { RemIsCount(s, l); }
  }

  lemma {:induction false} RemPositive(ls: seq<nat>, s: nat, l: nat)
    requires s <= |ls|
    ensures Rem(ls, s, l) > 0 <==> exists i :: s <= i < |ls| && ls[i] == l
    decreases |ls| - s
  {
    if s < |ls| { RemPositive(ls, s + 1, l); }
  }

  // The longest and the shortest length, or 0 when no symbol occurs.
  method FindBounds(count: array<nat>, ghost ls: seq<nat>) returns (min: nat, max: nat)
    requires count.Length == MAXBITS + 1 && Ascending(ls) && forall l: nat :: 1 <= l <= MAXBITS
                                                               ==> count[l] == Rem(ls, 0, l)
    ensures max == 0 <==> ls == []
    ensures max > 0 ==> max == ls[|ls| - 1] && min == ls[0]
  {
    hide Rem;
    max := MAXBITS;
    while max >= 1
      invariant max <= MAXBITS && (ls != [] ==> ls[|ls| - 1] <= max) && forall i :: 0 <= i < |ls| ==> ls[i] <= max
      decreases max
    {
      RemPositive(ls, 0, max);
      if count[max] != 0 { break; }
      max := max - 1;
    }
    if max > 0 {
      ghost var i :| 0 <= i < |ls| && ls[i] == max;
    }
    min := 1;
    if max > 0 {
      while min < max
        invariant 1 <= min <= max && forall i :: 0 <= i < |ls| ==> min <= ls[i]
      {
        RemPositive(ls, 0, min);
        if count[min] != 0 { break; }
        min := min + 1;
      }
    }
  }

  // The check of the lengths: what is left of the code space, negative if it is exceeded.
  method CheckSpace(count: array<nat>, ghost ls: seq<nat>) returns (left: int)
    requires count.Length == MAXBITS + 1 && Ascending(ls) && forall l: nat :: 1 <= l <= MAXBITS
                                                               ==> count[l] == Rem(ls, 0, l)
    ensures left < 0 <==> Start(ls, |ls|) > Pow2(MAXBITS)
    ensures left >= 0 ==> left == Pow2(MAXBITS) - Start(ls, |ls|)
  {
    hide Rem, Start, Taken, Pow2;
    left := 1;
    var len := 1;
    TakenNone(ls, 0, 1);
    StartNothing(ls);
    WidthIs(0);
    TakenAll(ls, 0, MAXBITS + 1);
    while len <= MAXBITS
      invariant 1 <= len <= MAXBITS + 1 && left >= 0
      invariant left * Width(len - 1) == Pow2(MAXBITS) - Taken(ls, 0, len)
    {
      WidthDouble(len);
      TakenStep(ls, 0, len);
      SpaceStep(left, count[len], Width(len));
      left := 2 * left;
      left := left - count[len];
      if left < 0 {
        TakenMono(ls, 0, len + 1, MAXBITS + 1);
        return;
      }
      len := len + 1;
    }
    WidthDouble(MAXBITS);
  }

  lemma WidthDouble(len: nat)
    requires 1 <= len <= MAXBITS
    ensures Width(len - 1) == 2 * Width(len) && Width(len) > 0 && (len == MAXBITS ==> Width(len) == 1)
  {
    WidthSplit(len - 1, len);
    assert Pow2(1) == 2 && Pow2(0) == 1;
  }

  lemma SpaceStep(left: int, n: int, w: int)
    requires w > 0
    ensures (2 * left - n) * w == left * (2 * w) - n * w
    ensures 2 * left - n < 0 ==> (2 * left - n) * w < 0
  {
    MulAssoc(left, 2, w);
    MulDist(2 * left, -n, w);
    if 2 * left - n < 0 { MulMono(w, 2 * left - n, -1); }
  }

  lemma StartNothing(ls: seq<nat>)
    requires Ascending(ls)
    ensures Start(ls, 0) == 0
  {
  }

  // Where the symbols of each length begin.
  method Offsets(count: array<nat>, offs: array<nat>, ghost s: seq<byte>)
    requires count.Length == offs.Length == MAXBITS + 1 && count != offs
    requires forall l: nat :: l <= MAXBITS ==> count[l] == Occ(s, l, |s|)
    modifies offs
    ensures forall l :: 1 <= l <= MAXBITS ==> offs[l] == Less(s, l, |s|) - Zeros(s)
  {
    hide Occ, Less;
    LessOne(s);
    offs[1] := 0;
    var len := 1;
    while len < MAXBITS
      invariant 1 <= len <= MAXBITS && forall l :: 1 <= l <= len ==> offs[l] == Less(s, l, |s|) - Zeros(s)
    {
      LessStepUp(s, len);
      LessMono(s, 1, len, |s|);
      offs[len + 1] := offs[len] + count[len];
      len := len + 1;
    }
  }

  // Symbol i has been put at its place.
  ghost predicate Placed(work: seq<nat>, s: seq<byte>, i: nat)
    requires i < |s|
  {
    s[i] != 0 ==> Zeros(s) <= Rank(s, i) < |s| <= |work| && work[Rank(s, i) - Zeros(s)] == i
  }

  lemma PlaceNext(work: seq<nat>, s: seq<byte>, i: nat, sym: nat)
    requires i < sym < |s| && Placed(work, s, i) && s[sym] != 0 && Zeros(s) <= Rank(s, sym) < |s| <= |work|
    ensures Placed(work[Rank(s, sym) - Zeros(s) := sym], s, i)
  {
    hide Rank, Occ;
    if s[i] <= s[sym] { RankOrder(s, i, sym); } else { RankOrder(s, sym, i); }
  }

  // Each symbol that occurs goes to its place in the order.
  method SortSymbols(lens: array<byte>, from: nat, codes: nat, count: array<nat>, work: array<nat>)
    requires from + codes <= lens.Length && codes <= work.Length && count.Length == MAXBITS + 1
      && Bounded(lens[from..from + codes])
    requires forall l: nat :: l <= MAXBITS ==> count[l] == Occ(lens[from..from + codes], l, codes)
    requires work != count
    modifies work
    ensures work[..|Order(lens[from..from + codes])|] == Order(lens[from..from + codes])
  {
    hide Occ, Less, Placed, Order;
    ghost var s := lens[from..from + codes];
    ghost var z := Zeros(s);
    var offs := new nat[MAXBITS + 1](_ => 0);
    Offsets(count, offs, s);
    forall l: nat | 1 <= l <= MAXBITS ensures Occ(s, l, 0) == 0 { OccZero(s, l); }
    var sym: nat := 0;
    while sym < codes
      invariant 0 <= sym <= codes
      invariant forall l :: 1 <= l <= MAXBITS ==> offs[l] == Less(s, l, codes) - z + Occ(s, l, sym)
      invariant forall i :: 0 <= i < sym ==> Placed(work[..], s, i)
    {
      assert s[sym] == lens[from + sym];
      forall l | 1 <= l <= MAXBITS ensures Occ(s, l, sym + 1) == Occ(s, l, sym) + (if s[sym] == l then 1 else 0) {
        OccStep(s, l, sym);
      }
      ghost var w := work[..];
      if lens[from + sym] != 0 {
        OrderAt(s, sym);
        ghost var w' := w[Rank(s, sym) - z := sym];
        forall i | 0 <= i < sym ensures Placed(w', s, i) { PlaceNext(w, s, i, sym); }
        work[offs[lens[from + sym]]] := sym;
        assert work[..] == w';
        offs[lens[from + sym]] := offs[lens[from + sym]] + 1;
      }
      PlacedNow(work[..], s, sym);
      sym := sym + 1;
    }
    AllPlaced(work[..], s);
  }

  lemma PlacedNow(work: seq<nat>, s: seq<byte>, sym: nat)
    requires sym < |s| && (s[sym] != 0
      ==> Zeros(s) <= Rank(s, sym) < |s| <= |work| && work[Rank(s, sym) - Zeros(s)] == sym)
    ensures Placed(work, s, sym)
  {
  }

  lemma AllPlaced(work: seq<nat>, s: seq<byte>)
    requires |s| <= |work| && forall i :: 0 <= i < |s| ==> Placed(work, s, i)
    ensures work[..|Order(s)|] == Order(s)
  {
    hide Occ, Order;
    forall k | 0 <= k < |Order(s)| ensures work[k] == Order(s)[k] {
      OrderIn(s, k);
      InBucket(s, k, 0);
      assert Placed(work, s, Order(s)[k]);
    }
  }

  lemma LessStepUp(s: seq<byte>, c: nat)
    ensures Less(s, c + 1, |s|) == Less(s, c, |s|) + Occ(s, c, |s|)
  {
  }

  // ---------------------------------------------------------------------
  // The pieces of the main loop
  // ---------------------------------------------------------------------

  // Replicate an entry at every step-th place.
  method Replicate(table: array<Code>, p: nat, curr: nat, step: nat, r: nat, here: Code, ghost q: nat)
    requires p + Pow2(curr) <= table.Length && r < step && Pow2(curr) == q * step
    modifies table
    ensures Filled(old(table[..]), table[..], p, Pow2(curr), step, r, here)
  {
    ghost var t, size: nat := table[..], Pow2(curr);
    var fill := Pow2(curr);
    ghost var m := q;
    NotEmpty(curr, q, step);
    while true
      invariant 0 < m <= q && fill == m * step <= size
      invariant forall i: nat :: i < |t| && !(p + fill <= i < p + size) ==> table[i] == t[i]
      invariant forall j: nat {:trigger FilledAt(t, table[..], p, step, r, here, j)} :: fill <= j < size
                  ==> FilledAt(t, table[..], p, step, r, here, j)
      decreases m
    {
      ghost var before := table[..];
      OneStep(m, step);
      fill := fill - step;
      m := m - 1;
      table[p + (r + fill)] := here;
      assert table[..] == before[p + (r + fill) := here];
      forall j: nat | fill <= j < size ensures FilledAt(t, table[..], p, step, r, here, j) {
        if j < fill + step {
          ModUnique(j, step, m, j - fill);
        } else {
          assert FilledAt(t, before, p, step, r, here, j);
        }
      }
      if fill == 0 { break; }
      OneStep(m, step);
    }
  }

  lemma NotEmpty(curr: nat, q: nat, step: nat)
    requires Pow2(curr) == q * step
    ensures q > 0
  {
  }

  lemma OneStep(m: nat, step: nat)
    requires m > 0
    ensures m * step == (m - 1) * step + step && (m - 1) * step >= 0
    ensures step > 0 ==> (m * step == step <==> m == 1)
  {
    MulDist(m - 1, 1, step);
  }

  // Increment the len-bit code backwards.
  method IncrementBackwards(huff: nat, len: nat) returns (huff': nat)
    requires 0 < len && huff < Pow2(len)
    ensures huff' == Next(huff, len)
  {
    hide Pow2, Next, Quotient;
    var incr: nat := Pow2(len - 1);
    ghost var k: nat := len;
    Pow2Step(len);
    SmallMod(huff, Pow2(len));
    while incr != 0 && Quotient(huff, incr) % 2 == 1
      invariant k <= len && incr == HalfOf(k)
      invariant Next(huff % Pow2(k), k) == Next(huff, len)
      decreases k
    {
      TopBit(huff, k);
      NextStep(huff % Pow2(k), k);
      HalfPower(k);
      incr := incr / 2;
      k := k - 1;
    }
    if incr != 0 {
      TopBit(huff, k);
      NextStep(huff % Pow2(k), k);
      huff' := huff % incr;
      huff' := huff' + incr;
    } else {
      NextStep(huff % Pow2(k), k);
      huff' := 0;
    }
  }

  // 1 << (k - 1), which shifts out to 0.
  function HalfOf(k: nat): nat
  {
    if k == 0 then 0 else Pow2(k - 1)
  }

  lemma NextStep(h: nat, k: nat)
    ensures k == 0 ==> Next(h, k) == 0
    ensures k > 0 && h < Pow2(k - 1) ==> Next(h, k) == h + Pow2(k - 1)
    ensures k > 0 && h >= Pow2(k - 1) ==> Next(h, k) == Next(h - Pow2(k - 1), k - 1)
  {
  }

  lemma TopBit(h: nat, k: nat)
    requires k > 0
    ensures h % Pow2(k) == (if Quotient(h, Pow2(k - 1)) % 2 == 1 then Pow2(k - 1) else 0) + h % Pow2(k - 1)
    ensures h % Pow2(k - 1) < Pow2(k - 1)
  {
    hide Pow2;
    Pow2Step(k);
    LastBit(h, Pow2(k - 1));
  }

  lemma HalfPower(k: nat)
    requires k > 0
    ensures Pow2(k - 1) / 2 == HalfOf(k - 1) && Pow2(k - 1) > 0
  {
  }

  // count holds what is left of each length from symbol s on.
  ghost predicate Counted(count: seq<nat>, ls: seq<nat>, s: nat)
    requires s <= |ls|
  {
    |count| == MAXBITS + 1 && forall l: nat :: 1 <= l <= MAXBITS ==> count[l] == Rem(ls, s, l)
  }

  // Index bits, from n up, for a sub-table that begins with symbol s: as few as it
  // takes for the codes up to that length to fill the block, or for the longest code.
  ghost function SubBits(c: Spec, s: nat, n: nat): (curr: nat)
    requires Good(c) && s < |c.ls|
    decreases MAXBITS - (c.root + n)
  {
    if c.root + n >= c.ls[|c.ls| - 1] || c.root + n >= MAXBITS || Taken(c.ls, s, c.root + n + 1) >= Width(c.root) then n
    else SubBits(c, s, n + 1)
  }

  // Symbol s is the first of its block, and too long for the root table.
  ghost predicate Opens(c: Spec, s: nat)
    requires Good(c) && 0 < s < |c.ls|
  {
    c.ls[s] > c.root && (c.ls[s - 1] <= c.root || Low(c, s) != Low(c, s - 1))
  }

  // The entries taken by the root table and by the sub-tables of the symbols up to s.
  ghost function Space(c: Spec, s: nat): nat
    requires Good(c) && s < |c.ls|
  {
    if s == 0 then Pow2(c.root)
    else Space(c, s - 1) + if Opens(c, s) then Pow2(SubBits(c, s, c.ls[s] - c.root)) else 0
  }

  lemma {:induction false} SpaceGrows(c: Spec, s: nat, u: nat)
    requires Good(c) && s <= u < |c.ls|
    ensures Space(c, s) <= Space(c, u)
  {
    if s < u { SpaceGrows(c, s, u - 1); }
  }

  lemma SpaceStart(c: Spec)
    requires Good(c) && c.ls != []
    ensures Space(c, 0) == Pow2(c.root)
  {
  }

  lemma SpaceNext(c: Spec, s: nat)
    requires Good(c) && s + 1 < |c.ls|
    ensures Space(c, s + 1) == Space(c, s) + if Opens(c, s + 1) then Pow2(SubBits(c, s + 1, c.ls[s + 1] - c.root))
      else 0
  {
  }

  // How many index bits the sub-table that symbol s opens needs.
  method LookAhead(count: array<nat>, len: nat, root: nat, max: nat, ghost c: Spec, ghost s: nat) returns (curr: nat)
    requires Good(c) && s < |c.ls| && Counted(count[..], c.ls, s)
    requires len == c.ls[s] && root == c.root < len && max == c.ls[|c.ls| - 1]
      && Start(c.ls, s) == Block(c.ls, s, root) * Width(root)
    ensures len <= root + curr <= max && Spacious(c, s, curr)
    ensures curr == SubBits(c, s, len - root)
  {
    hide Rem, Start, Taken, Pow2, Width, Rev, Entry, Good, Block, Spacious;
    GoodMeans(c);
    curr := len - root;
    var left: int := Pow2(curr);
    TakenNone(c.ls, s, len);
    WidthSplit(root, len);
    while curr + root < max
      invariant len <= curr + root <= max
      invariant left * Width(curr + root) == Width(root) - Taken(c.ls, s, curr + root)
      invariant SubBits(c, s, len - root) == SubBits(c, s, curr)
    {
      ghost var d := curr + root;
      TakenStep(c.ls, s, d);
      assert count[..][d] == Rem(c.ls, s, d);
      WidthDouble(d + 1);
      LeftStep(left, count[d], Width(d + 1));
      left := left - count[curr + root];
      if left <= 0 {
        FullBlock(c, s, curr);
        return;
      }
      curr := curr + 1;
      left := 2 * left;
    }
    NoneLonger(c, s, curr);
  }

  lemma LeftStep(left: int, n: int, w: int)
    requires w > 0
    ensures (left - n) * (2 * w) == left * (2 * w) - n * (2 * w) && (left - n) * (2 * w) == (2 * (left - n)) * w
    ensures left - n <= 0 <==> (left - n) * (2 * w) <= 0
  {
    MulDist(left, -n, 2 * w);
    MulAssoc(left - n, 2, w);
    MulAssoc(2, left - n, w);
    if left - n <= 0 { MulMono(2 * w, left - n, 0); } else { MulMono(2 * w, 1, left - n); }
  }

  lemma NoneLonger(c: Spec, s: nat, curr: nat)
    requires Good(c) && s < |c.ls| && c.ls[|c.ls| - 1] <= c.root + curr
    ensures Spacious(c, s, curr)
  {
    hide Start, Pow2, Rev, Entry;
    GoodMeans(c);
  }

  // Codes longer than this begin after the block that symbol s opens.
  lemma FullBlock(c: Spec, s: nat, curr: nat)
    requires Good(c) && s < |c.ls| && c.root + curr < MAXBITS && c.ls[s] > c.root
    requires Start(c.ls, s) == Block(c.ls, s, c.root) * Width(c.root)
    requires Width(c.root) <= Taken(c.ls, s, c.root + curr + 1)
    ensures Spacious(c, s, curr)
  {
    hide Start, Pow2, Width, Rev, Entry, Taken, Block;
    GoodMeans(c);
    forall v | s <= v < |c.ls| && Low(c, v) == Low(c, s) ensures c.ls[v] <= c.root + curr {
      SameBlock(c.ls, v, s, c.root);
      SameInterval(c.ls, v, c.root);
      if c.ls[v] > c.root + curr { TakenBefore(c.ls, s, c.root + curr + 1, v); }
    }
  }

  lemma SameInterval(ls: seq<nat>, v: nat, root: nat)
    requires Fits(ls) && v < |ls| && root <= MAXBITS
    ensures Block(ls, v, root) * Width(root) <= Start(ls, v) < Block(ls, v, root) * Width(root) + Width(root)
  {
    hide Start, Pow2;
    InInterval(Start(ls, v), Width(root), Block(ls, v, root));
  }

  // ---------------------------------------------------------------------
  // Filling the table
  // ---------------------------------------------------------------------

  // Where the lookups of a table begin in the shared array, and its limit.
  ghost predicate Room(kind: CodeType, c: Spec, size: nat)
    requires Good(c) && c.ls != []
  {
    match kind
    case CODES => c.ls[|c.ls| - 1] <= c.root && Pow2(c.root) <= size
    case LENS => ENOUGH_LENS <= size
    case DISTS => ENOUGH_DISTS <= size
  }

  predicate TooMany(kind: CodeType, used: nat)
  {
    (kind == LENS && used > ENOUGH_LENS) || (kind == DISTS && used > ENOUGH_DISTS)
  }

  // Enter symbol s at the cursor.
  method EnterSymbol(table: array<Code>, start: nat, k: Cursor, kind: CodeType, sym: nat, len: nat, huff: nat,
    ghost c: Spec, ghost s: nat)
    requires start <= table.Length && Good(c) && kind == c.kind && s < |c.ls| && sym == c.order[s] && len == c.ls[s]
      && huff == Huff(c.ls, s)
    requires Ready(table[start..], c, k, s) && Done(table[start..], c, k.used, s)
    modifies table
    ensures Done(table[start..], c, k.used, s + 1) && Ready(table[start..], c, k, s)
    ensures forall i: nat :: i < start || start + k.used <= i < table.Length ==> table[i] == old(table[i])
  {
    hide Pow2, Rev, Start, Entry, Done;
    ghost var t := table[start..];
    GoodMeans(c);
    SymbolKnown(c, s);
    var here := Entry(kind, sym, len - k.drop);
    ghost var q := CursorFits(t, c, k, s);
    Replicate(table, start + k.next, k.curr, Pow2(len - k.drop), Quotient(huff, Pow2(k.drop)), here, q);
    FilledShift(old(table[..]), table[..], start, k.next, Pow2(k.curr), Pow2(len - k.drop),
      Quotient(huff, Pow2(k.drop)), here);
    if len <= c.root {
      EnterRoot(t, table[start..], c, k, s);
    } else {
      EnterSub(t, table[start..], c, k, s);
    }
    StillReady(t, table[start..], c, k, s);
  }

  // Enter symbol s and increment the code backwards.
  method EnterNext(table: array<Code>, start: nat, k: Cursor, kind: CodeType, sym: nat, len: nat, huff0: nat,
    ghost c: Spec, ghost s: nat) returns (huff: nat)
    requires start <= table.Length && Good(c) && kind == c.kind && s < |c.ls| && sym == c.order[s] && len == c.ls[s]
      && huff0 == Huff(c.ls, s)
    requires Ready(table[start..], c, k, s) && Done(table[start..], c, k.used, s)
    modifies table
    ensures Done(table[start..], c, k.used, s + 1) && Ready(table[start..], c, k, s) && huff == Huff(c.ls, s + 1)
    ensures forall i: nat :: i < start || start + k.used <= i < table.Length ==> table[i] == old(table[i])
  {
    hide Pow2, Rev, Start, Entry, Done, Ready, Next;
    EnterSymbol(table, start, k, kind, sym, len, huff0, c, s);
    HuffNext(c.ls, s);
    ghost var cw := CodeWord(c.ls, s);
    huff := IncrementBackwards(huff0, len);
  }

  lemma StillReady(t: seq<Code>, t': seq<Code>, c: Spec, k: Cursor, s: nat)
    requires Good(c) && s < |c.ls| && Ready(t, c, k, s) && |t'| == |t|
    requires forall i: nat :: i < k.next ==> t'[i] == t[i]
    ensures Ready(t', c, k, s)
  {
    hide Pow2, Rev, Start, Entry;
  }

  lemma SymbolKnown(c: Spec, s: nat)
    requires Good(c) && s < |c.ls|
    ensures c.order[s] < Alphabet(c.kind) && Made(c, s, 0) == Entry(c.kind, c.order[s], 0)
  {
  }

  // The code word, without the dropped bits, fits the table's index.
  lemma CursorFits(t: seq<Code>, c: Spec, k: Cursor, s: nat) returns (q: nat)
    requires Good(c) && s < |c.ls| && Ready(t, c, k, s)
    ensures k.drop < c.ls[s] && k.drop == (if c.ls[s] <= c.root then 0 else c.root) && k.next + Pow2(k.curr) <= |t|
    ensures Quotient(Huff(c.ls, s), Pow2(k.drop)) < Pow2(c.ls[s] - k.drop)
    ensures Pow2(k.curr) == q * Pow2(c.ls[s] - k.drop)
    ensures c.ls[s] <= c.root
      ==> k.next == 0 && k.curr == c.root && Quotient(Huff(c.ls, s), Pow2(k.drop)) == Huff(c.ls, s)
  {
    hide Pow2, Rev, Start, Entry;
    GoodMeans(c);
    var l, d := c.ls[s], (if c.ls[s] <= c.root then 0 else c.root);
    var cw := CodeWord(c.ls, s);
    SplitCode(Huff(c.ls, s), d, l - d);
    assert Pow2(0) == 1 by { NoBits(); }
    assert l <= d + k.curr by { assert Low(c, s) == Low(c, s); }
    Pow2Add(k.curr - (l - d), l - d);
    q := Pow2(k.curr - (l - d));
    SmallMod(Huff(c.ls, s), Pow2(l));
    assert Quotient(Huff(c.ls, s), Pow2(d)) == Quotient(Huff(c.ls, s), Pow2(d)) % Pow2(l - d);
  }

  lemma NoBits()
    ensures Pow2(0) == 1 && Pow2(1) == 2
  {
  }

  lemma FilledShift(a: seq<Code>, a': seq<Code>, start: nat, p: nat, size: nat, step: nat, r: nat, h: Code)
    requires step > 0 && start <= |a| && Filled(a, a', start + p, size, step, r, h)
    ensures Filled(a[start..], a'[start..], p, size, step, r, h)
  {
    var t, t' := a[start..], a'[start..];
    forall j: nat | j < size ensures FilledAt(t, t', p, step, r, h, j) {
      assert FilledAt(a, a', start + p, step, r, h, j);
    }
    forall i: nat | i < |t| && !(p <= i < p + size) ensures t'[i] == t[i] { assert a'[start + i] == a[start + i]; }
  }

  // The table for the next symbol: the same one, or a new sub-table if it opens a
  // block too long for the root table. False when the space runs out.
  method NextTable(table: array<Code>, start: nat, kind: CodeType, count: array<nat>, len: nat, huff: nat, root: nat,
    max: nat, k0: Cursor, ghost c: Spec, ghost s: nat) returns (ok: bool, k: Cursor)
    requires start <= table.Length && Good(c) && s + 1 < |c.ls| && Counted(count[..], c.ls, s + 1)
    requires kind == c.kind && root == c.root && max == c.ls[|c.ls| - 1] && len == c.ls[s + 1]
      && huff == Huff(c.ls, s + 1)
    requires Ready(table[start..], c, k0, s) && Done(table[start..], c, k0.used, s + 1)
    requires Room(kind, c, table.Length - start) && k0.used == Space(c, s) && !TooMany(kind, k0.used)
    modifies table
    ensures ok <==> !TooMany(kind, Space(c, s + 1))
    ensures ok ==> k0.used <= k.used == Space(c, s + 1) <= table.Length - start
    ensures ok ==> Ready(table[start..], c, k, s + 1) && Done(table[start..], c, k.used, s + 1)
    ensures forall i: nat :: i < start || (ok && start + k.used <= i < table.Length) ==> table[i] == old(table[i])
  {
    hide Pow2, Rev, Start, Entry, Done, Ready, Counted, Rem, Spacious, Space, SubBits;
    GoodMeans(c);
    ReadyMeans(table[start..], c, k0, s);
    SpaceNext(c, s);
    ok, k := true, k0;
    if len > root && huff % Pow2(root) != k.low {
      OpensBlock(table[start..], c, k, s);
      var curr := LookAhead(count, len, root, max, c, s + 1);
      var next := k.next + Pow2(k.curr);
      var used := k.used + Pow2(curr);
      if TooMany(kind, used) { return false, k; }
      Open(table[start..], c, k, s, curr);
      ghost var t := table[start..];
      table[start + huff % Pow2(root)] := Code(curr, root, next);
      assert table[start..] == t[Low(c, s + 1) := Code(curr, root, next)];
      k := Cursor(next, curr, root, huff % Pow2(root), used);
    } else {
      Stay(table[start..], c, k, s);
    }
  }

  // All codes, from the shortest to the longest. False when the space runs out.
  method FillTable(table: array<Code>, start: nat, kind: CodeType, lens: array<byte>, from: nat, work: array<nat>,
    count: array<nat>,
                   min: nat, max: nat, root: nat, ghost c: Spec)
    returns (ok: bool, k: Cursor, huff: nat)
    requires start <= table.Length && Good(c) && c.ls != [] && kind == c.kind && root == c.root
    requires min == c.ls[0] && max == c.ls[|c.ls| - 1] && min <= root <= max && Room(kind, c, table.Length - start)
    requires work != count && |c.ls| <= work.Length && work[..|c.ls|] == c.order
    requires forall s :: 0 <= s < |c.ls| ==> from + c.order[s] < lens.Length && lens[from + c.order[s]] == c.ls[s]
    requires Counted(count[..], c.ls, 0)
    modifies table, count
    ensures ok ==> Pow2(root) <= k.used <= table.Length - start && Done(table[start..], c, k.used, |c.ls|)
                   && huff == Huff(c.ls, |c.ls|)
    ensures ok && max <= root ==> k.next == 0 && k.drop == 0 && k.used == Pow2(root)
    ensures ok <==> !TooMany(kind, Space(c, |c.ls| - 1))
    ensures ok ==> k.used == Space(c, |c.ls| - 1)
    ensures forall i: nat :: i < start || (ok && start + k.used <= i < table.Length) ==> table[i] == old(table[i])
  {
    hide Pow2, Rev, Start, Entry, Done, Ready, Counted, Rem, Next, Spacious, Space, SubBits;
    GoodMeans(c);
    FirstHuff(c.ls);
    huff := 0;
    var sym := 0;
    var len := min;
    k := Cursor(0, root, 0, -1, Pow2(root));
    SpaceStart(c);
    if TooMany(kind, k.used) {
      SpaceGrows(c, 0, |c.ls| - 1);
      return false, k, huff;
    }
    FirstReady(table[start..], c, k);
    while true
      invariant 0 <= sym < |c.ls| && len == c.ls[sym] && huff == Huff(c.ls, sym)
      invariant Counted(count[..], c.ls, sym) && work[..|c.ls|] == c.order
      invariant Ready(table[start..], c, k, sym) && Done(table[start..], c, k.used, sym)
      invariant forall i: nat :: i < start || start + k.used <= i < table.Length ==> table[i] == old(table[i])
      invariant k.used <= table.Length - start && k.used == Space(c, sym) && !TooMany(kind, k.used)
      decreases |c.ls| - sym
    {
      ghost var s := sym;
      huff := EnterNext(table, start, k, kind, work[sym], len, huff, c, s);
      sym := sym + 1;
      CountedStep(count[..], c.ls, s);
      count[len] := count[len] - 1;
      ReadyMeans(table[start..], c, k, s);
      if count[len] == 0 {
        if len == max { break; }
        len := lens[from + work[sym]];
      }
      ok, k := NextTable(table, start, kind, count, len, huff, root, max, k, c, s);
      if !ok {
        SpaceGrows(c, sym, |c.ls| - 1);
        return;
      }
    }
    ok := true;
  }

  lemma FirstHuff(ls: seq<nat>)
    requires Ascending(ls)
    ensures Huff(ls, 0) == 0
  {
    RevZero(MAXBITS);
  }

  lemma FirstReady(t: seq<Code>, c: Spec, k: Cursor)
    requires Good(c) && c.ls != [] && c.ls[0] <= c.root && Pow2(c.root) <= |t|
      && k == Cursor(0, c.root, 0, -1, Pow2(c.root))
    ensures Ready(t, c, k, 0) && Done(t, c, k.used, 0)
  {
  }

  // One fewer of the current length; the next symbol is of the same length unless none is left.
  lemma CountedStep(count: seq<nat>, ls: seq<nat>, s: nat)
    requires Ascending(ls) && s < |ls| && Counted(count, ls, s)
    ensures 1 <= ls[s] < |count| && count[ls[s]] > 0 && Counted(count[ls[s] := count[ls[s]] - 1], ls, s + 1)
    ensures count[ls[s]] > 1 ==> s + 1 < |ls| && ls[s + 1] == ls[s]
    ensures count[ls[s]] == 1 && ls[s] == ls[|ls| - 1] ==> s + 1 == |ls|
    ensures count[ls[s]] == 1 && ls[s] != ls[|ls| - 1] ==> s + 1 < |ls|
  {
    RemPositive(ls, s + 1, ls[s]);
  }

  lemma ReadyMeans(t: seq<Code>, c: Spec, k: Cursor, s: nat)
    requires Good(c) && s < |c.ls| && Ready(t, c, k, s)
    ensures k.next + Pow2(k.curr) == k.used && Pow2(c.root) <= k.used <= |t|
    ensures c.ls[s] <= c.root ==> k.low == -1 && k.next == 0 && k.drop == 0 && k.used == Pow2(c.root)
    ensures c.ls[s] > c.root ==> k.low == Low(c, s)
  {
  }

  lemma OpensBlock(t: seq<Code>, c: Spec, k: Cursor, s: nat)
    requires Good(c) && s + 1 < |c.ls| && Ready(t, c, k, s) && c.ls[s + 1] > c.root && k.low != Low(c, s + 1)
    ensures Start(c.ls, s + 1) == Block(c.ls, s + 1, c.root) * Width(c.root)
  {
    hide Pow2, Rev, Start, Entry, Width, Block;
    GoodMeans(c);
    ReadyMeans(t, c, k, s);
    SameBlock(c.ls, s, s + 1, c.root);
    BlockOpens(c.ls, s + 1, c.root);
  }

  lemma {:induction false} AllOne(ls: seq<nat>, n: nat)
    requires Ascending(ls) && n <= |ls| && forall i :: 0 <= i < |ls| ==> ls[i] == 1
    ensures Start(ls, n) == n * Pow2(MAXBITS - 1)
  {
    hide Pow2;
    if n > 0 {
      AllOne(ls, n - 1);
      MulDist(n - 1, 1, Pow2(MAXBITS - 1));
    }
  }

  // Lengths that pass the checks and are not complete are one code of one bit.
  lemma IncompleteIsOneBit(ls: seq<nat>)
    requires Fits(ls) && ls != [] && ls[|ls| - 1] == 1 && Start(ls, |ls|) < Pow2(MAXBITS)
    ensures ls == [1]
  {
    hide Pow2, Start;
    AllOne(ls, |ls|);
    Pow2Step(MAXBITS);
    MulCancelLess(Pow2(MAXBITS - 1), |ls|, 2);
  }

  // What was entered depends only on the space in use.
  lemma Trimmed(t: seq<Code>, c: Spec, used: nat, s: nat)
    requires Good(c) && s <= |c.ls| && Pow2(c.root) <= used <= |t| && Done(t, c, used, s)
    ensures Done(t[..used], c, used, s)
  {
    hide Pow2, Rev, Start, Entry, Quotient;
    GoodMeans(c);
    forall u | 0 <= u < s ensures Entered(t[..used], c, used, u) {
      assert Entered(t, c, used, u);
      if c.ls[u] > c.root { TrimHeld(t, c, used, u); }
    }
  }

  lemma TrimHeld(t: seq<Code>, c: Spec, used: nat, u: nat)
    requires Good(c) && u < |c.ls| && c.ls[u] > c.root && Linked(t, c, used, u)
    ensures Held(t[..used], c, u, t[Low(c, u)].val, t[Low(c, u)].op)
  {
    hide Pow2, Rev, Start, Entry, Quotient;
    GoodMeans(c);
    var h := t[Low(c, u)];
    forall j: nat | j < Pow2(h.op) ensures HeldAt(t[..used], c, u, h.val, j) { assert HeldAt(t, c, u, h.val, j); }
  }

  // The lengths are refused: too many codes, or too few.
  ghost predicate Refused(kind: CodeType, ls: seq<nat>)
    requires Ascending(ls)
  {
    ls != [] && (Start(ls, |ls|) > Pow2(MAXBITS)
      || (Start(ls, |ls|) < Pow2(MAXBITS) && (kind == CODES || ls[|ls| - 1] != 1)))
  }

  // The entry left over when the code is incomplete.
  method MarkRest(table: array<Code>, start: nat, k: Cursor, huff: nat, len: nat, ghost c: Spec)
    requires Good(c) && c.ls != [] && Pow2(c.root) <= k.used && start + k.used <= table.Length
    requires huff == Huff(c.ls, |c.ls|) && len == c.ls[|c.ls| - 1] && c.root <= len
    requires Start(c.ls, |c.ls|) < Pow2(MAXBITS) ==> len == 1
    requires len == 1 ==> k.next == 0 && k.drop == 0
    requires Done(table[start..start + k.used], c, k.used, |c.ls|)
    modifies table
    ensures Done(table[start..start + k.used], c, k.used, |c.ls|)
    ensures Start(c.ls, |c.ls|) < Pow2(MAXBITS)
      ==> c.ls == [1] && k.used >= 2 && table[start + 1] == Code(INVALID, 1, 0)
    ensures forall i: nat :: i < start || start + k.used <= i < table.Length ==> table[i] == old(table[i])
  {
    hide Pow2, Rev, Start, Entry, Done;
    GoodMeans(c);
    LastHuff(c, huff);
    if huff != 0 {
      IncompleteIsOneBit(c.ls);
      NoBits();
      ghost var t := table[start..start + k.used];
      MarkerKeeps(t, c, k.used);
      table[start + k.next + huff] := Code(INVALID, len - k.drop, 0);
      assert table[start..start + k.used] == t[1 := Code(INVALID, 1, 0)];
    }
  }

  // The space the caller provides.
  ghost predicate Provided(kind: CodeType, s: seq<byte>, bits: nat, size: nat)
  {
    match kind
    case CODES => 2 <= Pow2(bits) <= size && forall i :: 0 <= i < |s| ==> s[i] <= bits
    case LENS => ENOUGH_LENS <= size
    case DISTS => ENOUGH_DISTS <= size
  }

  // The table is filled: what is left over is marked, and the table decodes.
  method Complete(table: array<Code>, start: nat, kind: CodeType, k: Cursor, huff: nat, len: nat, ghost s: seq<byte>,
    ghost root: nat)
    requires Bounded(s) && |s| <= Alphabet(kind) && 1 <= root <= MAXBITS && Good(SpecOf(kind, s, root))
    requires Sorted(s) != [] && Accepted(kind, Sorted(s)) && Pow2(root) <= k.used && start + k.used <= table.Length
    requires huff == Huff(Sorted(s), |Sorted(s)|) && len == Sorted(s)[|Sorted(s)| - 1] && root <= len
    requires len == 1 ==> k.next == 0 && k.drop == 0
    requires Done(table[start..], SpecOf(kind, s, root), k.used, |Sorted(s)|)
    modifies table
    ensures Decodes(table[start..start + k.used], root, kind, s)
    ensures forall i: nat :: i < start || start + k.used <= i < table.Length ==> table[i] == old(table[i])
  {
    hide Pow2, Rev, Start, Entry, Done, Decodes, Sorted, Order, Good;
    ghost var c := SpecOf(kind, s, root);
    Trimmed(table[start..], c, k.used, |c.ls|);
    assert table[start..start + k.used] == table[start..][..k.used];
    MarkRest(table, start, k, huff, len, c);
    FinishedDecodes(table[start..start + k.used], kind, s, root, k.used);
  }

  // Sort the symbols of acceptable lengths and fill the table. False when the space runs out.
  method BuildAccepted(kind: CodeType, lens: array<byte>, from: nat, codes: nat, table: array<Code>, start: nat,
    bits: nat, work: array<nat>,
                       count: array<nat>, min: nat, max: nat, root: nat)
    returns (ok: bool, used: nat)
    requires from + codes <= lens.Length && codes <= Alphabet(kind) && codes <= work.Length
      && Bounded(lens[from..from + codes])
    requires start <= table.Length && Provided(kind, lens[from..from + codes], bits, table.Length - start)
    requires var ls := Sorted(lens[from..from + codes]);
             Fits(ls) && ls != [] && Accepted(kind, ls) && min == ls[0] && max == ls[|ls| - 1] && min <= root <= max
               && (bits >= max ==> root == max)
    requires root <= bits || root == min
    requires count.Length == MAXBITS + 1 && count != work && forall l: nat :: l <= MAXBITS
                                                               ==> count[l] == Occ(lens[from..from + codes], l, codes)
    modifies table, work, count
    ensures ok <==> !TooMany(kind, SpaceNeeded(kind, lens[from..from + codes], root))
    ensures ok ==> used == SpaceNeeded(kind, lens[from..from + codes], root)
    ensures ok ==> start + used <= table.Length
                   && Decodes(table[start..start + used], root, kind, lens[from..from + codes])
    ensures forall i: nat :: i < start || (ok && start + used <= i < table.Length) ==> table[i] == old(table[i])
  {
    hide Pow2, Rev, Start, Entry, Done, Rem, Occ, Decodes, Sorted, Order, Good, Room, Space;
    ghost var s := lens[from..from + codes];
    ghost var ls := Sorted(s);
    forall l: nat | 1 <= l <= MAXBITS ensures count[l] == Rem(ls, 0, l) { RemIsCount(s, l); }
    SortSymbols(lens, from, codes, count, work);
    ghost var c := SpecOf(kind, s, root);
    SpecGood(kind, s, root);
    Located(lens, from, codes);
    assert Order(s)[|ls| - 1] < codes && s[Order(s)[|ls| - 1]] == lens[from + Order(s)[|ls| - 1]];
    HasRoom(kind, c, table.Length - start, bits);
    var k, huff;
    ok, k, huff := FillTable(table, start, kind, lens, from, work, count, min, max, root, c);
    used := k.used;
    if ok { Complete(table, start, kind, k, huff, max, s, root); }
  }

  // Lengths that are not refused, for which the root table and the sub-tables are too large.
  ghost predicate OutOfSpace(kind: CodeType, lens: seq<byte>, bits: nat)
    requires Bounded(lens) && |lens| <= Alphabet(kind) && 1 <= bits <= MAXBITS
  {
    SortedAscends(lens);
    var ls := Sorted(lens);
    !Refused(kind, ls) && ls != [] && TooMany(kind, SpaceNeeded(kind, lens, RootBits(bits, ls)))
  }

  // The entries of the finished table; two for the marker of a code without symbols.
  ghost function Allotted(kind: CodeType, lens: seq<byte>, bits: nat): nat
    requires Bounded(lens) && |lens| <= Alphabet(kind) && 1 <= bits <= MAXBITS
  {
    SortedAscends(lens);
    var ls := Sorted(lens);
    if ls == [] || Refused(kind, ls) then 2 else SpaceNeeded(kind, lens, RootBits(bits, ls))
  }

  // inflate_table. ret is 0, -1 for lengths that are refused, or 1 when the
  // space runs out; next is the first free entry and root the index bits.
  method Build(kind: CodeType, lens: array<byte>, from: nat, codes: nat, table: array<Code>, start: nat, bits: nat,
    work: array<nat>)
    returns (ret: int, next: nat, root: nat)
    requires from + codes <= lens.Length && codes <= Alphabet(kind) && codes <= work.Length
      && Bounded(lens[from..from + codes])
    requires 1 <= bits <= MAXBITS && start <= table.Length
      && Provided(kind, lens[from..from + codes], bits, table.Length - start)
    modifies table, work
    ensures ret == 0 || ret == -1 || ret == 1
    ensures Ascending(Sorted(lens[from..from + codes]))
    ensures ret == 1 <==> OutOfSpace(kind, lens[from..from + codes], bits)
    ensures ret == -1 <==> Refused(kind, Sorted(lens[from..from + codes]))
    ensures ret == -1 ==> forall i: nat :: i < table.Length ==> table[i] == old(table[i])
    ensures ret == 0
      ==> next == start + Allotted(kind, lens[from..from + codes], bits) <= table.Length
          && root == RootBits(bits, Sorted(lens[from..from + codes]))
    ensures ret == 0 ==> Decodes(table[start..next], root, kind, lens[from..from + codes])
    ensures ret == 0 ==> Accepted(kind, Sorted(lens[from..from + codes]))
    ensures forall i: nat :: i < start || (ret == 0 && next <= i < table.Length) ==> table[i] == old(table[i])
  {
    hide Pow2, Rev, Start, Entry, Done, Rem, Occ, Decodes, Sorted, Order, Good, Room, SpaceNeeded, Space, SubBits,
      TooMany, Provided;
    ghost var s := lens[from..from + codes];
    ghost var ls := Sorted(s);
    SortedAscends(s);
    var count := new nat[MAXBITS + 1](_ => 0);
    CountLengths(lens, from, codes, count);
    root := bits;
    var min, max := FindBounds(count, ls);
    if root > max { root := max; }
    next := start;
    if max == 0 {
      NoCodes(kind, s, table.Length - start, bits);
      MarkEmpty(table, start, kind, s);
      return 0, start + 2, 1;
    }
    if root < min { root := min; }
    var left := CheckSpace(count, ls);
    if left < 0 { return -1, next, root; }
    if left > 0 && (kind == CODES || max != 1) { return -1, next, root; }
    if left > 0 { IncompleteIsOneBit(ls); }
    var ok, used := BuildAccepted(kind, lens, from, codes, table, start, bits, work, count, min, max, root);
    if !ok { return 1, next, root; }
    next := start + used;
    ret := 0;
  }

  // A table for no symbols at all, to force an error.
  method MarkEmpty(table: array<Code>, start: nat, kind: CodeType, ghost lens: seq<byte>)
    requires start + 2 <= table.Length && Bounded(lens) && |lens| <= Alphabet(kind) && Sorted(lens) == []
    modifies table
    ensures Decodes(table[start..start + 2], 1, kind, lens)
    ensures forall i: nat :: i < table.Length && !(start <= i < start + 2) ==> table[i] == old(table[i])
  {
    hide Decodes, Sorted;
    table[start] := Code(INVALID, 1, 0);
    table[start + 1] := Code(INVALID, 1, 0);
    assert table[start..start + 2] == [Code(INVALID, 1, 0), Code(INVALID, 1, 0)];
    EmptyDecodes(table[start..start + 2], kind, lens);
  }

  // The requested index bits, forced to lie within the code lengths.
  ghost function RootBits(bits: nat, ls: seq<nat>): (root: nat)
    requires 1 <= bits <= MAXBITS && Ascending(ls)
    ensures 1 <= root <= MAXBITS
  {
    if ls == [] then 1 else if bits > ls[|ls| - 1] then ls[|ls| - 1] else if bits < ls[0] then ls[0] else bits
  }

  lemma NoCodes(kind: CodeType, s: seq<byte>, size: nat, bits: nat)
    requires Provided(kind, s, bits, size)
    ensures size >= 2
  {
  }

  // With no symbols at all, every lookup ends at the invalid marker.
  lemma EmptyDecodes(t: seq<Code>, kind: CodeType, lens: seq<byte>)
    requires Bounded(lens) && |lens| <= Alphabet(kind) && Sorted(lens) == []
    requires t == [Code(INVALID, 1, 0), Code(INVALID, 1, 0)]
    ensures Decodes(t, 1, kind, lens)
  {
    NoBits();
    forall x: nat ensures DecodesAt(t, 1, kind, lens, x) {
      assert t[x % Pow2(1)] == Code(INVALID, 1, 0);
    }
    forall i: nat | i < Pow2(1) ensures RootEntry(t, 1, i) {}
  }

  lemma Located(lens: array<byte>, from: nat, codes: nat)
    requires from + codes <= lens.Length
    ensures var s := lens[from..from + codes];
            forall k :: 0 <= k < |Order(s)| ==> Order(s)[k] < codes && lens[from + Order(s)[k]] == Sorted(s)[k]
  {
    hide Occ;
    var s := lens[from..from + codes];
    forall k | 0 <= k < |Order(s)| ensures Order(s)[k] < codes && lens[from + Order(s)[k]] == Sorted(s)[k] {
      OrderIn(s, k);
      assert s[Order(s)[k]] == lens[from + Order(s)[k]];
    }
  }

  lemma HasRoom(kind: CodeType, c: Spec, size: nat, bits: nat)
    requires Good(c) && c.ls != []
    requires kind == CODES ==> c.ls[|c.ls| - 1] <= c.root <= bits && Pow2(bits) <= size
    requires kind == LENS ==> ENOUGH_LENS <= size
    requires kind == DISTS ==> ENOUGH_DISTS <= size
    ensures Room(kind, c, size)
  {
    hide Pow2;
    if kind == CODES { Pow2Mono(c.root, bits); }
  }

  // The incremented last code is 0 exactly when the space is full, and 1 for a single code of one bit.
  lemma LastHuff(c: Spec, huff: nat)
    requires Good(c) && c.ls != [] && huff == Huff(c.ls, |c.ls|)
    ensures huff == 0 <==> Start(c.ls, |c.ls|) == Pow2(MAXBITS)
    ensures c.ls == [1] ==> huff == 1 && Huff(c.ls, 0) == 0
  {
    hide Pow2, Rev;
    GoodMeans(c);
    var e := Start(c.ls, |c.ls|);
    StartStep(c.ls, 0);
    StartMono(c.ls, 1, |c.ls|);
    RevTwice(e, MAXBITS);
    RevZero(MAXBITS);
    if e == Pow2(MAXBITS) {
      RevOfMod(e, MAXBITS, MAXBITS);
      ModUnique(e, e, 1, 0);
    } else {
      SmallMod(e, Pow2(MAXBITS));
    }
    if c.ls == [1] { OneBitHuff(c.ls); }
  }

  lemma OneBitHuff(ls: seq<nat>)
    requires ls == [1]
    ensures Huff(ls, 1) == 1 && Huff(ls, 0) == 0 && Start(ls, 1) < Pow2(MAXBITS)
  {
    hide Rev, Pow2;
    assert Start(ls, 0) == 0 && Start(ls, 1) == Pow2(14);
    RevZero(MAXBITS);
    Pow2Step(MAXBITS);
    RevStep(1, 1);
    RevNothing(0);
    var one: nat := 1;
    RevOfMultiple(one, 1, 14);
  }

  lemma MarkerKeeps(t: seq<Code>, c: Spec, used: nat)
    requires Good(c) && c.ls == [1] && c.root == 1 && Huff(c.ls, 0) == 0 && |t| >= 2 && Done(t, c, used, 1)
    ensures Done(t[1 := Code(INVALID, 1, 0)], c, used, 1)
  {
    hide Pow2, Rev, Start, Entry;
    NoBits();
    assert Entered(t, c, used, 0);
  }
}
