// makeCodes, codes2map and FrevCodes of unzipjs.js: in-place passes over a
// Huffman "tree", the flat array [code0, len0, code1, len1, ...], and over
// the direct-lookup map indexed by the next stream bits.

module Trees {
  import opened Arith
  import opened Huffman

  /** The code lengths of a tree: its odd elements. */
  function Lens(t: seq<nat>): (L: seq<nat>)
    ensures |L| == |t| / 2 && forall s | 0 <= s < |L| :: L[s] == t[2 * s + 1]
  {
    seq(|t| / 2, s requires 0 <= s < |t| / 2 => t[2 * s + 1])
  }

  /** The codes of a tree: its even elements. */
  function CodesOf(t: seq<nat>): (C: seq<nat>)
    ensures |C| == |t| / 2 && forall s | 0 <= s < |C| :: C[s] == t[2 * s]
  {
    seq(|t| / 2, s requires 0 <= s < |t| / 2 => t[2 * s])
  }

  /** Every length is at most maxBits and every nonzero-length code fits its length. */
  predicate CodesFit(t: seq<nat>, maxBits: nat)
  {
    forall s | 0 <= s < |t| / 2 :: t[2 * s + 1] <= maxBits && t[2 * s] < Pow2(t[2 * s + 1])
  }

  /**
   * `makeCodes`: count the symbols of each length, compute the first code of
   * each length, then hand out consecutive codes in symbol order. `next_code`
   * is a Uint16Array, so codes are kept modulo 2^16; zero-length symbols keep
   * their code slot.
   */
  method MakeCodes(tree: array<nat>, maxBits: nat)
    requires tree.Length % 2 == 0 && maxBits <= MaxLen
    requires forall s | 0 <= s < tree.Length / 2 :: tree[2 * s + 1] <= maxBits
    modifies tree
    ensures CodesAssigned(old(tree[..]), tree[..])
  {
    ghost var L := Lens(tree[..]);
    var blCount := CountLengths(tree);
    blCount[0] := 0;
    var nextCode := FirstCodes(blCount, maxBits, L);
    AssignCodes(tree, nextCode, maxBits, L);
  }

  /** The last loop of makeCodes: `tree[n] = next_code[len]++` for every symbol of nonzero length. */
  method AssignCodes(tree: array<nat>, nextCode: array<nat>, maxBits: nat, ghost L: seq<nat>)
    requires tree != nextCode && nextCode.Length == 16 && maxBits <= MaxLen
    requires tree.Length % 2 == 0 && L == Lens(tree[..])
    requires forall s | 0 <= s < |L| :: L[s] <= maxBits
    requires forall b | 1 <= b <= maxBits :: nextCode[b] == Wrap16(NextCode(L, b))
    modifies tree, nextCode
    ensures CodesAssigned(old(tree[..]), tree[..])
  {
    ghost var t0, n0 := tree[..], nextCode[..];
    LensBound(t0, L, maxBits);
    AssignAll(tree, nextCode);
    AssignedFinal(L, t0, n0, maxBits, tree[..]);
  }

  /** The loop itself: every symbol in turn, as AssignUpTo describes. */
  method AssignAll(tree: array<nat>, nextCode: array<nat>)
    requires tree != nextCode && nextCode.Length == 16 && tree.Length % 2 == 0
    requires forall u | 0 <= u < tree.Length / 2 :: tree[2 * u + 1] <= MaxLen
    modifies tree, nextCode
    ensures Assignment(tree[..], nextCode[..]) == AssignUpTo(old(tree[..]), old(nextCode[..]), tree.Length / 2)
  {
    ghost var t0, n0 := tree[..], nextCode[..];
    var n := tree.Length / 2;
    var s := 0;
    while s < n
      invariant 0 <= s <= n
      invariant Assignment(tree[..], nextCode[..]) == AssignUpTo(t0, n0, s)
    {
      AssignNext(tree, nextCode, s, t0, n0);
      s := s + 1;
    }
  }

  /** Round s of the loop, from the state AssignUpTo describes after s rounds to the one after s + 1. */
  method AssignNext(tree: array<nat>, nextCode: array<nat>, s: nat, ghost t0: seq<nat>, ghost n0: seq<nat>)
    requires tree != nextCode && nextCode.Length == 16 && |t0| % 2 == 0 && s < |t0| / 2 && |n0| == 16
    requires forall u | 0 <= u < |t0| / 2 :: t0[2 * u + 1] <= MaxLen
    requires Assignment(tree[..], nextCode[..]) == AssignUpTo(t0, n0, s)
    modifies tree, nextCode
    ensures Assignment(tree[..], nextCode[..]) == AssignUpTo(t0, n0, s + 1)
  {
    AssignUpToNext(t0, n0, s);
    AssignOne(tree, nextCode, s);
  }

  lemma LensBound(t: seq<nat>, L: seq<nat>, maxBits: nat)
    requires |t| % 2 == 0 && L == Lens(t)
    requires forall s | 0 <= s < |L| :: L[s] <= maxBits
    ensures forall u | 0 <= u < |t| / 2 :: t[2 * u + 1] <= maxBits
  {
    forall u | 0 <= u < |t| / 2
      ensures t[2 * u + 1] <= maxBits
    {
      assert t[2 * u + 1] == L[u];
    }
  }

  /** The loop's next round is one more AssignStep. */
  lemma AssignUpToNext(t: seq<nat>, next: seq<nat>, s: nat)
    requires |t| % 2 == 0 && s < |t| / 2 && |next| == 16
    requires forall u | 0 <= u < |t| / 2 :: t[2 * u + 1] <= MaxLen
    ensures AssignUpTo(t, next, s).tree[2 * s + 1] <= MaxLen
    ensures AssignUpTo(t, next, s + 1) == AssignStep(AssignUpTo(t, next, s), s)
  {
  }

  /** After the last round the tree holds the canonical codes. */
  lemma AssignedFinal(L: seq<nat>, t: seq<nat>, next: seq<nat>, maxBits: nat, final: seq<nat>)
    requires |t| % 2 == 0 && L == Lens(t) && |next| == 16 && maxBits <= MaxLen
    requires forall u | 0 <= u < |t| / 2 :: t[2 * u + 1] <= maxBits
    requires forall b | 1 <= b <= maxBits :: next[b] == Wrap16(NextCode(L, b))
    requires final == AssignUpTo(t, next, |L|).tree
    ensures CodesAssigned(t, final)
  {
    AssignUpToCodes(L, t, next, |L|, maxBits);
    AssignedAll(L, t, AssignUpTo(t, next, |L|), maxBits);
  }

  /**
   * t is t0 after makeCodes: the same lengths, the canonical code (modulo
   * 2^16) at every symbol of nonzero length, and the old slot at the others.
   */
  ghost predicate CodesAssigned(t0: seq<nat>, t: seq<nat>)
  {
    |t| == |t0| && Lens(t) == Lens(t0) &&
    forall s | 0 <= s < |t| / 2 :: t[2 * s] == if t0[2 * s + 1] != 0 then Wrap16(Code(Lens(t0), s)) else t0[2 * s]
  }

  /** Once every symbol has been handed its code, the lengths are untouched and the codes are canonical. */
  lemma AssignedAll(L: seq<nat>, t: seq<nat>, a: Assignment, maxBits: nat)
    requires |t| % 2 == 0 && L == Lens(t) && maxBits <= MaxLen
    requires AssignedUpTo(L, t, a, |L|, maxBits)
    ensures Lens(a.tree) == L
    ensures forall s | 0 <= s < |L| :: a.tree[2 * s] == if L[s] != 0 then Wrap16(Code(L, s)) else t[2 * s]
  {
    assert Lens(a.tree) == L;
  }

  /** One step of the last loop of makeCodes. */
  method AssignOne(tree: array<nat>, nextCode: array<nat>, s: nat)
    requires tree != nextCode && nextCode.Length == 16 && 2 * s + 1 < tree.Length && tree[2 * s + 1] <= MaxLen
    modifies tree, nextCode
    ensures Assignment(tree[..], nextCode[..]) == AssignStep(Assignment(old(tree[..]), old(nextCode[..])), s)
  {
    var len := tree[2 * s + 1];
    if len != 0 {
      tree[2 * s] := nextCode[len];
      nextCode[len] := Wrap16(nextCode[len] + 1);
    }
  }

  /** The tree and `next_code` while the last loop of makeCodes runs. */
  datatype Assignment = Assignment(tree: seq<nat>, next: seq<nat>)

  /** Symbol s takes `next_code[len]` as its code and post-increments it, unless its length is 0. */
  function AssignStep(a: Assignment, s: nat): (r: Assignment)
    requires 2 * s + 1 < |a.tree| && |a.next| == 16 && a.tree[2 * s + 1] <= MaxLen
    ensures |r.tree| == |a.tree| && |r.next| == 16
    ensures forall u | 0 <= u < |a.tree| / 2 :: r.tree[2 * u + 1] == a.tree[2 * u + 1]
  {
    var len := a.tree[2 * s + 1];
    if len == 0 then a
    else Assignment(a.tree[2 * s := a.next[len]], a.next[len := Wrap16(a.next[len] + 1)])
  }

  /** The state after symbols 0 .. s-1 have been handed their codes. */
  function AssignUpTo(t: seq<nat>, next: seq<nat>, s: nat): (r: Assignment)
    requires |t| % 2 == 0 && s <= |t| / 2 && |next| == 16
    requires forall u | 0 <= u < |t| / 2 :: t[2 * u + 1] <= MaxLen
    ensures |r.tree| == |t| && |r.next| == 16
    ensures forall u | 0 <= u < |t| / 2 :: r.tree[2 * u + 1] == t[2 * u + 1]
    decreases s
  {
    if s == 0 then Assignment(t, next) else AssignStep(AssignUpTo(t, next, s - 1), s - 1)
  }

  /** What the last loop of makeCodes keeps after s symbols, started from the first code of every length. */
  predicate AssignedUpTo(L: seq<nat>, t: seq<nat>, a: Assignment, s: nat, maxBits: nat)
    requires |t| % 2 == 0 && L == Lens(t) && s <= |L| && maxBits <= MaxLen
  {
    |a.tree| == |t| && |a.next| == 16 && LensKept(L, a) && NextAfter(L, a, s, maxBits) && CodesAfter(L, t, a, s)
  }

  /** The lengths are where they were. */
  predicate LensKept(L: seq<nat>, a: Assignment)
  {
    |L| <= |a.tree| / 2 && forall u | 0 <= u < |L| :: a.tree[2 * u + 1] == L[u]
  }

  /** `next_code[b]` is one past the codes of length b handed out to the first s symbols. */
  predicate NextAfter(L: seq<nat>, a: Assignment, s: nat, maxBits: nat)
    requires s <= |L| && maxBits <= MaxLen && |a.next| == 16
  {
    forall b | 1 <= b <= maxBits :: a.next[b] == Wrap16(NextCode(L, b) + CountLen(L[..s], b))
  }

  /** The first s symbols of nonzero length hold their canonical codes; the other slots are as they were. */
  predicate CodesAfter(L: seq<nat>, t: seq<nat>, a: Assignment, s: nat)
    requires |t| % 2 == 0 && L == Lens(t) && s <= |L| && |a.tree| == |t|
  {
    forall u | 0 <= u < |L| :: a.tree[2 * u] == if u < s && L[u] != 0 then Wrap16(Code(L, u)) else t[2 * u]
  }

  /**
   * Started from the first code of every length, the loop hands symbol u its
   * canonical code (modulo 2^16) and leaves `next_code[b]` one past the codes
   * of length b handed out so far.
   */
  lemma {:induction false} AssignUpToCodes(L: seq<nat>, t: seq<nat>, next: seq<nat>, s: nat, maxBits: nat)
    requires |t| % 2 == 0 && L == Lens(t) && s <= |L| && |next| == 16 && maxBits <= MaxLen
    requires forall u | 0 <= u < |t| / 2 :: t[2 * u + 1] <= maxBits
    requires forall b | 1 <= b <= maxBits :: next[b] == Wrap16(NextCode(L, b))
    ensures AssignedUpTo(L, t, AssignUpTo(t, next, s), s, maxBits)
  {
    if s == 0 {
      assert L[..0] == [];
    } else {
      AssignUpToCodes(L, t, next, s - 1, maxBits);
      AssignStepCodes(L, t, AssignUpTo(t, next, s - 1), s - 1, maxBits);
    }
  }

  /** One step of the loop keeps AssignedUpTo. */
  lemma AssignStepCodes(L: seq<nat>, t: seq<nat>, a: Assignment, k: nat, maxBits: nat)
    requires |t| % 2 == 0 && L == Lens(t) && k < |L| && maxBits <= MaxLen && L[k] <= maxBits
    requires AssignedUpTo(L, t, a, k, maxBits)
    ensures AssignedUpTo(L, t, AssignStep(a, k), k + 1, maxBits)
  {
    var r := AssignStep(a, k);
    assert LensKept(L, r);
    AssignStepNext(L, a, k, maxBits);
    AssignStepTree(L, t, a, k, maxBits);
  }

  /** One step of the loop hands symbol k its code and leaves the other slots alone. */
  lemma AssignStepTree(L: seq<nat>, t: seq<nat>, a: Assignment, k: nat, maxBits: nat)
    requires |t| % 2 == 0 && L == Lens(t) && k < |L| && maxBits <= MaxLen && L[k] <= maxBits
    requires AssignedUpTo(L, t, a, k, maxBits)
    ensures CodesAfter(L, t, AssignStep(a, k), k + 1)
  {
    var r := AssignStep(a, k);
    forall u | 0 <= u < |L|
      ensures r.tree[2 * u] == if u < k + 1 && L[u] != 0 then Wrap16(Code(L, u)) else t[2 * u]
    {
      Parity(u, k);
    }
  }

  /** One step of the loop moves `next_code` of the symbol's length one on. */
  lemma AssignStepNext(L: seq<nat>, a: Assignment, k: nat, maxBits: nat)
    requires 2 * k + 1 < |a.tree| && |a.next| == 16 && k < |L| && a.tree[2 * k + 1] == L[k] <= maxBits <= MaxLen
    requires NextAfter(L, a, k, maxBits)
    ensures NextAfter(L, AssignStep(a, k), k + 1, maxBits)
  {
    forall b | 1 <= b <= maxBits
      ensures AssignStep(a, k).next[b] == Wrap16(NextCode(L, b) + CountLen(L[..k + 1], b))
    {
      AssignStepNextAt(L, a, k, b);
    }
  }

  lemma AssignStepNextAt(L: seq<nat>, a: Assignment, k: nat, b: nat)
    requires 2 * k + 1 < |a.tree| && |a.next| == 16 && k < |L| && a.tree[2 * k + 1] == L[k] <= MaxLen && 1 <= b < 16
    requires a.next[b] == Wrap16(NextCode(L, b) + CountLen(L[..k], b))
    ensures AssignStep(a, k).next[b] == Wrap16(NextCode(L, b) + CountLen(L[..k + 1], b))
  {
    CountPrefixStep(L, k, b);
    NextAt(a, k, b, NextCode(L, b), CountLen(L[..k], b), CountLen(L[..k + 1], b));
  }

  /** `next_code[b]` after symbol k: one on if k has length b, as before otherwise. */
  lemma NextAt(a: Assignment, k: nat, b: nat, base: nat, before: nat, after: nat)
    requires 2 * k + 1 < |a.tree| && |a.next| == 16 && a.tree[2 * k + 1] <= MaxLen && 1 <= b < 16
    requires a.next[b] == Wrap16(base + before)
    requires after == before + if a.tree[2 * k + 1] == b then 1 else 0
    ensures AssignStep(a, k).next[b] == Wrap16(base + after)
  {
    if a.tree[2 * k + 1] == b {
      ModInc(base + before);
    }
  }

  /** The first loop of makeCodes: `bl_count[len]++` over every symbol. */
  method CountLengths(tree: array<nat>) returns (blCount: array<nat>)
    requires tree.Length % 2 == 0
    requires forall s | 0 <= s < tree.Length / 2 :: tree[2 * s + 1] <= MaxLen
    ensures fresh(blCount) && blCount.Length == 16
    ensures forall b | 0 <= b < 16 :: blCount[b] == CountLen(Lens(tree[..]), b)
  {
    ghost var L := Lens(tree[..]);
    var n := tree.Length / 2;
    blCount := new nat[16](_ => 0);
    var s := 0;
    while s < n
      invariant 0 <= s <= n
      invariant forall b | 0 <= b < 16 :: blCount[b] == CountLen(L[..s], b)
    {
      forall b | 0 <= b < 16
        ensures CountLen(L[..s + 1], b) == CountLen(L[..s], b) + (if L[s] == b then 1 else 0)
      {
        CountPrefixStep(L, s, b);
      }
      blCount[tree[2 * s + 1]] := blCount[tree[2 * s + 1]] + 1;
      s := s + 1;
    }
    assert L[..n] == L;
  }

  /** The second loop of makeCodes: `next_code[bits] = code = (code + bl_count[bits-1]) << 1`. */
  method FirstCodes(blCount: array<nat>, maxBits: nat, ghost L: seq<nat>) returns (nextCode: array<nat>)
    requires blCount.Length == 16 && maxBits <= MaxLen
    requires forall b | 0 <= b < 16 :: blCount[b] == if b == 0 then 0 else CountLen(L, b)
    ensures fresh(nextCode) && nextCode.Length == 16
    ensures forall b | 1 <= b <= maxBits :: nextCode[b] == Wrap16(NextCode(L, b))
  {
    nextCode := new nat[16](_ => 0);
    var code := 0;
    var bits := 1;
    while bits <= maxBits
      invariant 1 <= bits <= maxBits + 1
      invariant code == NextCode(L, bits - 1)
      invariant forall b | 1 <= b < bits :: nextCode[b] == Wrap16(NextCode(L, b))
    {
      NextCodeStep(L, bits, code, blCount[bits - 1]);
      code := (code + blCount[bits - 1]) * 2;
      nextCode[bits] := Wrap16(code);
      bits := bits + 1;
    }
  }

  /** `code = (code + bl_count[bits-1]) << 1` moves from the first code of length bits - 1 to that of length bits. */
  lemma NextCodeStep(L: seq<nat>, bits: nat, code: nat, count: nat)
    requires bits >= 1 && code == NextCode(L, bits - 1) && count == if bits == 1 then 0 else CountLen(L, bits - 1)
    ensures NextCode(L, bits) == (code + count) * 2
  {
  }

  lemma Parity(u: nat, s: nat)
    ensures 2 * u + 1 != 2 * s && (u != s ==> 2 * u != 2 * s)
  {
  }

  /** A store into a Uint16Array element: the value modulo 2^16, by repeated subtraction. */
  function Wrap16(x: nat): (r: nat)
    ensures r < 0x1_0000 && (x < 0x1_0000 ==> r == x)
  {
    if x < 0x1_0000 then x else Wrap16(x - 0x1_0000)
  }

  /** A post-increment of a Uint16Array element. */
  lemma {:induction false} ModInc(x: nat)
    ensures Wrap16(Wrap16(x) + 1) == Wrap16(x + 1)
  {
    if x >= 0x1_0000 {
      ModInc(x - 0x1_0000);
    }
  }

  // ---------------------------------------------------------------------
  // codes2map

  /**
   * `codes2map`: for every symbol s of nonzero length l, the slots whose low
   * l bits are its code read backwards (slot indexes are stream bits, least
   * significant first) receive `(s << 4) | l`. The slots are visited by
   * enumerating every M-bit extension of the code and bit-reversing it
   * through rev15. Slots no symbol hits keep what they held.
   */
  method Codes2Map(tree: array<nat>, maxBits: nat, lookup: array<nat>, rev15: array<nat>)
    requires tree.Length % 2 == 0 && tree.Length <= 0x2000 && maxBits <= MaxLen
    requires CodesFit(tree[..], maxBits)
    requires lookup != tree && lookup != rev15 && lookup.Length >= Pow2(maxBits)
    requires RevTable(rev15)
    modifies lookup
    ensures lookup[..] == MapAfter(old(lookup[..]), CodesOf(tree[..]), Lens(tree[..]), maxBits, tree.Length / 2)
  {
    ghost var m0 := lookup[..];
    ghost var t := tree[..];
    ghost var C, L := CodesOf(t), Lens(t);
    var n := tree.Length / 2;
    var s := 0;
    MapAfterNone(m0, C, L, maxBits);
    while s < n
      invariant 0 <= s <= n
      invariant MapHolds(lookup, m0, C, L, maxBits, s)
      invariant tree[..] == t && RevTable(rev15)
    {
      TreeSlot(t, s, maxBits);
      AddSymbol(tree, s, maxBits, lookup, rev15, m0, C, L);
      s := s + 1;
    }
  }

  /** Symbol s of a tree whose codes fit. */
  lemma TreeSlot(t: seq<nat>, s: nat, maxBits: nat)
    requires CodesFit(t, maxBits) && s < |t| / 2
    ensures CodesOf(t)[s] == t[2 * s] && Lens(t)[s] == t[2 * s + 1]
    ensures t[2 * s + 1] <= maxBits && t[2 * s] < Pow2(t[2 * s + 1])
  {
  }

  /** One round of the outer loop of codes2map: symbol s, if its length is nonzero, fills its slots. */
  method AddSymbol(tree: array<nat>, s: nat, maxBits: nat, lookup: array<nat>, rev15: array<nat>,
                   ghost m0: seq<nat>, ghost C: seq<nat>, ghost L: seq<nat>)
    requires tree.Length % 2 == 0 && tree.Length <= 0x2000 && maxBits <= MaxLen && s < tree.Length / 2
    requires s < |C| && s < |L| && C[s] == tree[2 * s] && L[s] == tree[2 * s + 1]
    requires L[s] <= maxBits && C[s] < Pow2(L[s])
    requires lookup != tree && lookup != rev15 && lookup.Length >= Pow2(maxBits) && |m0| == lookup.Length
    requires RevTable(rev15)
    requires MapHolds(lookup, m0, C, L, maxBits, s)
    modifies lookup
    ensures MapHolds(lookup, m0, C, L, maxBits, s + 1)
  {
    var cl := tree[2 * s + 1];
    forall p | 0 <= p < lookup.Length
      ensures SlotAfter(m0[p], C, L, maxBits, s + 1, p) ==
        if L[s] == 0 then SlotAfter(m0[p], C, L, maxBits, s, p)
        else SlotFilled(SlotAfter(m0[p], C, L, maxBits, s, p), C[s], L[s], maxBits - L[s], Pow2(maxBits - L[s]), 16 * s + L[s], p)
    {
      MapStep(m0[p], C, L, maxBits, s, p);
    }
    if cl != 0 {
      FillCode(lookup, rev15, tree[2 * s], cl, maxBits, 16 * s + cl);
    }
  }

  /** The inner loop of codes2map: write v at the bit reversal of every maxBits-bit extension of the l-bit code c. */
  method FillCode(lookup: array<nat>, rev15: array<nat>, c: nat, l: nat, maxBits: nat, v: nat)
    requires lookup != rev15 && RevTable(rev15)
    requires 0 < l <= maxBits <= MaxLen && c < Pow2(l) && lookup.Length >= Pow2(maxBits)
    modifies lookup
    ensures forall p | 0 <= p < lookup.Length ::
      lookup[p] == SlotFilled(old(lookup[p]), c, l, maxBits - l, Pow2(maxBits - l), v, p)
  {
    var rest := maxBits - l;
    var i0 := Shl(c, rest);
    var i1 := i0 + Pow2(rest);
    ghost var prev := lookup[..];
    ghost var base := i0;
    ghost var j := 0;
    while i0 != i1
      invariant i0 == base + j && j <= Pow2(rest) && i1 == base + Pow2(rest)
      invariant Filled(lookup[..], prev, c, l, rest, j, v) && RevTable(rev15)
      decreases Pow2(rest) - j
    {
      FillOne(lookup, rev15, c, l, maxBits, v, i0, j, prev);
      i0, j := i0 + 1, j + 1;
    }
  }

  /** Every slot holds what the inner loop of codes2map leaves after the first j extensions. */
  ghost predicate Filled(m: seq<nat>, prev: seq<nat>, c: nat, l: nat, r: nat, j: nat, v: nat)
  {
    |prev| == |m| && forall p | 0 <= p < |m| :: m[p] == SlotFilled(prev[p], c, l, r, j, v, p)
  }

  /** One round of the inner loop of codes2map: `lookup[rev15[i0] >>> (15 - maxBits)] = v`. */
  method FillOne(lookup: array<nat>, rev15: array<nat>, c: nat, l: nat, maxBits: nat, v: nat, i0: nat,
                 ghost j: nat, ghost prev: seq<nat>)
    requires lookup != rev15 && RevTable(rev15)
    requires 0 < l <= maxBits <= MaxLen && c < Pow2(l) && lookup.Length >= Pow2(maxBits)
    requires j < Pow2(maxBits - l) && i0 == Shl(c, maxBits - l) + j
    requires Filled(lookup[..], prev, c, l, maxBits - l, j, v)
    modifies lookup
    ensures Filled(lookup[..], prev, c, l, maxBits - l, j + 1, v)
  {
    FillIndex(c, l, maxBits, j, i0);
    assert rev15[i0] == Rev(i0, 15);
    var p0 := Ushr(rev15[i0], 15 - maxBits);
    assert p0 == Rev(i0, maxBits) < lookup.Length;
    FilledStep(lookup[..], prev, c, l, maxBits - l, maxBits, j, i0, v);
    Store(lookup, p0, v);
  }

  /** `lookup[p] = v`. */
  method Store(lookup: array<nat>, p: nat, v: nat)
    requires p < lookup.Length
    modifies lookup
    ensures lookup[..] == old(lookup[..])[p := v]
  {
    lookup[p] := v;
  }

  /** Extension j of code c lies inside rev15, and its slot is its reversal over l + r bits. */
  lemma FillIndex(c: nat, l: nat, M: nat, j: nat, x: nat)
    requires 0 < l <= M <= MaxLen && c < Pow2(l) && j < Pow2(M - l) && x == Shl(c, M - l) + j
    ensures x < Pow2(15) && Ushr(Rev(x, 15), 15 - M) == Rev(x, M) < Pow2(M)
  {
    var r := M - l;
    ConcatBound(j, r, c, l);
    assert r + l == M;
    RevShift15(x, M);
  }

  /** Writing v at the slot of extension j moves every slot from j to j + 1 extensions filled. */
  lemma FilledStep(m: seq<nat>, prev: seq<nat>, c: nat, l: nat, r: nat, M: nat, j: nat, x: nat, v: nat)
    requires 0 < l && l + r == M && c < Pow2(l) && j < Pow2(r) && x == Shl(c, r) + j && Rev(x, M) < |m| == |prev|
    requires Filled(m, prev, c, l, r, j, v)
    ensures Filled(m[Rev(x, M) := v], prev, c, l, r, j + 1, v)
  {
    forall p | 0 <= p < |m|
      ensures m[Rev(x, M) := v][p] == SlotFilled(prev[p], c, l, r, j + 1, v, p)
    {
      FillStep(prev[p], c, l, r, j, x, v, p);
    }
  }

  /** The extensions of an l-bit code c by r bits stay below 2^(l+r). */
  lemma ExtensionBound(c: nat, l: nat, r: nat)
    requires c < Pow2(l)
    ensures Shl(c, r) + Pow2(r) <= Pow2(l + r)
  {
    ConcatBound(Pow2(r) - 1, r, c, l);
    assert r + l == l + r;
  }

  /** rev15 holds the 15-bit reversal of every index below 2^15. */
  predicate RevTable(rev15: array<nat>)
    reads rev15
  {
    rev15.Length == Pow2(15) && forall i | 0 <= i < rev15.Length :: rev15[i] == Rev(i, 15)
  }

  /** Every slot of the map is what codes2map leaves after symbols 0 .. s-1, started from m0. */
  predicate MapHolds(lookup: array<nat>, m0: seq<nat>, C: seq<nat>, L: seq<nat>, M: nat, s: nat)
    requires s <= |C| && s <= |L|
    reads lookup
  {
    lookup[..] == MapAfter(m0, C, L, M, s)
  }

  /** The map codes2map leaves after symbols 0 .. s-1, started from m0. */
  function MapAfter(m0: seq<nat>, C: seq<nat>, L: seq<nat>, M: nat, s: nat): (m: seq<nat>)
    requires s <= |C| && s <= |L|
    ensures |m| == |m0| && forall p | 0 <= p < |m0| :: m[p] == SlotAfter(m0[p], C, L, M, s, p)
  {
    seq(|m0|, p requires 0 <= p < |m0| => SlotAfter(m0[p], C, L, M, s, p))
  }

  /** Before any symbol the map is unchanged. */
  lemma MapAfterNone(m0: seq<nat>, C: seq<nat>, L: seq<nat>, M: nat)
    ensures MapAfter(m0, C, L, M, 0) == m0
  {
  }

  /** Slot p of a map that held m, after codes2map has handled symbols 0 .. s-1 for M-bit slots. */
  function SlotAfter(m: nat, C: seq<nat>, L: seq<nat>, M: nat, s: nat, p: nat): nat
    requires s <= |C| && s <= |L|
  {
    if p < Pow2(M) then Entry(C, L, p, s, m) else m
  }

  /**
   * Slot p of a map that held m, while the inner loop of codes2map fills
   * symbol (c, l) with v: the first j of the 2^r extensions of c are done.
   */
  function SlotFilled(m: nat, c: nat, l: nat, r: nat, j: nat, v: nat, p: nat): nat
  {
    if p < Pow2(l + r) && Hits(c, l, p) && Rev(Ushr(p, l), r) < j then v else m
  }

  /**
   * Writing v at the bit reversal x of the (j+1)-th extension of c fills
   * exactly the one further slot SlotFilled counts.
   */
  lemma {:induction false} FillStep(m: nat, c: nat, l: nat, r: nat, j: nat, x: nat, v: nat, p: nat)
    requires 0 < l && c < Pow2(l) && j < Pow2(r) && x == Shl(c, r) + j
    ensures SlotFilled(m, c, l, r, j + 1, v, p) == if p == Rev(x, l + r) then v else SlotFilled(m, c, l, r, j, v, p)
  {
    if p < Pow2(l + r) {
      ExtensionSlot(c, l, r, j, p);
    } else {
      assert Rev(x, l + r) < Pow2(l + r);
    }
  }

  /** Slot p is the bit reversal of extension j of code c exactly when c hits p and the rest of p reverses to j. */
  lemma {:induction false} ExtensionSlot(c: nat, l: nat, r: nat, j: nat, p: nat)
    requires 0 < l && c < Pow2(l) && j < Pow2(r) && p < Pow2(l + r)
    ensures p == Rev(Shl(c, r) + j, l + r) <==> Hits(c, l, p) && Rev(Ushr(p, l), r) == j
  {
    var q := Rev(c, l) + Shl(Rev(j, r), l);
    ExtensionRev(c, l, r, j);
    if p == q {
      SlotOfExtension(c, l, r, j, p);
    }
    if Hits(c, l, p) && Rev(Ushr(p, l), r) == j {
      ExtensionOfSlot(c, l, r, j, p);
    }
  }

  /** The bit reversal of extension j of code c. */
  lemma ExtensionRev(c: nat, l: nat, r: nat, j: nat)
    requires j < Pow2(r)
    ensures Rev(Shl(c, r) + j, l + r) == Rev(c, l) + Shl(Rev(j, r), l)
  {
    RevJoin(c, l, j, r);
  }

  lemma {:induction false} SlotOfExtension(c: nat, l: nat, r: nat, j: nat, p: nat)
    requires 0 < l && j < Pow2(r) && p == Rev(c, l) + Shl(Rev(j, r), l)
    ensures Hits(c, l, p) && Rev(Ushr(p, l), r) == j
  {
    SplitUnique(Rev(c, l), l, Rev(j, r), p);
    RevRev(j, r);
  }

  lemma {:induction false} ExtensionOfSlot(c: nat, l: nat, r: nat, j: nat, p: nat)
    requires 0 < l && p < Pow2(l + r) && Hits(c, l, p) && Rev(Ushr(p, l), r) == j
    ensures p == Rev(c, l) + Shl(Rev(j, r), l)
  {
    var h := Ushr(p, l);
    Split(p, l);
    assert l + r == r + l;
    UshrBound(p, l, r);
    RevRev(h, r);
  }

  /** Handling symbol s turns slot p of the map after s symbols into slot p after s + 1. */
  lemma {:induction false} MapStep(m: nat, C: seq<nat>, L: seq<nat>, M: nat, s: nat, p: nat)
    requires s < |C| && s < |L| && L[s] <= M
    ensures SlotAfter(m, C, L, M, s + 1, p) ==
      if L[s] == 0 then SlotAfter(m, C, L, M, s, p)
      else SlotFilled(SlotAfter(m, C, L, M, s, p), C[s], L[s], M - L[s], Pow2(M - L[s]), 16 * s + L[s], p)
  {
    var l := L[s];
    assert l + (M - l) == M;
  }

  // ---------------------------------------------------------------------
  // FrevCodes

  /**
   * `FrevCodes`: every code of the tree is replaced by its bit reversal over
   * its own length, looked up in rev15 after shifting the code up to
   * maxBits bits and shifting the 15-bit reversal back down.
   */
  method FrevCodes(tree: array<nat>, maxBits: nat, rev15: array<nat>)
    requires tree != rev15 && RevTable(rev15)
    requires tree.Length % 2 == 0 && maxBits <= MaxLen && CodesFit(tree[..], maxBits)
    modifies tree
    ensures Lens(tree[..]) == Lens(old(tree[..]))
    ensures forall s | 0 <= s < tree.Length / 2 :: tree[2 * s] == Rev(old(tree[2 * s]), tree[2 * s + 1])
  {
    var n := tree.Length / 2;
    ghost var t0 := tree[..];
    var s := 0;
    while s < n
      invariant 0 <= s <= n && Frevved(tree[..], t0, s)
    {
      ghost var before := tree[..];
      FrevOne(tree, s, maxBits, rev15);
      FrevvedStep(before, tree[..], t0, s);
      s := s + 1;
    }
    assert Lens(tree[..]) == Lens(t0);
  }

  /** The first s codes of t are those of t0 reversed; everything else is as in t0. */
  ghost predicate Frevved(t: seq<nat>, t0: seq<nat>, s: nat)
  {
    |t| == |t0| && s <= |t| / 2 &&
    (forall u | 0 <= u < |t| / 2 :: t[2 * u + 1] == t0[2 * u + 1]) &&
    (forall u | s <= u < |t| / 2 :: t[2 * u] == t0[2 * u]) &&
    (forall u | 0 <= u < s :: t[2 * u] == Rev(t0[2 * u], t0[2 * u + 1]))
  }

  lemma FrevvedStep(before: seq<nat>, after: seq<nat>, t0: seq<nat>, s: nat)
    requires 2 * s + 1 < |before| && Frevved(before, t0, s)
    requires after == before[2 * s := Rev(before[2 * s], before[2 * s + 1])]
    ensures Frevved(after, t0, s + 1)
  {
    assert before[2 * s] == t0[2 * s] && before[2 * s + 1] == t0[2 * s + 1];
  }

  /** One step of frev: the code of symbol s reversed, the rest of the tree kept. */
  method FrevOne(tree: array<nat>, s: nat, maxBits: nat, rev15: array<nat>)
    requires tree != rev15 && RevTable(rev15) && 2 * s + 1 < tree.Length
    requires tree[2 * s + 1] <= maxBits <= MaxLen && tree[2 * s] < Pow2(tree[2 * s + 1])
    modifies tree
    ensures tree[..] == old(tree[..])[2 * s := Rev(old(tree[2 * s]), old(tree[2 * s + 1]))]
  {
    var c, l := tree[2 * s], tree[2 * s + 1];
    var i0 := Shl(c, maxBits - l);
    FrevEntry(rev15, c, l, maxBits);
    tree[2 * s] := Ushr(rev15[i0], 15 - maxBits);
  }

  /** The rev15 entry frev reads for an l-bit code c, shifted down, is c reversed over l bits. */
  lemma FrevEntry(rev15: array<nat>, c: nat, l: nat, M: nat)
    requires RevTable(rev15) && c < Pow2(l) && l <= M <= MaxLen
    ensures Shl(c, M - l) < rev15.Length
    ensures Ushr(rev15[Shl(c, M - l)], 15 - M) == Rev(c, l)
  {
    var x := Shl(c, M - l);
    ShiftedBound(c, l, M - l, M);
    ShiftedRev(c, l, M - l, M);
    RevShift15(x, M);
    assert rev15[x] == Rev(x, 15);
  }

  lemma RevShift15(x: nat, M: nat)
    requires x < Pow2(M) && M <= MaxLen
    ensures x < Pow2(15) && Ushr(Rev(x, 15), 15 - M) == Rev(x, M)
  {
    Pow2Mono(M, 15);
    RevShift(x, 15, M);
  }

  /** An l-bit code shifted up by r stays below 2^(l+r). */
  lemma ShiftedBound(c: nat, l: nat, r: nat, M: nat)
    requires c < Pow2(l) && l + r == M
    ensures Shl(c, r) < Pow2(M)
  {
    ConcatBound(0, r, c, l);
    assert 0 + Shl(c, r) == Shl(c, r) && r + l == M;
  }

  /** The reversal of an l-bit code shifted up by r, over l + r bits, is its reversal over l bits. */
  lemma ShiftedRev(c: nat, l: nat, r: nat, M: nat)
    requires c < Pow2(l) && l + r == M
    ensures Rev(Shl(c, r), M) == Rev(c, l)
  {
    RevJoin(c, l, 0, r);
    RevZero(r);
    ShlZero(l);
    assert 0 + Shl(c, r) == Shl(c, r);
  }

  // ---------------------------------------------------------------------
  // A lookup map built from scratch

  /**
   * `makeCodes` then `codes2map` into a fresh zeroed map of `size` slots:
   * every symbol of nonzero length gets its canonical code, and the first
   * 2^maxBits slots of the map become the lookup table of that code, the
   * rest staying 0.
   */
  method BuildMap(tree: array<nat>, maxBits: nat, size: nat, rev15: array<nat>) returns (lookup: array<nat>)
    requires tree != rev15 && RevTable(rev15)
    requires tree.Length % 2 == 0 && tree.Length <= 0x2000 && maxBits <= MaxLen && Pow2(maxBits) <= size
    requires Fits(Lens(tree[..]))
    requires Ready(tree[..], maxBits)
    modifies tree
    ensures fresh(lookup) && lookup.Length == size
    ensures Lens(tree[..]) == Lens(old(tree[..]))
    ensures Canonical(tree[..]) && CodesFit(tree[..], maxBits)
    ensures lookup[..Pow2(maxBits)] == Table(Lens(tree[..]), maxBits)
    ensures forall p | Pow2(maxBits) <= p < size :: lookup[p] == 0
  {
    CanonicalCodes(tree, maxBits);
    ghost var t := tree[..];
    lookup := NewMap(size);
    Codes2Map(tree, maxBits, lookup, rev15);
    assert tree[..] == t;
    MapIsTable(ZeroMap(size), lookup[..], t, maxBits);
  }

  /** makeCodes over lengths that fit and a tree whose zero-length symbols have code 0 leaves canonical codes. */
  method CanonicalCodes(tree: array<nat>, maxBits: nat)
    requires tree.Length % 2 == 0 && maxBits <= MaxLen
    requires Fits(Lens(tree[..])) && Ready(tree[..], maxBits)
    modifies tree
    ensures Lens(tree[..]) == Lens(old(tree[..]))
    ensures Canonical(tree[..]) && CodesFit(tree[..], maxBits)
  {
    ghost var t0 := tree[..];
    ReadyBound(t0, maxBits);
    MakeCodes(tree, maxBits);
    MadeCodes(t0, tree[..], maxBits);
  }

  lemma ReadyBound(t: seq<nat>, maxBits: nat)
    requires Ready(t, maxBits)
    ensures forall s | 0 <= s < |t| / 2 :: t[2 * s + 1] <= maxBits
  {
  }

  /** A map of n slots, all 0. */
  function ZeroMap(n: nat): (z: seq<nat>)
    ensures |z| == n && forall p | 0 <= p < n :: z[p] == 0
  {
    seq(n, _ => 0)
  }

  /** A fresh zeroed map, as a new typed array is. */
  method NewMap(size: nat) returns (lookup: array<nat>)
    ensures fresh(lookup) && lookup[..] == ZeroMap(size)
  {
    lookup := new nat[size](_ => 0);
  }

  /** Every symbol of nonzero length holds its canonical code, and every other symbol 0. */
  ghost predicate Canonical(t: seq<nat>)
  {
    |t| % 2 == 0 &&
    forall s | 0 <= s < |t| / 2 :: t[2 * s] == if t[2 * s + 1] != 0 then Code(Lens(t), s) else 0
  }

  /** What makeCodes leaves from a ready tree whose lengths fit is canonical, and its codes fit. */
  lemma MadeCodes(t0: seq<nat>, t: seq<nat>, maxBits: nat)
    requires |t0| % 2 == 0 && CodesAssigned(t0, t) && Ready(t0, maxBits) && Fits(Lens(t0))
    ensures Canonical(t) && CodesFit(t, maxBits)
  {
    var L := Lens(t);
    forall s | 0 <= s < |t| / 2
      ensures t[2 * s] == if L[s] != 0 then Code(L, s) else 0
      ensures t[2 * s + 1] <= maxBits && t[2 * s] < Pow2(L[s])
    {
      assert L[s] == t[2 * s + 1] == t0[2 * s + 1];
      if L[s] != 0 {
        CodeFits(L, s);
        Pow2Mono(L[s], 15);
        Pow2Values();
      }
    }
  }

  /** codes2map from a zeroed map over a canonical tree leaves the lookup table, then zeros. */
  lemma MapIsTable(m0: seq<nat>, m: seq<nat>, t: seq<nat>, M: nat)
    requires Canonical(t) && |m0| >= Pow2(M) && forall p | 0 <= p < |m0| :: m0[p] == 0
    requires m == MapAfter(m0, CodesOf(t), Lens(t), M, |t| / 2)
    ensures m[..Pow2(M)] == Table(Lens(t), M)
    ensures forall p | Pow2(M) <= p < |m| :: m[p] == 0
  {
    forall p | 0 <= p < Pow2(M)
      ensures m[p] == Table(Lens(t), M)[p]
    {
      CanonicalEntry(t, p);
    }
    forall p | Pow2(M) <= p < |m|
      ensures m[p] == 0
    {
      assert m[p] == SlotAfter(m0[p], CodesOf(t), Lens(t), M, |t| / 2, p);
    }
  }

  /** In a canonical tree the slot codes2map fills is the slot of the lookup table. */
  lemma CanonicalEntry(t: seq<nat>, p: nat)
    requires Canonical(t)
    ensures Entry(CodesOf(t), Lens(t), p, |t| / 2, 0) == Entry(Codes(Lens(t)), Lens(t), p, |t| / 2, 0)
  {
    EntryAgree(CodesOf(t), Codes(Lens(t)), Lens(t), p, |t| / 2);
  }

  /** Lengths at most maxBits, and a code of 0 for every symbol of length 0. */
  predicate Ready(t: seq<nat>, maxBits: nat)
  {
    forall s | 0 <= s < |t| / 2 :: t[2 * s + 1] <= maxBits && (t[2 * s + 1] == 0 ==> t[2 * s] == 0)
  }

  /** Codes of zero-length symbols never reach the map: entries agree when the other codes do. */
  lemma {:induction false} EntryAgree(C1: seq<nat>, C2: seq<nat>, L: seq<nat>, p: nat, n: nat)
    requires n <= |C1| && n <= |C2| && n <= |L|
    requires forall s | 0 <= s < n :: L[s] != 0 ==> C1[s] == C2[s]
    ensures Entry(C1, L, p, n, 0) == Entry(C2, L, p, n, 0)
  {
    if n > 0 {
      EntryAgree(C1, C2, L, p, n - 1);
    }
  }
}
