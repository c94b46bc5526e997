// The tables `init` of unzipjs.js prepares once: the 15-bit reversal table,
// the packed length and distance tables, and the fixed literal/length and
// distance trees with their lookup maps. The scratch trees and maps the
// dynamic blocks fill (itree, ltree, dtree, ttree, imap, lmap, dmap) are
// allocated afresh by the decoder instead of being kept here.

module Setup {
  import opened Arith
  import opened Words
  import opened Huffman
  import opened Trees
  import opened Deflate

  class Tables {
    const rev15: array<nat>
    const ldef: array<nat>
    const ddef: array<nat>
    const fltree: array<nat>
    const flmap: array<nat>
    const fdtree: array<nat>
    const fdmap: array<nat>

    /**
     * rev15 reverses 15-bit numbers; ldef and ddef pack each base with its
     * extra bits (`(of0[i] << 3) | exb[i]`, `(df0[i] << 4) | dxb[i]`); the
     * fixed trees hold the fixed lengths and their codes bit-reversed; the
     * fixed maps are the lookup tables of the fixed codes.
     */
    ghost predicate Valid()
      reads rev15, ldef, ddef, fltree, flmap, fdtree, fdmap
    {
      RevTable(rev15) &&
      PackedUpTo(ldef, ddef, 32) &&
      fltree.Length == 576 && Lens(fltree[..]) == FixedLit &&
      (forall s | 0 <= s < 288 :: fltree[2 * s] == Rev(Code(FixedLit, s), FixedLit[s])) &&
      fdtree.Length == 64 && Lens(fdtree[..]) == FixedDist &&
      (forall s | 0 <= s < 32 :: fdtree[2 * s] == Rev(Code(FixedDist, s), FixedDist[s])) &&
      flmap.Length == 512 && flmap[..] == Table(FixedLit, 9) &&
      fdmap.Length == 32 && fdmap[..] == Table(FixedDist, 5)
    }

    /** `init`. */
    constructor ()
      ensures Valid()
    {
      var r := ReversalTable();
      var ld, dd := PackedTables();
      var flt, flm := FixedLitTree(r);
      var fdt, fdm := FixedDistTree(r);
      rev15, ldef, ddef := r, ld, dd;
      fltree, flmap, fdtree, fdmap := flt, flm, fdt, fdm;
    }
  }

  /** The fixed literal/length tree of `init` and its 9-bit map. */
  method FixedLitTree(r: array<nat>) returns (tree: array<nat>, lookup: array<nat>)
    requires RevTable(r)
    ensures fresh(tree) && fresh(lookup)
    ensures tree.Length == 576 && Lens(tree[..]) == FixedLit
    ensures forall s | 0 <= s < 288 :: tree[2 * s] == Rev(Code(FixedLit, s), FixedLit[s])
    ensures lookup.Length == 512 && lookup[..] == Table(FixedLit, 9)
  {
    FixedLitFits();
    Pow2Values();
    tree, lookup := FixedTree(FixedLit, 9, r);
  }

  /** The fixed distance tree of `init` and its 5-bit map. */
  method FixedDistTree(r: array<nat>) returns (tree: array<nat>, lookup: array<nat>)
    requires RevTable(r)
    ensures fresh(tree) && fresh(lookup)
    ensures tree.Length == 64 && Lens(tree[..]) == FixedDist
    ensures forall s | 0 <= s < 32 :: tree[2 * s] == Rev(Code(FixedDist, s), FixedDist[s])
    ensures lookup.Length == 32 && lookup[..] == Table(FixedDist, 5)
  {
    FixedDistFits();
    Pow2Values();
    tree, lookup := FixedTree(FixedDist, 5, r);
  }

  /** The first loop of `init`: rev15[i] is the swap network applied to i. */
  method ReversalTable() returns (r: array<nat>)
    ensures fresh(r) && RevTable(r)
  {
    Pow2Values();
    r := new nat[0x8000];
    for i := 0 to 0x8000
      invariant forall k | 0 <= k < i :: r[k] == Rev(k, 15)
    {
      SetReversal(r, i);
    }
  }

  /** One round of the first loop of `init`. */
  method SetReversal(r: array<nat>, i: nat)
    requires i < r.Length == Pow2(15)
    modifies r
    ensures r[..] == old(r[..])[i := Rev(i, 15)]
  {
    Reverse15IsRev(i);
    r[i] := Reverse15(i);
  }

  /** The second loop of `init`: ldef and ddef pack base and extra bits. */
  method PackedTables() returns (ld: array<nat>, dd: array<nat>)
    ensures fresh(ld) && fresh(dd) && PackedUpTo(ld, dd, 32)
  {
    ld := new nat[32];
    dd := new nat[32];
    for i := 0 to 32
      invariant PackedUpTo(ld, dd, i)
    {
      SetPacked(ld, dd, i);
    }
  }

  /** One round of the second loop of `init`. */
  method SetPacked(ld: array<nat>, dd: array<nat>, i: nat)
    requires ld != dd && i < 32 && PackedUpTo(ld, dd, i)
    modifies ld, dd
    ensures PackedUpTo(ld, dd, i + 1)
  {
    PackAt(i);
    ld[i] := Or32(Shl32(Of0[i], 3), Exb[i]);
    dd[i] := Or32(Shl32(Df0[i], 4), Dxb[i]);
  }

  /** The tree `pushV` builds from lengths L: each length preceded by a code of 0. */
  function Pushed(L: seq<nat>): (t: seq<nat>)
    ensures |t| == 2 * |L| && Lens(t) == L
    ensures forall s | 0 <= s < |L| :: t[2 * s] == 0 && t[2 * s + 1] == L[s]
  {
    var t := seq(2 * |L|, k requires 0 <= k < 2 * |L| => if k % 2 == 1 then L[k / 2] else 0);
    assert Lens(t) == L;
    t
  }

  /** A tree whose every symbol has code 0 and its length from L is `Pushed(L)`. */
  lemma PushedOf(t: seq<nat>, L: seq<nat>)
    requires |t| == 2 * |L|
    requires forall s | 0 <= s < |L| :: t[2 * s] == 0 && t[2 * s + 1] == L[s]
    ensures t == Pushed(L)
  {
    forall k | 0 <= k < |t|
      ensures t[k] == Pushed(L)[k]
    {
      var s := k / 2;
      if k % 2 == 0 {
        assert k == 2 * s;
      } else {
        assert k == 2 * s + 1;
      }
    }
  }

  /** Setting the length slot of symbol k sets the length of k. */
  lemma PushedUpdate(L: seq<nat>, k: nat, v: nat)
    requires k < |L|
    ensures Pushed(L)[2 * k + 1 := v] == Pushed(L[k := v])
  {
    PushedOf(Pushed(L)[2 * k + 1 := v], L[k := v]);
  }

  lemma PushedReady(L: seq<nat>, M: nat)
    requires forall s | 0 <= s < |L| :: L[s] <= M
    ensures Ready(Pushed(L), M)
  {
  }

  /** A fresh array holding `Pushed(L)`. */
  method NewTree(L: seq<nat>) returns (tree: array<nat>)
    ensures fresh(tree) && tree[..] == Pushed(L)
  {
    var t := Pushed(L);
    tree := new nat[|t|](k requires 0 <= k < |t| => t[k]);
  }

  /**
   * A fixed tree as `init` builds it: `pushV` of the lengths L, then
   * makeCodes, codes2map into a map of 2^M slots, and FrevCodes at M bits.
   */
  method FixedTree(L: seq<nat>, M: nat, r: array<nat>) returns (tree: array<nat>, lookup: array<nat>)
    requires RevTable(r) && M <= MaxLen && |L| <= 0x1000
    requires Fits(L) && forall s | 0 <= s < |L| :: 0 < L[s] <= M
    ensures fresh(tree) && fresh(lookup) && tree.Length == 2 * |L| && Lens(tree[..]) == L
    ensures forall s | 0 <= s < |L| :: tree[2 * s] == Rev(Code(L, s), L[s])
    ensures lookup.Length == Pow2(M) && lookup[..] == Table(L, M)
  {
    tree, lookup := CanonicalTree(L, M, r);
    ReverseCodes(tree, L, M, r);
  }

  /** FrevCodes on a canonical tree whose lengths are all nonzero. */
  method ReverseCodes(tree: array<nat>, L: seq<nat>, M: nat, r: array<nat>)
    requires tree != r && RevTable(r) && M <= MaxLen
    requires tree.Length == 2 * |L| && Lens(tree[..]) == L && Canonical(tree[..]) && CodesFit(tree[..], M)
    requires forall s | 0 <= s < |L| :: L[s] != 0
    modifies tree
    ensures Lens(tree[..]) == L
    ensures forall s | 0 <= s < |L| :: tree[2 * s] == Rev(Code(L, s), L[s])
  {
    ghost var codes := tree[..];
    FrevCodes(tree, M, r);
    ReversedCodes(codes, tree[..], L);
  }

  /** `pushV` of the lengths L, then makeCodes and codes2map into a map of 2^M slots. */
  method CanonicalTree(L: seq<nat>, M: nat, r: array<nat>) returns (tree: array<nat>, lookup: array<nat>)
    requires RevTable(r) && M <= MaxLen && |L| <= 0x1000
    requires Fits(L) && forall s | 0 <= s < |L| :: L[s] <= M
    ensures fresh(tree) && fresh(lookup) && tree.Length == 2 * |L| && Lens(tree[..]) == L
    ensures tree != lookup && Canonical(tree[..]) && CodesFit(tree[..], M)
    ensures lookup.Length == Pow2(M) && lookup[..] == Table(L, M)
  {
    tree := NewTree(L);
    PushedReady(L, M);
    lookup := BuildMap(tree, M, Pow2(M), r);
    assert lookup[..] == lookup[..Pow2(M)];
  }

  /** Reversing the codes of a canonical tree with no zero length gives each symbol its code reversed. */
  lemma ReversedCodes(codes: seq<nat>, t: seq<nat>, L: seq<nat>)
    requires Canonical(codes) && Lens(codes) == L && Lens(t) == L && |t| == |codes|
    requires forall s | 0 <= s < |L| :: L[s] != 0
    requires forall s | 0 <= s < |t| / 2 :: t[2 * s] == Rev(codes[2 * s], t[2 * s + 1])
    ensures forall s | 0 <= s < |L| :: t[2 * s] == Rev(Code(L, s), L[s])
  {
    forall s | 0 <= s < |L|
      ensures t[2 * s] == Rev(Code(L, s), L[s])
    {
      assert codes[2 * s + 1] == L[s] == t[2 * s + 1];
    }
  }

  /** Bases fit 16 bits and extra bits fit the field below them. */
  lemma TableBounds()
    ensures |Of0| == |Exb| == |Df0| == |Dxb| == 32
    ensures forall i | 0 <= i < 32 :: Of0[i] < 0x1_0000 && Exb[i] < 8 && Df0[i] < 0x1_0000 && Dxb[i] < 16
  {
  }

  /** The first i entries of both packed tables hold base and extra bits. */
  ghost predicate PackedUpTo(ld: array<nat>, dd: array<nat>, i: nat)
    reads ld, dd
  {
    ld.Length == 32 && dd.Length == 32 && i <= 32 &&
    (forall k | 0 <= k < i :: ld[k] == 8 * Of0[k] + Exb[k]) &&
    (forall k | 0 <= k < i :: dd[k] == 16 * Df0[k] + Dxb[k])
  }

  /** Entry i of both packed tables. */
  lemma PackAt(i: nat)
    requires i < 32
    ensures Or32(Shl32(Of0[i], 3), Exb[i]) == 8 * Of0[i] + Exb[i]
    ensures Or32(Shl32(Df0[i], 4), Dxb[i]) == 16 * Df0[i] + Dxb[i]
  {
    TableBounds();
    Pow2Values();
    assert Pow2(3) == 8 && Pow2(4) == 16;
    Pack(Of0[i], Exb[i], 3);
    Pack(Df0[i], Dxb[i], 4);
  }

  /** `(c << k) | a` with a below 2^k is c * 2^k + a. */
  lemma Pack(c: nat, a: nat, k: nat)
    requires c < 0x1_0000 && k <= 4 && a < Pow2(k)
    ensures Or32(Shl32(c, k), a) == Pow2(k) * c + a
  {
    ShlIsMul(c, k);
    Pow2Mono(k, 4);
    Pow2Values();
    assert Pow2(4) == 16;
    assert Pow2(k) * c <= 16 * c by { MulMono(Pow2(k), 16, c); }
    ShlSmall(c, k);
    OrDisjoint(a, k, c);
  }
}
