// F_inflate of unzipjs.js and the helpers it calls (_check, _decodeTiny,
// _copyOut), written as methods over arrays and proved against the
// functions of InflateSpec: every method returns what the corresponding
// specification function computes from the same input and output so far.

module Inflater {
  import opened Arith
  import opened Words
  import opened Wrappers
  import opened Readers
  import opened Huffman
  import opened Deflate
  import opened Trees
  import opened Setup
  import opened InflateSpec

  /**
   * `_check`: a buffer that can hold len bytes. The buffer itself when it
   * already can; otherwise a new zeroed buffer of `max(bl << 1, len)` bytes
   * starting with a copy of the old one.
   */
  method Check(buf: array<Byte>, len: nat) returns (nbuf: array<Byte>)
    ensures nbuf.Length == Grown(buf.Length, len)
    ensures len <= buf.Length ==> nbuf == buf
    ensures len > buf.Length ==> fresh(nbuf) && nbuf[..] == buf[..] + Fill(0, nbuf.Length - buf.Length)
  {
    var bl := buf.Length;
    if len <= bl {
      return buf;
    }
    var doubled := Shl(bl, 1);
    assert doubled == 2 * bl by { ShlIsMul(bl, 1); }
    nbuf := new Byte[if doubled > len then doubled else len](_ => 0);
    forall i | 0 <= i < bl {
      nbuf[i] := buf[i];
    }
    assert nbuf[..] == buf[..] + Fill(0, nbuf.Length - bl);
  }

  // ---------------------------------------------------------------------
  // Bit fields

  /** `bitsE(dt, pos, n)` for a field of at most 9 bits, which always lies inside its 16-bit window. */
  method ReadBitsE(dt: seq<Byte>, pos: nat, n: nat) returns (r: nat)
    requires n <= 9
    ensures r == BitsValue(dt, pos, n)
  {
    assert pos % 8 + n <= 16;
    r := BitsE(dt, pos, n);
  }

  /** `bitsF(dt, pos, n)` for a field of at most 17 bits, which always lies inside its 24-bit window. */
  method ReadBitsF(dt: seq<Byte>, pos: nat, n: nat) returns (r: nat)
    requires n <= 17
    ensures r == BitsValue(dt, pos, n)
  {
    assert pos % 8 + n <= 24;
    r := BitsF(dt, pos, n);
  }

  // ---------------------------------------------------------------------
  // Table lookup

  /** m is the lookup map of the canonical code with lengths L, indexed by M bits through the mask `(1 << M) - 1`. */
  ghost predicate Decoder(m: array<nat>, mask: nat, L: seq<nat>, M: nat)
    reads m
  {
    M <= MaxLen && mask == Pow2(M) - 1 && Pow2(M) <= m.Length && m[..Pow2(M)] == Table(L, M) &&
    Fits(L) && forall s | 0 <= s < |L| :: L[s] <= M
  }

  /**
   * `code = lmap[get17(data, pos) & ML]`, `code & 15` and `code >>> 4`: the
   * map entry is 0 exactly when no code of L comes next in the stream, and
   * otherwise holds the symbol whose code comes next and its code length.
   */
  method Lookup(m: array<nat>, mask: nat, dt: seq<Byte>, pos: nat, ghost L: seq<nat>, ghost M: nat)
    returns (code: nat, sym: nat, len: nat)
    requires Decoder(m, mask, L, M)
    ensures code == 0 <==> Match(L, dt, pos).None?
    ensures Match(L, dt, pos).Some? ==> sym == Match(L, dt, pos).value && sym < |L| && len == L[sym]
  {
    var slot := And32(Get17(dt, pos), mask);
    ghost var b := BitsValue(dt, pos, M);
    MaskedGet17(dt, pos, M, mask);
    ghost var table := Table(L, M);
    assert m[..Pow2(M)] == table && b < |table|;
    code := m[slot];
    assert code == table[b];
    sym := Ushr(code, 4);
    len := And32(code, 15);
    SlotMeaning(L, M, dt, pos, code);
  }

  /** `get17(data, pos) & ((1 << M) - 1)` is the next M bits of the stream. */
  lemma MaskedGet17(dt: seq<Byte>, pos: nat, M: nat, mask: nat)
    requires M <= 17 && mask == Pow2(M) - 1
    ensures And32(Get17(dt, pos), mask) == BitsValue(dt, pos, M)
  {
    Get17Bits(dt, pos, M);
  }

  /** The entry of the slot the next M bits select, unpacked, is the symbol whose code comes next and its length. */
  lemma SlotMeaning(L: seq<nat>, M: nat, dt: seq<Byte>, pos: nat, code: nat)
    requires Fits(L) && forall s | 0 <= s < |L| :: L[s] <= M
    requires code == Table(L, M)[BitsValue(dt, pos, M)]
    ensures code == 0 <==> Match(L, dt, pos).None?
    ensures Match(L, dt, pos).Some? ==>
      Ushr(code, 4) == Match(L, dt, pos).value && And32(code, 15) == L[Match(L, dt, pos).value]
  {
    TableMatch(L, M, dt, pos);
    if Match(L, dt, pos).Some? {
      var s := Match(L, dt, pos).value;
      assert Pow2(4) == 16;
      Unpacked(s, L[s], 4, code);
    }
  }

  /** `(hi << k) | lo` with lo below 2^k gives back hi by `>>> k` and lo by `& ((1 << k) - 1)`. */
  lemma Unpacked(hi: nat, lo: nat, k: nat, x: nat)
    requires k <= 4 && lo < Pow2(k) && x == Pow2(k) * hi + lo
    ensures Ushr(x, k) == hi && And32(x, Pow2(k) - 1) == lo
  {
    ShlIsMul(hi, k);
    SplitUnique(lo, k, hi, x);
    AndLowMask(x, k);
  }

  // ---------------------------------------------------------------------
  // The code lengths of a dynamic block

  /**
   * `_decodeTiny`: the code lengths run-length coded with the code length
   * code whose map is lmap, written to tree until there are at least n.
   * The result is the bit after them.
   */
  method DecodeTiny(lmap: array<nat>, ll: nat, n: nat, dt: seq<Byte>, pos: nat, tree: array<nat>,
                    ghost cl: seq<nat>, ghost tl: nat) returns (r: Result<nat, Error>)
    requires lmap != tree && |cl| == 19 && Decoder(lmap, ll, cl, tl)
    requires n + 137 <= tree.Length
    modifies tree
    ensures var t := Tiny(dt, pos, cl, n, []);
      (t.Err? ==> r == Err(t.error)) &&
      (t.Ok? ==> r == Ok(t.value.0) && |t.value.1| <= tree.Length && tree[..|t.value.1|] == t.value.1)
  {
    var i := 0;
    var p := pos;
    ghost var lens: seq<nat> := [];
    ghost var goal := Tiny(dt, pos, cl, n, []);
    while i < n
      invariant i <= n + 137 && |lens| == i && tree[..i] == lens
      invariant Decoder(lmap, ll, cl, tl)
      invariant Tiny(dt, p, cl, n, lens) == goal
      decreases n - i
    {
      ghost var p0 := p;
      var code, lit, len := Lookup(lmap, ll, dt, p, cl, tl);
      if code == 0 {
        return Err(NoCode);
      }
      assert Match(cl, dt, p0) == Some(lit) && lit < 19 && len == cl[lit];
      p := p + len;
      if lit == 16 && i == 0 {
        return Err(BadRepeat);
      }
      if lit <= 15 {
        TinyLiteral(dt, p0, cl, n, lens, lit, p);
        tree[i] := lit;
        i := i + 1;
        lens := lens + [lit];
        assert Tiny(dt, p, cl, n, lens) == goal;
      } else {
        var last := if lit == 16 then tree[i - 1] else 0;
        var count, rep, q;
        q, count, rep := RunOf(dt, p, lit, last, lens);
        TinyRun(dt, p0, cl, n, lens, lit, p, q, Fill(rep, count));
        p := q;
        FillRun(tree, i, count, rep);
        i := i + count;
        lens := lens + Fill(rep, count);
        assert Tiny(dt, p, cl, n, lens) == goal;
      }
    }
    assert goal == Ok((p, lens));
    TinyFacts(dt, pos, cl, n, []);
    return Ok(p);
  }


  /** A literal code length symbol: the expansion goes on after its code with the symbol appended. */
  lemma TinyLiteral(dt: seq<Byte>, p0: nat, cl: seq<nat>, n: nat, acc: seq<nat>, sym: nat, p: nat)
    requires |cl| == 19 && |acc| < n && Match(cl, dt, p0) == Some(sym) && sym <= 15 && p == p0 + cl[sym]
    ensures Tiny(dt, p0, cl, n, acc) == Tiny(dt, p, cl, n, acc + [sym])
  {
    assert Run(dt, p, sym, acc) == (p, [sym]);
    TinyStep(dt, p0, cl, n, acc, sym, p, p, [sym]);
  }

  /** A run symbol: the expansion goes on after its extra bits with the run appended. */
  lemma TinyRun(dt: seq<Byte>, p0: nat, cl: seq<nat>, n: nat, acc: seq<nat>, sym: nat, p: nat, q: nat, more: seq<nat>)
    requires |cl| == 19 && |acc| < n && Match(cl, dt, p0) == Some(sym) && 16 <= sym <= 18 && (sym == 16 ==> |acc| > 0)
    requires p == p0 + cl[sym] && (q, more) == Run(dt, p, sym, acc)
    ensures Tiny(dt, p0, cl, n, acc) == Tiny(dt, q, cl, n, acc + more)
  {
    TinyStep(dt, p0, cl, n, acc, sym, p, q, more);
  }

  /** One step of the expansion, with the symbol's run given. */
  lemma TinyStep(dt: seq<Byte>, p0: nat, cl: seq<nat>, n: nat, acc: seq<nat>, sym: nat, p: nat, q: nat, more: seq<nat>)
    requires |cl| == 19 && |acc| < n && Match(cl, dt, p0) == Some(sym) && sym <= 18 && !(sym == 16 && |acc| == 0)
    requires p == p0 + cl[sym] && (q, more) == Run(dt, p, sym, acc)
    ensures Tiny(dt, p0, cl, n, acc) == Tiny(dt, q, cl, n, acc + more)
  {
    NextOf(dt, p0, cl, acc, sym, p, q, more);
    TinyUnfold(dt, p0, cl, n, acc, q, more);
  }

  /** The step after a symbol that matched and is not a leading 16 is its run. */
  lemma NextOf(dt: seq<Byte>, pos: nat, cl: seq<nat>, acc: seq<nat>, sym: nat, p: nat, q: nat, more: seq<nat>)
    requires |cl| == 19 && Match(cl, dt, pos) == Some(sym) && sym <= 18 && !(sym == 16 && |acc| == 0)
    requires p == pos + cl[sym] && (q, more) == Run(dt, p, sym, acc)
    ensures TinyNext(dt, pos, cl, acc) == Ok((q, more))
  {
  }

  /**
   * The run of code length symbol 16, 17 or 18 whose extra bits are at p:
   * the bit after them, how many lengths, and which (16 repeats the last
   * length, 17 and 18 give zeros).
   */
  method RunOf(dt: seq<Byte>, p: nat, lit: nat, last: nat, ghost acc: seq<nat>) returns (q: nat, count: nat, v: nat)
    requires 16 <= lit <= 18 && (lit == 16 ==> |acc| > 0 && last == acc[|acc| - 1])
    ensures (q, Fill(v, count)) == Run(dt, p, lit, acc)
  {
    v := 0;
    if lit == 16 {
      var extra := ReadBitsE(dt, p, 2);
      count := 3 + extra;
      q := p + 2;
      assert Run(dt, p, lit, acc) == (q, Fill<nat>(last, count));
      v := last;
    } else if lit == 17 {
      var extra := ReadBitsE(dt, p, 3);
      count := 3 + extra;
      q := p + 3;
      assert Run(dt, p, lit, acc) == (q, Fill<nat>(0, count));
    } else {
      var extra := ReadBitsE(dt, p, 7);
      count := 11 + extra;
      q := p + 7;
      assert Run(dt, p, lit, acc) == (q, Fill<nat>(0, count));
    }
  }

  /** `while (i < ni) { tree[i] = ll; i++; }`: count copies of v written from index i. */
  method FillRun(tree: array<nat>, i: nat, count: nat, v: nat)
    requires i + count <= tree.Length
    modifies tree
    ensures tree[..] == old(tree[..i]) + Fill(v, count) + old(tree[i + count..])
    ensures tree[..i + count] == old(tree[..i]) + Fill(v, count)
  {
    ghost var t0 := tree[..];
    var k := i;
    while k < i + count
      invariant i <= k <= i + count
      invariant tree[..] == t0[..i] + Fill(v, k - i) + t0[k..]
    {
      tree[k] := v;
      k := k + 1;
    }
    assert tree[..i + count] == (t0[..i] + Fill(v, count) + t0[i + count..])[..i + count];
  }

  /**
   * `_copyOut`: len code lengths from src at off into a tree of at least tl
   * symbols (each length after a code of 0, the symbols past len getting
   * length 0), and the largest of the copied lengths.
   */
  method CopyOut(src: array<nat>, off: nat, len: nat, tl: nat, ghost lens: seq<nat>) returns (tree: array<nat>, mx: nat)
    requires off + len <= src.Length && src[off..off + len] == lens
    ensures fresh(tree) && tree[..] == Pushed(Spread(lens, tl))
    ensures mx == MaxOf(lens)
  {
    var n := if len >= tl then len else tl;
    tree := new nat[2 * n];
    mx := CopyLengths(src, off, len, tree);
    PadLengths(tree, len, n, lens);
    ghost var L := Spread(lens, tl);
    assert forall s | 0 <= s < |L| :: tree[2 * s] == 0 && tree[2 * s + 1] == L[s];
    PushedOf(tree[..], L);
  }

  /** The first loop of `_copyOut`: the len lengths from src at off into the first len symbols, and their maximum. */
  method CopyLengths(src: array<nat>, off: nat, len: nat, tree: array<nat>) returns (mx: nat)
    requires src != tree && off + len <= src.Length && 2 * len <= tree.Length
    modifies tree
    ensures mx == MaxOf(src[off..off + len])
    ensures forall s | 0 <= s < len :: tree[2 * s] == 0 && tree[2 * s + 1] == src[off + s]
  {
    ghost var lens := src[off..off + len];
    mx := 0;
    var i := 0;
    while i < len
      invariant i <= len && mx == MaxOf(lens[..i])
      invariant forall s | 0 <= s < i :: tree[2 * s] == 0 && tree[2 * s + 1] == lens[s]
    {
      mx := CopyPair(src, off, tree, i, mx, lens);
      i := i + 1;
    }
    assert lens[..len] == lens;
  }

  /** One round of the first loop of `_copyOut`: symbol i gets src[off + i] as its length, and the maximum grows. */
  method CopyPair(src: array<nat>, off: nat, tree: array<nat>, i: nat, mx: nat, ghost lens: seq<nat>) returns (mx': nat)
    requires src != tree && off + |lens| <= src.Length && lens == src[off..off + |lens|]
    requires i < |lens| && 2 * |lens| <= tree.Length && mx == MaxOf(lens[..i])
    requires forall s | 0 <= s < i :: tree[2 * s] == 0 && tree[2 * s + 1] == lens[s]
    modifies tree
    ensures mx' == MaxOf(lens[..i + 1])
    ensures forall s | 0 <= s < i + 1 :: tree[2 * s] == 0 && tree[2 * s + 1] == lens[s]
  {
    var v := src[i + off];
    SetPair(tree, i, v);
    mx' := Larger(mx, v, lens, i);
  }

  /** The second loop of `_copyOut`: symbols len up to n get length 0, the first len staying as they are. */
  method PadLengths(tree: array<nat>, len: nat, n: nat, ghost lens: seq<nat>)
    requires len <= n && 2 * n == tree.Length && |lens| == len
    requires forall s | 0 <= s < len :: tree[2 * s] == 0 && tree[2 * s + 1] == lens[s]
    modifies tree
    ensures forall s | 0 <= s < len :: tree[2 * s] == 0 && tree[2 * s + 1] == lens[s]
    ensures forall s | len <= s < n :: tree[2 * s] == 0 && tree[2 * s + 1] == 0
  {
    var i := len;
    while i < n
      invariant len <= i <= n
      invariant forall s | 0 <= s < len :: tree[2 * s] == 0 && tree[2 * s + 1] == lens[s]
      invariant forall s | len <= s < i :: tree[2 * s] == 0 && tree[2 * s + 1] == 0
    {
      SetPair(tree, i, 0);
      i := i + 1;
    }
  }

  /** `tree[(i << 1)] = 0; tree[(i << 1) + 1] = v;`: symbol i gets code 0 and length v. */
  method SetPair(tree: array<nat>, i: nat, v: nat)
    requires 2 * i + 1 < tree.Length
    modifies tree
    ensures tree[2 * i] == 0 && tree[2 * i + 1] == v
    ensures forall k | 0 <= k < tree.Length && k != 2 * i && k != 2 * i + 1 :: tree[k] == old(tree[k])
  {
    tree[2 * i] := 0;
    tree[2 * i + 1] := v;
  }

  /** `if (v > mx) mx = v;` over the lengths lens, of which v is the one at i. */
  method Larger(mx: nat, v: nat, ghost lens: seq<nat>, ghost i: nat) returns (r: nat)
    requires i < |lens| && v == lens[i] && mx == MaxOf(lens[..i])
    ensures r == MaxOf(lens[..i + 1])
  {
    MaxOfStep(lens, i);
    r := if v > mx then v else mx;
  }

  /** `tree[(k << 1) + 1] = v`: symbol k gets length v. */
  method SetLength(tree: array<nat>, k: nat, v: nat)
    requires 2 * k + 1 < tree.Length
    modifies tree
    ensures tree[..] == old(tree[..])[2 * k + 1 := v]
  {
    tree[2 * k + 1] := v;
  }

  /** The largest of the first i + 1 lengths from the largest of the first i. */
  lemma MaxOfStep(L: seq<nat>, i: nat)
    requires i < |L|
    ensures MaxOf(L[..i + 1]) == if L[i] > MaxOf(L[..i]) then L[i] else MaxOf(L[..i])
  {
    assert L[..i + 1][..i] == L[..i];
  }

  // ---------------------------------------------------------------------
  // Dynamic block headers

  /**
   * The code length code of a dynamic block: itree cleared, then the hclen
   * 3-bit fields at p stored as the lengths of the symbols `ordr` lists,
   * and tl the largest of them, at least 1.
   */
  method CodeLengthTree(dt: seq<Byte>, p: nat, hclen: nat) returns (itree: array<nat>, tl: nat)
    requires hclen <= 19
    ensures fresh(itree) && itree[..] == Pushed(ClLens(dt, p, hclen))
    ensures 1 <= tl <= 7 && forall j | 0 <= j < 19 :: ClLens(dt, p, hclen)[j] <= tl
  {
    itree := NewTree(Fill(0, 19));
    tl := 1;
    OrdrIsPermutation();
    ghost var cl := Fill(0, 19);
    for i := 0 to hclen
      invariant cl == ClLens(dt, p, i) && |cl| == 19
      invariant itree[..] == Pushed(cl)
      invariant 1 <= tl <= 7 && forall j | 0 <= j < 19 :: cl[j] <= tl
    {
      var l := ReadClLength(dt, p, i, cl);
      PushedUpdate(cl, Ordr[i], l);
      SetLength(itree, Ordr[i], l);
      cl := cl[Ordr[i] := l];
      if l > tl {
        tl := l;
      }
    }
  }

  /** `bitsE(data, pos + i * 3, 3)`: the length of symbol Ordr[i] in the code length code. */
  method ReadClLength(dt: seq<Byte>, p: nat, i: nat, ghost cl: seq<nat>) returns (l: nat)
    requires i < 19 && cl == ClLens(dt, p, i)
    ensures l < 8 && ClLens(dt, p, i + 1) == cl[Ordr[i] := l]
  {
    l := ReadBitsE(dt, p + 3 * i, 3);
    ClLensStep(dt, p, i, l);
  }

  /** The field read at `pos + i * 3` is the one that gives symbol Ordr[i] its length. */
  lemma ClLensStep(dt: seq<Byte>, p: nat, i: nat, l: nat)
    requires i < 19 && l == BitsValue(dt, p + 3 * i, 3)
    ensures l < 8 && ClLens(dt, p, i + 1) == ClLens(dt, p, i)[Ordr[i] := l]
  {
    assert i + 1 - 1 == i;
  }

  /** makeCodes and codes2map of a tree with lengths L into a map of size slots, and the mask `(1 << M) - 1`. */
  method CodeMap(tree: array<nat>, M: nat, size: nat, rev15: array<nat>, ghost L: seq<nat>)
    returns (m: array<nat>, mask: nat)
    requires tree != rev15 && RevTable(rev15) && tree[..] == Pushed(L) && |L| <= 0x1000 && Fits(L)
    requires M <= MaxLen && Pow2(M) <= size && forall s | 0 <= s < |L| :: L[s] <= M
    modifies tree
    ensures fresh(m) && m.Length == size && Decoder(m, mask, L, M)
  {
    ShlIsMul(1, M);
    PushedReady(L, M);
    assert Fits(Lens(tree[..])) && Ready(tree[..], M) && tree.Length <= 0x2000;
    m := BuildMap(tree, M, size, rev15);
    mask := Shl(1, M) - 1;
  }

  /** The lookup maps of a dynamic block, their masks, and the bit after its header. */
  datatype Decoders = Decoders(pos: nat, lmap: array<nat>, ml: nat, dmap: array<nat>, md: nat)

  /**
   * The `BTYPE == 2` branch of `F_inflate`: HLIT, HDIST and HCLEN, the
   * code length code, the expanded code lengths copied out into the
   * literal/length and distance trees, and their maps. Agrees with Header,
   * error for error; on success the maps decode the literal/length and
   * distance codes Header gives.
   */
  method DynamicHeader(dt: seq<Byte>, pos: nat, rev15: array<nat>)
    returns (r: Result<Decoders, Error>, ghost L: seq<nat>, ghost D: seq<nat>, ghost LM: nat, ghost DM: nat)
    requires RevTable(rev15)
    ensures var h := Header(dt, pos);
      (h.Err? ==> r == Err(h.error)) &&
      (h.Ok? ==>
        r.Ok? && r.value.pos == h.value.pos && L == h.value.lit && D == h.value.dist &&
        fresh(r.value.lmap) && fresh(r.value.dmap) && r.value.lmap != r.value.dmap &&
        Decoder(r.value.lmap, r.value.ml, L, LM) && Decoder(r.value.dmap, r.value.md, D, DM))
  {
    var hlit, hdist, hclen := ReadCounts(dt, pos);
    HeaderCounts(dt, pos, hlit, hdist, hclen);
    r, L, D, LM, DM := DynamicLengths(dt, pos, hlit, hdist, hclen, rev15);
  }

  /** Header with its three counts given is HeaderWith. */
  lemma HeaderCounts(dt: seq<Byte>, pos: nat, hlit: nat, hdist: nat, hclen: nat)
    requires (hlit, hdist, hclen) == Counts(dt, pos)
    ensures hlit <= 288 && hdist <= 32 && hclen <= 19
    ensures Header(dt, pos) == HeaderWith(dt, pos, hlit, hdist, hclen)
  {
  }

  /** DynamicHeader after HLIT, HDIST and HCLEN: agrees with HeaderWith. */
  method DynamicLengths(dt: seq<Byte>, pos: nat, hlit: nat, hdist: nat, hclen: nat, rev15: array<nat>)
    returns (r: Result<Decoders, Error>, ghost L: seq<nat>, ghost D: seq<nat>, ghost LM: nat, ghost DM: nat)
    requires RevTable(rev15) && hlit <= 288 && hdist <= 32 && hclen <= 19
    ensures var h := HeaderWith(dt, pos, hlit, hdist, hclen);
      (h.Err? ==> r == Err(h.error)) &&
      (h.Ok? ==>
        r.Ok? && r.value.pos == h.value.pos && L == h.value.lit && D == h.value.dist &&
        fresh(r.value.lmap) && fresh(r.value.dmap) && r.value.lmap != r.value.dmap &&
        Decoder(r.value.lmap, r.value.ml, L, LM) && Decoder(r.value.dmap, r.value.md, D, DM))
  {
    L, D, LM, DM := [], [], 0, 0;
    var itree, tl := CodeLengthTree(dt, pos + 14, hclen);
    ghost var cl := ClLensOf(dt, pos + 14, hclen);
    if !Fits(Lens(itree[..])) {
      WithCases(dt, pos, hlit, hdist, hclen, cl);
      return Err(OverSubscribed), L, D, LM, DM;
    }
    r, L, D, LM, DM := DynamicTrees(dt, pos + 14 + 3 * hclen, hlit, hdist, itree, tl, rev15, cl);
    WithCases(dt, pos, hlit, hdist, hclen, cl);
  }

  /**
   * DynamicHeader from the code length code's tree on: its map, the
   * expanded code lengths (`_decodeTiny`), then the two trees and maps.
   * Agrees with CodedLengths, error for error.
   */
  method DynamicTrees(dt: seq<Byte>, start: nat, hlit: nat, hdist: nat, itree: array<nat>, tl: nat, rev15: array<nat>,
                      ghost cl: seq<nat>)
    returns (r: Result<Decoders, Error>, ghost L: seq<nat>, ghost D: seq<nat>, ghost LM: nat, ghost DM: nat)
    requires RevTable(rev15) && itree != rev15 && hlit <= 288 && hdist <= 32
    requires |cl| == 19 && itree[..] == Pushed(cl) && Fits(cl) && 1 <= tl <= 7 && forall j | 0 <= j < 19 :: cl[j] <= tl
    modifies itree
    ensures var c := CodedLengths(dt, start, cl, hlit, hdist);
      (c.Err? ==> r == Err(c.error)) &&
      (c.Ok? ==>
        r.Ok? && r.value.pos == c.value.pos && L == c.value.lit && D == c.value.dist &&
        fresh(r.value.lmap) && fresh(r.value.dmap) && r.value.lmap != r.value.dmap &&
        Decoder(r.value.lmap, r.value.ml, L, LM) && Decoder(r.value.dmap, r.value.md, D, DM))
  {
    L, D, LM, DM := [], [], 0, 0;
    ghost var t := TinyOf(dt, start, cl, hlit + hdist);
    CodedCases(dt, start, cl, hlit, hdist, t);
    TinyOk(dt, start, cl, hlit + hdist, t);
    var ttree := new nat[640];
    Pow2Mono(tl, 9);
    Pow2Values();
    var clmap, ll := CodeMap(itree, tl, 512, rev15, cl);
    var rt := DecodeTiny(clmap, ll, hlit + hdist, dt, start, ttree, cl, tl);
    if rt.Err? {
      return Err(rt.error), L, D, LM, DM;
    }
    var q := rt.value;
    if q > 8 * |dt| {
      return Err(Truncated), L, D, LM, DM;
    }
    r, L, D, LM, DM := SplitTrees(ttree, hlit, hdist, q, t.value.1, rev15);
  }

  // Naming a value of ClLens or Tiny through a lemma keeps the caller's proof small.

  lemma ClLensOf(dt: seq<Byte>, p: nat, hclen: nat) returns (cl: seq<nat>)
    requires hclen <= 19
    ensures cl == ClLens(dt, p, hclen)
  {
    cl := ClLens(dt, p, hclen);
  }

  lemma TinyOf(dt: seq<Byte>, start: nat, cl: seq<nat>, n: nat) returns (t: Result<(nat, seq<nat>), Error>)
    requires |cl| == 19
    ensures t == Tiny(dt, start, cl, n, [])
  {
    t := Tiny(dt, start, cl, n, []);
  }

  /** A successful expansion of n code lengths yields n to n + 137 lengths of at most 15 bits. */
  lemma TinyOk(dt: seq<Byte>, start: nat, cl: seq<nat>, n: nat, t: Result<(nat, seq<nat>), Error>)
    requires |cl| == 19 && t == Tiny(dt, start, cl, n, [])
    ensures t.Ok? ==> n <= |t.value.1| <= n + 137 && Short(t.value.1)
  {
    TinyFacts(dt, start, cl, n, []);
  }

  /** HeaderWith case by case: the code length code's check, then CodedLengths. */
  lemma WithCases(dt: seq<Byte>, pos: nat, hlit: nat, hdist: nat, hclen: nat, cl: seq<nat>)
    requires hlit <= 288 && hdist <= 32 && hclen <= 19 && cl == ClLens(dt, pos + 14, hclen)
    ensures !Fits(cl) ==> HeaderWith(dt, pos, hlit, hdist, hclen) == Err(OverSubscribed)
    ensures Fits(cl) ==> HeaderWith(dt, pos, hlit, hdist, hclen) == CodedLengths(dt, pos + 14 + 3 * hclen, cl, hlit, hdist)
  {
  }

  /** CodedLengths case by case: Tiny's error, Truncated, SplitLengths' error, or the split lengths. */
  lemma CodedCases(dt: seq<Byte>, start: nat, cl: seq<nat>, hlit: nat, hdist: nat, t: Result<(nat, seq<nat>), Error>)
    requires |cl| == 19 && hlit <= 288 && hdist <= 32 && t == Tiny(dt, start, cl, hlit + hdist, [])
    ensures var c := CodedLengths(dt, start, cl, hlit, hdist);
      (t.Err? ==> c == Err(t.error)) &&
      (t.Ok? && t.value.0 > 8 * |dt| ==> c == Err(Truncated)) &&
      (t.Ok? && t.value.0 <= 8 * |dt| ==> c == CodedSplit(t.value.0, t.value.1, hlit, hdist))
  {
    TinyFacts(dt, start, cl, hlit + hdist, []);
  }

  /** `bitsE(data, pos, 5) + 257`, `bitsE(data, pos + 5, 5) + 1`, `bitsE(data, pos + 10, 4) + 4`. */
  method ReadCounts(dt: seq<Byte>, pos: nat) returns (hlit: nat, hdist: nat, hclen: nat)
    ensures (hlit, hdist, hclen) == Counts(dt, pos)
  {
    hlit := ReadBitsE(dt, pos, 5);
    hlit := hlit + 257;
    CountsLit(dt, pos, hlit);
    hdist := ReadBitsE(dt, pos + 5, 5);
    hdist := hdist + 1;
    CountsDist(dt, pos, hdist);
    hclen := ReadBitsE(dt, pos + 10, 4);
    hclen := hclen + 4;
    CountsClen(dt, pos, hclen);
  }

  // One lemma per field: linking the three fields at once costs the solver ten times as much.

  lemma CountsLit(dt: seq<Byte>, pos: nat, hlit: nat)
    requires hlit == BitsValue(dt, pos, 5) + 257
    ensures Counts(dt, pos).0 == hlit
  {
  }

  lemma CountsDist(dt: seq<Byte>, pos: nat, hdist: nat)
    requires hdist == BitsValue(dt, pos + 5, 5) + 1
    ensures Counts(dt, pos).1 == hdist
  {
  }

  lemma CountsClen(dt: seq<Byte>, pos: nat, hclen: nat)
    requires hclen == BitsValue(dt, pos + 10, 4) + 4
    ensures Counts(dt, pos).2 == hclen
  {
  }

  /**
   * The end of the `BTYPE == 2` branch: `_copyOut` of the first hlit
   * expanded lengths into the literal/length tree and of the next hdist
   * into the distance tree, then makeCodes and codes2map of each into a
   * 2^15-entry map. Agrees with SplitLengths, error for error.
   */
  method SplitTrees(ttree: array<nat>, hlit: nat, hdist: nat, p: nat, ghost lens: seq<nat>, rev15: array<nat>)
    returns (r: Result<Decoders, Error>, ghost L: seq<nat>, ghost D: seq<nat>, ghost LM: nat, ghost DM: nat)
    requires RevTable(rev15) && hlit <= 288 && hdist <= 32 && hlit + hdist <= |lens| <= ttree.Length
    requires ttree[..|lens|] == lens && Short(lens)
    ensures var c := CodedSplit(p, lens, hlit, hdist);
      (c.Err? ==> r == Err(c.error)) &&
      (c.Ok? ==>
        r.Ok? && r.value.pos == p && L == c.value.lit && D == c.value.dist &&
        fresh(r.value.lmap) && fresh(r.value.dmap) && r.value.lmap != r.value.dmap &&
        Decoder(r.value.lmap, r.value.ml, L, LM) && Decoder(r.value.dmap, r.value.md, D, DM))
  {
    var ltree, dtree, mx0, mx1 := CopyTrees(ttree, hlit, hdist, lens);
    L := Spread(lens[..hlit], 286);
    D := Spread(lens[hlit..hlit + hdist], 30);
    LM, DM := mx0, mx1;
    SplitCases(p, lens, hlit, hdist);
    if !Fits(Lens(ltree[..])) || !Fits(Lens(dtree[..])) {
      return Err(OverSubscribed), L, D, LM, DM;
    }
    ShortSlices(lens, hlit, hdist);
    SpreadBound(lens[..hlit], 286);
    SpreadBound(lens[hlit..hlit + hdist], 30);
    var maps := BothMaps(ltree, dtree, mx0, mx1, p, rev15, L, D);
    r := Ok(maps);
  }

  /** CodedSplit case by case. */
  lemma SplitCases(p: nat, lens: seq<nat>, hlit: nat, hdist: nat)
    requires hlit + hdist <= |lens|
    ensures var L := Spread(lens[..hlit], 286);
      var D := Spread(lens[hlit..hlit + hdist], 30);
      (!Fits(L) || !Fits(D) ==> CodedSplit(p, lens, hlit, hdist) == Err(OverSubscribed)) &&
      (Fits(L) && Fits(D) ==> CodedSplit(p, lens, hlit, hdist) == Ok(Lengths(p, L, D)))
  {
  }

  /** `_copyOut` of the first hlit lengths into the literal/length tree and of the next hdist into the distance tree. */
  method CopyTrees(ttree: array<nat>, hlit: nat, hdist: nat, ghost lens: seq<nat>)
    returns (ltree: array<nat>, dtree: array<nat>, LM: nat, DM: nat)
    requires hlit + hdist <= |lens| <= ttree.Length && ttree[..|lens|] == lens
    ensures fresh(ltree) && fresh(dtree) && ltree != dtree
    ensures ltree[..] == Pushed(Spread(lens[..hlit], 286)) && LM == MaxOf(lens[..hlit])
    ensures dtree[..] == Pushed(Spread(lens[hlit..hlit + hdist], 30)) && DM == MaxOf(lens[hlit..hlit + hdist])
  {
    SliceAgree(ttree[..], lens, 0, hlit);
    ltree, LM := CopyOut(ttree, 0, hlit, 286, lens[..hlit]);
    SliceAgree(ttree[..], lens, hlit, hlit + hdist);
    dtree, DM := CopyOut(ttree, hlit, hdist, 30, lens[hlit..hlit + hdist]);
  }

  /** A slice of a prefix is the same slice of the whole. */
  lemma SliceAgree(a: seq<nat>, lens: seq<nat>, i: nat, j: nat)
    requires |lens| <= |a| && a[..|lens|] == lens && i <= j <= |lens|
    ensures a[i..j] == lens[i..j]
  {
    forall k | 0 <= k < j - i
      ensures a[i..j][k] == lens[i..j][k]
    {
      assert a[i + k] == a[..|lens|][i + k];
    }
  }

  /** makeCodes and codes2map of the literal/length and the distance tree, each into a 2^15-entry map. */
  method BothMaps(ltree: array<nat>, dtree: array<nat>, LM: nat, DM: nat, p: nat, rev15: array<nat>,
                  ghost L: seq<nat>, ghost D: seq<nat>)
    returns (maps: Decoders)
    requires RevTable(rev15) && ltree != rev15 && dtree != rev15 && ltree != dtree
    requires ltree[..] == Pushed(L) && |L| <= 288 && Fits(L) && LM <= MaxLen && Pow2(LM) <= 0x8000
    requires dtree[..] == Pushed(D) && |D| <= 32 && Fits(D) && DM <= MaxLen && Pow2(DM) <= 0x8000
    requires forall s | 0 <= s < |L| :: L[s] <= LM
    requires forall s | 0 <= s < |D| :: D[s] <= DM
    modifies ltree, dtree
    ensures maps.pos == p && fresh(maps.lmap) && fresh(maps.dmap) && maps.lmap != maps.dmap
    ensures Decoder(maps.lmap, maps.ml, L, LM) && Decoder(maps.dmap, maps.md, D, DM)
  {
    var lmap, ml := CodeMap(ltree, LM, 0x8000, rev15, L);
    var dmap, md := CodeMap(dtree, DM, 0x8000, rev15, D);
    maps := Decoders(p, lmap, ml, dmap, md);
  }

  lemma ShortSlices(lens: seq<nat>, hlit: nat, hdist: nat)
    requires Short(lens) && hlit + hdist <= |lens|
    ensures Short(lens[..hlit]) && Short(lens[hlit..hlit + hdist])
  {
    var dist := lens[hlit..hlit + hdist];
    forall k | 0 <= k < |dist|
      ensures dist[k] <= 15
    {
      assert dist[k] == lens[hlit + k];
    }
  }

  /** Lengths of at most 15 bits spread over tl symbols are at most their maximum, which is at most 15 bits. */
  lemma SpreadBound(lens: seq<nat>, tl: nat)
    requires Short(lens)
    ensures MaxOf(lens) <= MaxLen && Pow2(MaxOf(lens)) <= 0x8000
    ensures forall s | 0 <= s < |Spread(lens, tl)| :: Spread(lens, tl)[s] <= MaxOf(lens)
  {
    if |lens| > 0 {
      var s :| 0 <= s < |lens| && lens[s] == MaxOf(lens);
    }
    Pow2Mono(MaxOf(lens), 15);
    Pow2Values();
  }
}
