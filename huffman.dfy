// Canonical Huffman codes (section 3.2.2 of RFC 1951) and the direct-lookup
// table that codes2map builds from them, as functions on the list of code
// lengths, with the facts the decoder relies on: codes fit their lengths,
// no code is a prefix of another, and a table lookup finds exactly the
// symbol whose code comes next in the stream.

module Huffman {
  import opened Arith
  import opened Readers
  import opened Wrappers

  /** The longest code length DEFLATE allows. */
  const MaxLen: nat := 15

  /** How many symbols of L have code length b. */
  function CountLen(L: seq<nat>, b: nat): (r: nat)
    ensures r <= |L|
  {
    if |L| == 0 then 0 else CountLen(L[..|L| - 1], b) + (if L[|L| - 1] == b then 1 else 0)
  }

  /**
   * The first code of length b: `next_code[1] = 0` and
   * `next_code[b] = (next_code[b-1] + bl_count[b-1]) << 1`.
   */
  function NextCode(L: seq<nat>, b: nat): nat
  {
    if b <= 1 then 0 else 2 * (NextCode(L, b - 1) + CountLen(L, b - 1))
  }

  /** How many symbols before s share its code length. */
  function Rank(L: seq<nat>, s: nat): nat
    requires s < |L|
  {
    CountLen(L[..s], L[s])
  }

  /** The canonical code of symbol s: codes of one length are consecutive, in symbol order. */
  function Code(L: seq<nat>, s: nat): nat
    requires s < |L|
  {
    NextCode(L, L[s]) + Rank(L, s)
  }

  /** Every length is at most MaxLen and every code fits its length: the lengths are not oversubscribed. */
  predicate Fits(L: seq<nat>)
  {
    (forall s | 0 <= s < |L| :: L[s] <= MaxLen) &&
    forall b | 1 <= b <= MaxLen :: CountLen(L, b) == 0 || NextCode(L, b) + CountLen(L, b) <= Pow2(b)
  }

  /** The largest code length in L (0 when there is none). */
  function MaxOf(L: seq<nat>): (m: nat)
    ensures forall s | 0 <= s < |L| :: L[s] <= m
    ensures |L| > 0 ==> exists s | 0 <= s < |L| :: L[s] == m
    ensures |L| == 0 ==> m == 0
  {
    if |L| == 0 then 0
    else
      var m := MaxOf(L[..|L| - 1]);
      assert forall s | 0 <= s < |L| - 1 :: L[s] == L[..|L| - 1][s];
      if L[|L| - 1] > m then L[|L| - 1] else m
  }

  // ---------------------------------------------------------------------
  // Counting

  lemma {:induction false} CountPrefixStep(L: seq<nat>, s: nat, b: nat)
    requires s < |L|
    ensures CountLen(L[..s + 1], b) == CountLen(L[..s], b) + (if L[s] == b then 1 else 0)
  {
    assert L[..s + 1][..s] == L[..s];
  }

  lemma {:induction false} CountPrefixMono(L: seq<nat>, i: nat, j: nat, b: nat)
    requires i <= j <= |L|
    ensures CountLen(L[..i], b) <= CountLen(L[..j], b)
    decreases j - i
  {
    if i < j {
      CountPrefixMono(L, i, j - 1, b);
      CountPrefixStep(L, j - 1, b);
    }
  }

  /** A symbol's rank is below the number of symbols of its length. */
  lemma {:induction false} RankBound(L: seq<nat>, s: nat)
    requires s < |L|
    ensures Rank(L, s) < CountLen(L, L[s])
  {
    CountPrefixStep(L, s, L[s]);
    CountPrefixMono(L, s + 1, |L|, L[s]);
    assert L[..|L|] == L;
  }

  /** Symbols of one length get strictly increasing codes in symbol order. */
  lemma {:induction false} CodesIncrease(L: seq<nat>, s: nat, t: nat)
    requires s < t < |L| && L[s] == L[t]
    ensures Code(L, s) < Code(L, t)
  {
    CountPrefixStep(L, s, L[s]);
    CountPrefixMono(L, s + 1, t, L[s]);
  }

  /** Under Fits, every code is a number of its own length. */
  lemma {:induction false} CodeFits(L: seq<nat>, s: nat)
    requires Fits(L) && s < |L| && L[s] != 0
    ensures Code(L, s) < Pow2(L[s])
  {
    RankBound(L, s);
  }

  /** The first code of a longer length lies past every code of a shorter one, shifted. */
  lemma {:induction false} NextCodeGrowth(L: seq<nat>, a: nat, b: nat)
    requires 1 <= a < b
    ensures NextCode(L, b) >= Shl(NextCode(L, a) + CountLen(L, a), b - a)
  {
    var x := NextCode(L, a) + CountLen(L, a);
    if b == a + 1 {
      assert Shl(x, 1) == 2 * Shl(x, 0);
    } else {
      NextCodeGrowth(L, a, b - 1);
      assert Shl(x, b - a) == 2 * Shl(x, b - 1 - a);
    }
  }

  /** No code is a prefix of another: a code of length b does not start with the code of s. */
  lemma {:induction false} PrefixFree(L: seq<nat>, s: nat, t: nat)
    requires s < |L| && t < |L| && s != t
    requires 0 < L[s] <= L[t]
    ensures Ushr(Code(L, t), L[t] - L[s]) != Code(L, s)
  {
    var a, b := L[s], L[t];
    if a == b {
      if s < t {
        CodesIncrease(L, s, t);
      } else {
        CodesIncrease(L, t, s);
      }
    } else {
      RankBound(L, s);
      LongerCodeAbove(L, a, t);
    }
  }

  /** The first l bits of a code longer than l lie past every code of length l. */
  lemma LongerCodeAbove(L: seq<nat>, a: nat, t: nat)
    requires t < |L| && 0 < a < L[t]
    ensures Ushr(Code(L, t), L[t] - a) >= NextCode(L, a) + CountLen(L, a)
  {
    var x := NextCode(L, a) + CountLen(L, a);
    var k := L[t] - a;
    NextCodeGrowth(L, a, L[t]);
    UshrAtLeast(Code(L, t), x, k);
  }

  // ---------------------------------------------------------------------
  // The lookup table

  /** Slot p of a table indexed by M stream bits holds the symbol whose l-bit code c the slot starts with. */
  predicate Hits(c: nat, l: nat, p: nat)
  {
    l != 0 && Low(p, l) == Rev(c, l)
  }

  /**
   * What codes2map leaves in slot p after the first n symbols with these
   * codes and lengths: `(s << 4) | l` for the last symbol s that hits p, or
   * `none` when none does.
   */
  function Entry(codes: seq<nat>, lens: seq<nat>, p: nat, n: nat, none: nat): nat
    requires n <= |codes| && n <= |lens|
  {
    if n == 0 then none
    else if Hits(codes[n - 1], lens[n - 1], p) then 16 * (n - 1) + lens[n - 1]
    else Entry(codes, lens, p, n - 1, none)
  }

  /** The canonical codes of L, one per symbol. */
  function Codes(L: seq<nat>): (c: seq<nat>)
    ensures |c| == |L| && forall s | 0 <= s < |L| :: c[s] == Code(L, s)
  {
    seq(|L|, s requires 0 <= s < |L| => Code(L, s))
  }

  /** The table codes2map builds for canonical lengths L indexed by M bits, from a zeroed map. */
  function Table(L: seq<nat>, M: nat): (t: seq<nat>)
    ensures |t| == Pow2(M)
  {
    seq(Pow2(M), p requires 0 <= p < Pow2(M) => Entry(Codes(L), L, p, |L|, 0))
  }

  /** Two symbols never hit the same slot when the lengths fit. */
  lemma {:induction false} HitsUnique(L: seq<nat>, s: nat, t: nat, p: nat)
    requires Fits(L) && s < |L| && t < |L|
    requires Hits(Code(L, s), L[s], p) && Hits(Code(L, t), L[t], p)
    ensures s == t
  {
    if s != t {
      if L[s] <= L[t] {
        SharedSlotPrefix(L, s, t, p);
        PrefixFree(L, s, t);
      } else {
        SharedSlotPrefix(L, t, s, p);
        PrefixFree(L, t, s);
      }
      assert false;
    }
  }

  /** When a short and a long code hit one slot, the short code begins the long one. */
  lemma {:induction false} SharedSlotPrefix(L: seq<nat>, s: nat, t: nat, p: nat)
    requires Fits(L) && s < |L| && t < |L| && L[s] <= L[t]
    requires Hits(Code(L, s), L[s], p) && Hits(Code(L, t), L[t], p)
    ensures Ushr(Code(L, t), L[t] - L[s]) == Code(L, s)
  {
    CodeFits(L, s);
    CodeFits(L, t);
    NestedHits(Code(L, s), L[s], Code(L, t), L[t], p);
  }

  /** An a-bit code and a b-bit code, a <= b, that hit one slot: the shorter is the top of the longer. */
  lemma NestedHits(cs: nat, a: nat, ct: nat, b: nat, p: nat)
    requires 0 < a <= b && cs < Pow2(a) && ct < Pow2(b)
    requires Low(p, a) == Rev(cs, a) && Low(p, b) == Rev(ct, b)
    ensures Ushr(ct, b - a) == cs
  {
    var u := Ushr(ct, b - a);
    assert Rev(u, a) == Rev(cs, a) by {
      LowLow(p, a, b);
      RevPrefix(ct, b, a);
    }
    assert u < Pow2(a) by {
      assert a + (b - a) == b;
      UshrBound(ct, b - a, a);
    }
    RevRev(cs, a);
    RevRev(u, a);
  }

  /** The entry of a slot is the hitting symbol, packed with its length, and 0 when none hits. */
  lemma {:induction false} EntryIsHit(L: seq<nat>, p: nat, n: nat)
    requires Fits(L) && n <= |L|
    ensures var e := Entry(Codes(L), L, p, n, 0);
      (e == 0 <==> forall s | 0 <= s < n :: !Hits(Code(L, s), L[s], p)) &&
      (forall s | 0 <= s < n :: Hits(Code(L, s), L[s], p) ==> e == 16 * s + L[s])
  {
    if n > 0 {
      EntryIsHit(L, p, n - 1);
      if Hits(Code(L, n - 1), L[n - 1], p) {
        forall s | 0 <= s < n - 1
          ensures !Hits(Code(L, s), L[s], p)
        {
          if Hits(Code(L, s), L[s], p) {
            HitsUnique(L, s, n - 1, p);
          }
        }
      }
    }
  }

  /**
   * The table finds the code that comes next in the stream: slot
   * `get17 & ((1 << M) - 1)` holds `(s << 4) | L[s]` exactly when the next
   * L[s] bits, read as a Huffman code, are the code of s.
   */
  lemma {:induction false} TableDecodes(L: seq<nat>, M: nat, dt: seq<Byte>, pos: nat, s: nat)
    requires Fits(L) && s < |L| && 0 < L[s] <= M
    ensures Table(L, M)[BitsValue(dt, pos, M)] == 16 * s + L[s] <==> CodeBits(dt, pos, L[s]) == Code(L, s)
  {
    var p := BitsValue(dt, pos, M);
    EntryIsHit(L, p, |L|);
    HitIsCode(L, M, dt, pos, s);
    var e := Entry(Codes(L), L, p, |L|, 0);
    assert Table(L, M)[p] == e;
    if e == 16 * s + L[s] {
      var t :| 0 <= t < |L| && Hits(Code(L, t), L[t], p);
      Unpack(t, L[t]);
      Unpack(s, L[s]);
      assert t == s;
    }
  }

  /** `code >>> 4` and `code & 15` undo `(s << 4) | l`. */
  lemma Unpack(s: nat, l: nat)
    requires l < 16
    ensures (16 * s + l) / 16 == s && (16 * s + l) % 16 == l
  {
    DivModUnique(16 * s + l, 16, s, l);
  }

  /** A slot of no hitting symbol holds 0: no code of L comes next in the stream. */
  lemma {:induction false} TableEmpty(L: seq<nat>, M: nat, dt: seq<Byte>, pos: nat)
    requires Fits(L) && forall s | 0 <= s < |L| :: L[s] <= M
    ensures Table(L, M)[BitsValue(dt, pos, M)] == 0 <==>
      forall s | 0 <= s < |L| && L[s] != 0 :: CodeBits(dt, pos, L[s]) != Code(L, s)
  {
    var p := BitsValue(dt, pos, M);
    EntryIsHit(L, p, |L|);
    forall s | 0 <= s < |L| && L[s] != 0
      ensures Hits(Code(L, s), L[s], p) <==> CodeBits(dt, pos, L[s]) == Code(L, s)
    {
      HitIsCode(L, M, dt, pos, s);
    }
  }

  /** Symbol s hits the slot read from the stream exactly when its code comes next. */
  lemma {:induction false} HitIsCode(L: seq<nat>, M: nat, dt: seq<Byte>, pos: nat, s: nat)
    requires Fits(L) && s < |L| && 0 < L[s] <= M
    ensures Hits(Code(L, s), L[s], BitsValue(dt, pos, M)) <==> CodeBits(dt, pos, L[s]) == Code(L, s)
  {
    var l := L[s];
    BitsValuePrefix(dt, pos, M, l);
    CodeBitsIsRev(dt, pos, l);
    CodeFits(L, s);
    RevRev(Code(L, s), l);
    RevRev(BitsValue(dt, pos, l), l);
  }

  // ---------------------------------------------------------------------
  // Decoding by search

  /**
   * The symbol whose canonical code comes next in the stream at pos, found
   * by trying every symbol of nonzero length in turn: the reference the
   * lookup table is checked against.
   */
  function Match(L: seq<nat>, dt: seq<Byte>, pos: nat): (r: Option<nat>)
    ensures r.Some? ==> Comes(L, dt, pos, r.value)
    ensures r.None? ==> forall t :: !Comes(L, dt, pos, t)
  {
    MatchFromFacts(L, dt, pos, 0);
    MatchFrom(L, dt, pos, 0)
  }

  /** Symbol t has a code, and that code is what the stream holds next at pos. */
  predicate Comes(L: seq<nat>, dt: seq<Byte>, pos: nat, t: nat)
  {
    t < |L| && L[t] != 0 && CodeBits(dt, pos, L[t]) == Code(L, t)
  }

  function MatchFrom(L: seq<nat>, dt: seq<Byte>, pos: nat, s: nat): (r: Option<nat>)
    decreases |L| - s
  {
    if s >= |L| then None
    else if L[s] != 0 && CodeBits(dt, pos, L[s]) == Code(L, s) then Some(s)
    else MatchFrom(L, dt, pos, s + 1)
  }

  /** A search that succeeds finds a symbol whose code comes next; one that fails finds none from s on. */
  lemma {:induction false} MatchFromFacts(L: seq<nat>, dt: seq<Byte>, pos: nat, s: nat)
    ensures var r := MatchFrom(L, dt, pos, s);
      (r.Some? ==> s <= r.value < |L| && L[r.value] != 0 && CodeBits(dt, pos, L[r.value]) == Code(L, r.value)) &&
      (r.None? ==> forall t | s <= t < |L| && L[t] != 0 :: CodeBits(dt, pos, L[t]) != Code(L, t))
    decreases |L| - s
  {
    if s < |L| && !(L[s] != 0 && CodeBits(dt, pos, L[s]) == Code(L, s)) {
      MatchFromFacts(L, dt, pos, s + 1);
    }
  }

  /**
   * The table lookup codes2map prepares agrees with the search: the slot
   * read from the next M stream bits holds `(s << 4) | L[s]` for the symbol
   * s whose code comes next, and 0 when no code comes next.
   */
  lemma TableMatch(L: seq<nat>, M: nat, dt: seq<Byte>, pos: nat)
    requires Fits(L) && forall s | 0 <= s < |L| :: L[s] <= M
    ensures Table(L, M)[BitsValue(dt, pos, M)] ==
      match Match(L, dt, pos) case Some(s) => 16 * s + L[s] case None => 0
  {
    match Match(L, dt, pos)
    case Some(s) =>
      TableDecodes(L, M, dt, pos, s);
    case None =>
      TableEmpty(L, M, dt, pos);
      forall s | 0 <= s < |L| && L[s] != 0
        ensures CodeBits(dt, pos, L[s]) != Code(L, s)
      {
        assert !Comes(L, dt, pos, s);
      }
  }

  /** At most one code comes next: a found symbol is the only one. */
  lemma MatchUnique(L: seq<nat>, dt: seq<Byte>, pos: nat, t: nat)
    requires Fits(L) && t < |L| && L[t] != 0 && CodeBits(dt, pos, L[t]) == Code(L, t)
    ensures Match(L, dt, pos) == Some(t)
  {
    assert Comes(L, dt, pos, t);
    var s := Match(L, dt, pos).value;
    SameStreamSameSymbol(L, dt, pos, s, t);
  }

  /** Two symbols whose codes both come next are the same symbol. */
  lemma SameStreamSameSymbol(L: seq<nat>, dt: seq<Byte>, pos: nat, s: nat, t: nat)
    requires Fits(L) && s < |L| && t < |L| && L[s] != 0 && L[t] != 0
    requires CodeBits(dt, pos, L[s]) == Code(L, s) && CodeBits(dt, pos, L[t]) == Code(L, t)
    ensures s == t
  {
    var M := if L[s] <= L[t] then L[t] else L[s];
    HitIsCode(L, M, dt, pos, s);
    HitIsCode(L, M, dt, pos, t);
    HitsUnique(L, s, t, BitsValue(dt, pos, M));
  }
}
