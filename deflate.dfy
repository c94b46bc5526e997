// The constant tables of DEFLATE as unzipjs.js holds them (section 3.2.5 and
// 3.2.6 of RFC 1951): base lengths and distances with their extra bits, the
// order of the code length code lengths, and the fixed Huffman code lengths,
// with the facts that make them usable: the fixed lengths are a complete
// canonical code whose codes are those listed in section 3.2.6.

module Deflate {
  import opened Arith
  import opened Huffman

  /** `of0`: base length of length codes 257 .. 285, then three unused entries. */
  const Of0: seq<nat> := [3, 4, 5, 6, 7, 8, 9, 10, 11, 13, 15, 17, 19, 23, 27, 31, 35, 43, 51, 59, 67, 83, 99,
                          115, 131, 163, 195, 227, 258, 999, 999, 999]

  /** `exb`: extra bits of length codes 257 .. 285. */
  const Exb: seq<nat> := [0, 0, 0, 0, 0, 0, 0, 0, 1, 1, 1, 1, 2, 2, 2, 2, 3, 3, 3, 3, 4, 4, 4, 4, 5, 5, 5, 5,
                          0, 0, 0, 0]

  /** `df0`: base distance of distance codes 0 .. 29, then two unused entries. */
  const Df0: seq<nat> := [1, 2, 3, 4, 5, 7, 9, 13, 17, 25, 33, 49, 65, 97, 129, 193, 257, 385, 513, 769, 1025,
                          1537, 2049, 3073, 4097, 6145, 8193, 12289, 16385, 24577, 65535, 65535]

  /** `dxb`: extra bits of distance codes 0 .. 29. */
  const Dxb: seq<nat> := [0, 0, 0, 0, 1, 1, 2, 2, 3, 3, 4, 4, 5, 5, 6, 6, 7, 7, 8, 8, 9, 9, 10, 10, 11, 11,
                          12, 12, 13, 13, 0, 0]

  /** `ordr`: the order in which a dynamic header lists the code length code lengths. */
  const Ordr: seq<nat> := [16, 17, 18, 0, 8, 7, 9, 6, 10, 5, 11, 4, 12, 3, 13, 2, 14, 1, 15]

  /** The fixed literal/length code lengths: 8 for 0-143, 9 for 144-255, 7 for 256-279, 8 for 280-287. */
  function FixedLitLen(s: nat): nat
  {
    if s < 144 then 8 else if s < 256 then 9 else if s < 280 then 7 else 8
  }

  /** The fixed lengths of the first n literal/length symbols. */
  function FixedLitLens(n: nat): seq<nat>
  {
    seq(n, s requires 0 <= s => FixedLitLen(s))
  }

  /** n codes of length 5. */
  function Fives(n: nat): seq<nat>
  {
    seq(n, s => 5)
  }

  const FixedLit: seq<nat> := FixedLitLens(288)

  /** The fixed distance code: 32 codes of length 5. */
  const FixedDist: seq<nat> := Fives(32)

  /** The length ranges of consecutive length codes 257 .. 284 follow each other (section 3.2.5 of RFC 1951). */
  lemma LengthRanges()
    ensures |Of0| == |Exb| == 32
    ensures forall i | 0 <= i < 27 :: Of0[i] + Pow2(Exb[i]) == Of0[i + 1]
    ensures Of0[27] + Pow2(Exb[27]) - 1 == 258 && Of0[28] == 258 && Exb[28] == 0
  {
    assert Pow2(1) == 2 && Pow2(2) == 4 && Pow2(3) == 8 && Pow2(4) == 16 && Pow2(5) == 32;
  }

  /** The distance ranges of consecutive distance codes 0 .. 29 follow each other and end at 32768. */
  lemma DistanceRanges()
    ensures |Df0| == |Dxb| == 32
    ensures forall i | 0 <= i < 29 :: Df0[i] + Pow2(Dxb[i]) == Df0[i + 1]
    ensures Df0[29] + Pow2(Dxb[29]) - 1 == 32768
  {
    Pow2Values();
    assert Pow2(1) == 2 && Pow2(2) == 4 && Pow2(3) == 8 && Pow2(4) == 16 && Pow2(6) == 64;
    assert Pow2(10) == 1024 && Pow2(11) == 2048 && Pow2(12) == 4096 && Pow2(13) == 8192;
  }

  /** The order of code length code lengths lists each of the 19 symbols once. */
  lemma OrdrIsPermutation()
    ensures |Ordr| == 19
    ensures forall i, j | 0 <= i < j < 19 :: Ordr[i] != Ordr[j]
    ensures forall i | 0 <= i < 19 :: Ordr[i] < 19
  {
  }

  /** How many of the first k fixed literal/length symbols have length b. */
  function FixedLitCount(k: nat, b: nat): nat
  {
    if b == 7 then (if k <= 256 then 0 else if k <= 280 then k - 256 else 24)
    else if b == 8 then (if k <= 144 then k else if k <= 280 then 144 else 144 + k - 280)
    else if b == 9 then (if k <= 144 then 0 else if k <= 256 then k - 144 else 112)
    else 0
  }

  lemma {:induction false} FixedLitPrefixCount(k: nat, b: nat)
    requires k <= 288
    ensures CountLen(FixedLit[..k], b) == FixedLitCount(k, b)
  {
    if k == 0 {
      assert FixedLit[..0] == [];
    } else {
      FixedLitPrefixCount(k - 1, b);
      CountPrefixStep(FixedLit, k - 1, b);
    }
  }

  lemma FixedLitCounts(b: nat)
    ensures CountLen(FixedLit, b) == FixedLitCount(288, b)
  {
    FixedLitPrefixCount(288, b);
    assert FixedLit[..288] == FixedLit;
  }

  /** The first codes of each fixed literal/length code length. */
  lemma FixedLitNextCodes()
    ensures NextCode(FixedLit, 7) == 0 && NextCode(FixedLit, 8) == 48 && NextCode(FixedLit, 9) == 400
  {
    forall b | 0 <= b <= 8
      ensures CountLen(FixedLit, b) == FixedLitCount(288, b)
    {
      FixedLitCounts(b);
    }
    assert NextCode(FixedLit, 1) == 0;
    assert NextCode(FixedLit, 2) == 0;
    assert NextCode(FixedLit, 3) == 0;
    assert NextCode(FixedLit, 4) == 0;
    assert NextCode(FixedLit, 5) == 0;
    assert NextCode(FixedLit, 6) == 0;
  }

  /** The fixed literal/length lengths form a complete code of lengths at most 9. */
  lemma FixedLitFits()
    ensures Fits(FixedLit) && forall s | 0 <= s < |FixedLit| :: 7 <= FixedLit[s] <= 9
    ensures CountLen(FixedLit, 7) + NextCode(FixedLit, 7) == 24
    ensures NextCode(FixedLit, 9) + CountLen(FixedLit, 9) == Pow2(9)
  {
    FixedLitNextCodes();
    forall b | 1 <= b <= MaxLen
      ensures CountLen(FixedLit, b) == 0 || NextCode(FixedLit, b) + CountLen(FixedLit, b) <= Pow2(b)
    {
      FixedLitCounts(b);
      Pow2Values();
      assert Pow2(7) == 128 && Pow2(8) == 256 && Pow2(9) == 512;
    }
    FixedLitCounts(7);
    FixedLitCounts(9);
    Pow2Values();
  }

  /**
   * The fixed literal/length codes are the ones section 3.2.6 of RFC 1951
   * lists: 0-143 get 00110000 .. 10111111, 144-255 get 110010000 ..
   * 111111111, 256-279 get 0000000 .. 0010111, 280-287 get 11000000 .. 11000111.
   */
  lemma FixedLitCodes(s: nat)
    requires s < 288
    ensures Code(FixedLit, s) ==
      if s < 144 then 48 + s else if s < 256 then 400 + (s - 144) else if s < 280 then s - 256 else 192 + (s - 280)
  {
    FixedLitNextCodes();
    FixedLitPrefixCount(s, FixedLit[s]);
  }

  lemma {:induction false} FixedDistPrefixCount(k: nat, b: nat)
    requires k <= 32
    ensures CountLen(FixedDist[..k], b) == if b == 5 then k else 0
  {
    if k == 0 {
      assert FixedDist[..0] == [];
    } else {
      FixedDistPrefixCount(k - 1, b);
      CountPrefixStep(FixedDist, k - 1, b);
    }
  }

  /** The fixed distance lengths form a complete code, and distance code d is d itself in 5 bits. */
  lemma FixedDistFits()
    ensures Fits(FixedDist) && forall s | 0 <= s < |FixedDist| :: FixedDist[s] == 5
    ensures forall s | 0 <= s < 32 :: Code(FixedDist, s) == s
  {
    forall b | 0 <= b <= MaxLen
      ensures CountLen(FixedDist, b) == if b == 5 then 32 else 0
    {
      FixedDistPrefixCount(32, b);
      assert FixedDist[..32] == FixedDist;
    }
    assert NextCode(FixedDist, 5) == 0 by {
      assert NextCode(FixedDist, 1) == 0;
      assert NextCode(FixedDist, 2) == 0;
      assert NextCode(FixedDist, 3) == 0;
      assert NextCode(FixedDist, 4) == 0;
    }
    forall s | 0 <= s < 32
      ensures Code(FixedDist, s) == s
    {
      FixedDistPrefixCount(s, 5);
    }
    assert Pow2(5) == 32;
  }
}
