/** JavaScript's bitwise operators on 32-bit unsigned patterns, written on
    `nat`: `&`, `|`, `<<` and `>>>`. A value produced by `<<` or `|` is kept
    as its 32-bit pattern; `>>>` reads that pattern as unsigned, so a sign
    never enters the model. */
module Words {
  import opened Arith

  const WordSize: nat := 0x1_0000_0000

  /** Bitwise and of the low n bits of x and y. */
  function AndBits(x: nat, y: nat, n: nat): (r: nat)
    ensures r < Pow2(n)
  {
    if n == 0 then 0
    else (if x % 2 == 1 && y % 2 == 1 then 1 else 0) + 2 * AndBits(x / 2, y / 2, n - 1)
  }

  /** Bitwise or of the low n bits of x and y. */
  function OrBits(x: nat, y: nat, n: nat): (r: nat)
    ensures r < Pow2(n)
  {
    if n == 0 then 0
    else (if x % 2 == 1 || y % 2 == 1 then 1 else 0) + 2 * OrBits(x / 2, y / 2, n - 1)
  }

  function And32(x: nat, y: nat): nat { AndBits(x, y, 32) }
  function Or32(x: nat, y: nat): nat { OrBits(x, y, 32) }
  function Shl32(x: nat, k: nat): nat { Low(Shl(x, k), 32) }

  lemma Pow2Is32()
    ensures Pow2(32) == WordSize
  {
    Pow2Values();
  }

  lemma {:induction false} AndBit(x: nat, y: nat, n: nat, j: nat)
    ensures Bit(AndBits(x, y, n), j) == if j < n && Bit(x, j) == 1 && Bit(y, j) == 1 then 1 else 0
  {
    if n == 0 {
      BitZero(j);
    } else if j > 0 {
      AndBit(x / 2, y / 2, n - 1, j - 1);
    }
  }

  lemma {:induction false} OrBit(x: nat, y: nat, n: nat, j: nat)
    ensures Bit(OrBits(x, y, n), j) == if j < n && (Bit(x, j) == 1 || Bit(y, j) == 1) then 1 else 0
  {
    if n == 0 {
      BitZero(j);
    } else if j > 0 {
      OrBit(x / 2, y / 2, n - 1, j - 1);
    }
  }

  lemma {:induction false} OrComm(x: nat, y: nat, n: nat)
    ensures OrBits(x, y, n) == OrBits(y, x, n)
  {
    if n > 0 {
      OrComm(x / 2, y / 2, n - 1);
    }
  }

  lemma {:induction false} ShlBit(x: nat, k: nat, j: nat)
    ensures Bit(Shl32(x, k), j) == if k <= j < 32 then Bit(x, j - k) else 0
  {
    BitLow(Shl(x, k), 32, j);
    BitMul(x, k, j);
  }

  lemma ShlSmall(x: nat, k: nat)
    requires Shl(x, k) < WordSize
    ensures Shl32(x, k) == Shl(x, k)
  {
    Pow2Is32();
    LowSmall(Shl(x, k), 32);
  }

  /** A byte shifted left by k <= 24 stays inside the word: the shift multiplies by 2^k. */
  lemma ShlByte(x: nat, k: nat)
    requires x < 256 && k <= 24
    ensures Shl(x, k) == Pow2(k) * x && Shl32(x, k) == Shl(x, k) && Shl(x, k) < Pow2(k + 8)
  {
    ShlIsMul(x, k);
    Pow2Values();
    ConcatBound(0, k, x, 8);
    Pow2Mono(k + 8, 32);
    ShlSmall(x, k);
  }

  /** `a | (c << m)` adds when the bits of a lie below m. */
  lemma OrDisjoint(a: nat, m: nat, c: nat)
    requires a < Pow2(m) && a + Shl(c, m) < WordSize
    ensures Or32(a, Shl(c, m)) == a + Shl(c, m)
    ensures Or32(Shl(c, m), a) == a + Shl(c, m)
  {
    Pow2Is32();
    var hi := Shl(c, m);
    var x, y := OrBits(a, hi, 32), a + hi;
    forall j | 0 <= j < 32
      ensures Bit(x, j) == Bit(y, j)
    {
      OrDisjointBit(a, m, c, j);
    }
    BitsEqual(x, y, 32);
    OrComm(a, hi, 32);
  }

  lemma OrDisjointBit(a: nat, m: nat, c: nat, j: nat)
    requires a < Pow2(m) && j < 32
    ensures Bit(OrBits(a, Shl(c, m), 32), j) == Bit(a + Shl(c, m), j)
  {
    OrBit(a, Shl(c, m), 32, j);
    BitConcat(a, m, c, j);
    BitMul(c, m, j);
    if j >= m {
      BitsBelow(a, m, j);
    }
  }

  /** `(1 << n) - 1`, the mask of the low n bits. */
  function LowMask(n: nat): (r: nat)
    requires n < 32
    ensures r == Pow2(n) - 1
  {
    MaskIs(n);
    Shl32(1, n) - 1
  }

  lemma MaskIs(n: nat)
    requires n < 32
    ensures Shl32(1, n) == Pow2(n)
  {
    ShlZero(n);
    Pow2Mono(n, 31);
    Pow2Is32();
    assert Pow2(32) == 2 * Pow2(31);
    ShlSmall(1, n);
  }

  /** `x & ((1 << n) - 1)` keeps the low n bits. */
  lemma AndLowMask(x: nat, n: nat)
    requires n <= 32
    ensures And32(x, Pow2(n) - 1) == Low(x, n)
  {
    Pow2Is32();
    Pow2Mono(n, 32);
    var ones := Pow2(n) - 1;
    var lo := Low(x, n);
    forall j | 0 <= j < 32
      ensures Bit(AndBits(x, ones, 32), j) == Bit(lo, j)
    {
      AndLowMaskBit(x, n, j);
    }
    BitsEqual(AndBits(x, ones, 32), lo, 32);
  }

  /** `x & ((1 << n) - 1)` keeps the low n bits of x. */
  lemma AndMask(x: nat, n: nat)
    requires n < 32
    ensures And32(x, LowMask(n)) == Low(x, n)
  {
    AndLowMask(x, n);
  }

  lemma AndLowMaskBit(x: nat, n: nat, j: nat)
    requires j < 32
    ensures Bit(AndBits(x, Pow2(n) - 1, 32), j) == Bit(Low(x, n), j)
  {
    AndBit(x, Pow2(n) - 1, 32, j);
    OnesBit(n, j);
    BitLow(x, n, j);
  }

  /** Bit i of `2^w - 1` repeated with period 2w: the mask that keeps the
      lower half of every 2w-bit group. */
  function Repeat(unit: nat, w: nat, t: nat): nat
  {
    if t == 0 then 0 else unit + Shl(Repeat(unit, w, t - 1), w)
  }

  lemma ModShift(j: nat, w: nat)
    requires 0 < w <= j
    ensures (j - w) % w == j % w
  {
    DivModUnique(j, w, (j - w) / w + 1, (j - w) % w);
  }

  lemma {:induction false} RepeatBit(unit: nat, w: nat, t: nat, j: nat)
    requires 0 < w && unit < Pow2(w)
    ensures Bit(Repeat(unit, w, t), j) == if j < w * t then Bit(unit, j % w) else 0
  {
    if t == 0 {
      BitZero(j);
    } else {
      var rest := Repeat(unit, w, t - 1);
      var m: nat := w * (t - 1);
      assert w * t == m + w;
      assert Bit(Repeat(unit, w, t), j) == if j < w then Bit(unit, j) else Bit(rest, j - w) by {
        BitConcat(unit, w, rest, j);
      }
      if j >= w {
        RepeatBit(unit, w, t - 1, j - w);
        ModShift(j, w);
      } else {
        DivModUnique(j, w, 0, j);
      }
    }
  }

  lemma {:induction false} RepeatSplit(unit: nat, w: nat, t: nat, s: nat)
    ensures Repeat(unit, w, t + s) == Repeat(unit, w, t) + Shl(Repeat(unit, w, s), w * t)
  {
    if t > 0 {
      var m: nat := w * (t - 1);
      assert w * t == m + w;
      var a, b := Repeat(unit, w, t - 1), Repeat(unit, w, s);
      calc {
        Repeat(unit, w, t + s);
        unit + Shl(Repeat(unit, w, t - 1 + s), w);
        { RepeatSplit(unit, w, t - 1, s); }
        unit + Shl(a + Shl(b, m), w);
        { ShlDistrib(a, Shl(b, m), w); ShlAdd(b, m, w); }
        unit + Shl(a, w) + Shl(b, m + w);
      }
    }
  }

  lemma {:induction false} OnesBit(a: nat, i: nat)
    ensures Pow2(a) >= 1 && Bit(Pow2(a) - 1, i) == if i < a then 1 else 0
  {
    if a == 0 {
      BitZero(i);
    } else {
      assert Pow2(a) - 1 == 1 + 2 * (Pow2(a - 1) - 1);
      if i > 0 {
        OnesBit(a - 1, i - 1);
      }
    }
  }

  lemma RepeatDouble(unit: nat, w: nat, t: nat)
    ensures Repeat(unit, w, 2 * t) == Repeat(unit, w, t) + Shl(Repeat(unit, w, t), w * t)
  {
    RepeatSplit(unit, w, t, t);
  }

  /** Doubling a repetition whose value is known. */
  lemma RepeatDoubleValue(unit: nat, w: nat, t: nat, v: nat, p: nat)
    requires Repeat(unit, w, t) == v && Pow2(w * t) == p
    ensures Repeat(unit, w, 2 * t) == v + p * v
  {
    RepeatDouble(unit, w, t);
    ShlIsMul(v, w * t);
  }

  lemma RepeatOnce(unit: nat, w: nat)
    ensures Repeat(unit, w, 1) == unit
  {
    ShlZero(w);
  }

  /** The eight masks of the swap network are repetitions of one group. */
  lemma MaskValues()
    ensures Repeat(1, 2, 16) == 0x55555555 && Repeat(2, 2, 16) == 0xaaaaaaaa
    ensures Repeat(3, 4, 8) == 0x33333333 && Repeat(12, 4, 8) == 0xcccccccc
    ensures Repeat(15, 8, 4) == 0x0f0f0f0f && Repeat(240, 8, 4) == 0xf0f0f0f0
    ensures Repeat(255, 16, 2) == 0x00ff00ff && Repeat(0xff00, 16, 2) == 0xff00ff00
  {
    Pow2Values();
    assert Pow2(2) == 4 && Pow2(4) == 16;
    MaskValues2(1);
    MaskValues2(2);
    MaskValues4(3);
    MaskValues4(12);
    RepeatOnce(15, 8);
    RepeatDoubleValue(15, 8, 1, 15, 0x100);
    RepeatDoubleValue(15, 8, 2, 0x0f0f, 0x1_0000);
    RepeatOnce(240, 8);
    RepeatDoubleValue(240, 8, 1, 240, 0x100);
    RepeatDoubleValue(240, 8, 2, 0xf0f0, 0x1_0000);
    RepeatOnce(255, 16);
    RepeatDoubleValue(255, 16, 1, 255, 0x1_0000);
    RepeatOnce(0xff00, 16);
    RepeatDoubleValue(0xff00, 16, 1, 0xff00, 0x1_0000);
  }

  /** Sixteen copies of a 2-bit group u. */
  lemma MaskValues2(u: nat)
    requires u == 1 || u == 2
    ensures Repeat(u, 2, 16) == u * 0x55555555
  {
    Pow2Values();
    assert Pow2(2) == 4 && Pow2(4) == 16;
    RepeatOnce(u, 2);
    RepeatDoubleValue(u, 2, 1, u, 4);
    RepeatDoubleValue(u, 2, 2, u * 5, 16);
    RepeatDoubleValue(u, 2, 4, u * 0x55, 0x100);
    RepeatDoubleValue(u, 2, 8, u * 0x5555, 0x1_0000);
  }

  /** Eight copies of a 4-bit group u. */
  lemma MaskValues4(u: nat)
    requires u == 3 || u == 12
    ensures Repeat(u, 4, 8) == u * 0x11111111
  {
    Pow2Values();
    assert Pow2(4) == 16;
    RepeatOnce(u, 4);
    RepeatDoubleValue(u, 4, 1, u, 16);
    RepeatDoubleValue(u, 4, 2, u * 0x11, 0x100);
    RepeatDoubleValue(u, 4, 4, u * 0x1111, 0x1_0000);
  }

  /** Bit i of the mask that keeps the lower k bits of every 2k-bit group. */
  lemma LowMaskBit(k: nat, t: nat, i: nat)
    requires 0 < k && 2 * k * t == 32 && i < 32
    ensures Bit(Repeat(Pow2(k) - 1, 2 * k, t), i) == if i % (2 * k) < k then 1 else 0
  {
    Pow2Mono(k, 2 * k);
    RepeatBit(Pow2(k) - 1, 2 * k, t, i);
    OnesBit(k, i % (2 * k));
  }

  /** Bit i of the mask that keeps the upper k bits of every 2k-bit group. */
  lemma HighMaskBit(k: nat, t: nat, i: nat)
    requires 0 < k && 2 * k * t == 32 && i < 32
    ensures Bit(Repeat(Shl(Pow2(k) - 1, k), 2 * k, t), i) == if i % (2 * k) >= k then 1 else 0
  {
    ConcatBound(0, k, Pow2(k) - 1, k);
    RepeatBit(Shl(Pow2(k) - 1, k), 2 * k, t, i);
    var r := i % (2 * k);
    BitMul(Pow2(k) - 1, k, r);
    if r >= k {
      OnesBit(k, r - k);
    }
  }

  /** Where bit j of a stage's output comes from: the neighbouring k-bit group. */
  function Partner(j: nat, k: nat): nat
    requires k > 0
  {
    if j % (2 * k) < k then j + k else if j >= k then j - k else 0
  }

  lemma PartnerFacts(j: nat, k: nat)
    requires k == 1 || k == 2 || k == 4 || k == 8
    requires j < 32
    ensures j % (2 * k) < k ==> j + k < 32 && (j + k) % (2 * k) >= k && (j >= k ==> (j - k) % (2 * k) >= k)
    ensures j % (2 * k) >= k ==> j >= k && (j - k) % (2 * k) < k && (j + k < 32 ==> (j + k) % (2 * k) < k)
  {
    var m := 2 * k;
    PartnerFactsMod(j, k, m);
  }

  lemma PartnerFactsMod(j: nat, k: nat, m: nat)
    requires (k == 1 && m == 2) || (k == 2 && m == 4) || (k == 4 && m == 8) || (k == 8 && m == 16)
    requires j < 32
    ensures j % m < k ==> j + k < 32 && (j + k) % m >= k && (j >= k ==> (j - k) % m >= k)
    ensures j % m >= k ==> j >= k && (j - k) % m < k && (j + k < 32 ==> (j + k) % m < k)
  {
    if k == 1 {
      PartnerFacts1(j);
    } else if k == 2 {
      PartnerFacts2(j);
    } else if k == 4 {
      PartnerFacts4(j);
    } else {
      PartnerFacts8(j);
    }
  }

  lemma PartnerFacts1(j: nat)
    requires j < 32
    ensures j % 2 < 1 ==> j + 1 < 32 && (j + 1) % 2 >= 1 && (j >= 1 ==> (j - 1) % 2 >= 1)
    ensures j % 2 >= 1 ==> j >= 1 && (j - 1) % 2 < 1 && (j + 1 < 32 ==> (j + 1) % 2 < 1)
  {
  }

  lemma PartnerFacts2(j: nat)
    requires j < 32
    ensures j % 4 < 2 ==> j + 2 < 32 && (j + 2) % 4 >= 2 && (j >= 2 ==> (j - 2) % 4 >= 2)
    ensures j % 4 >= 2 ==> j >= 2 && (j - 2) % 4 < 2 && (j + 2 < 32 ==> (j + 2) % 4 < 2)
  {
  }

  lemma PartnerFacts4(j: nat)
    requires j < 32
    ensures j % 8 < 4 ==> j + 4 < 32 && (j + 4) % 8 >= 4 && (j >= 4 ==> (j - 4) % 8 >= 4)
    ensures j % 8 >= 4 ==> j >= 4 && (j - 4) % 8 < 4 && (j + 4 < 32 ==> (j + 4) % 8 < 4)
  {
  }

  lemma PartnerFacts8(j: nat)
    requires j < 32
    ensures j % 16 < 8 ==> j + 8 < 32 && (j + 8) % 16 >= 8 && (j >= 8 ==> (j - 8) % 16 >= 8)
    ensures j % 16 >= 8 ==> j >= 8 && (j - 8) % 16 < 8 && (j + 8 < 32 ==> (j + 8) % 16 < 8)
  {
  }

  /** One stage of the swap network: `((x & hi) >>> k) | ((x & lo) << k)`. */
  function SwapStage(x: nat, hi: nat, lo: nat, k: nat): nat
  {
    Or32(Ushr(And32(x, hi), k), Shl32(And32(x, lo), k))
  }

  lemma SwapStageBit(x: nat, hi: nat, lo: nat, k: nat, j: nat, low: bool)
    requires 0 < k && j < 32
    requires low ==> j + k < 32 && Bit(hi, j + k) == 1 && (j >= k ==> Bit(lo, j - k) == 0)
    requires !low ==> j >= k && Bit(lo, j - k) == 1 && (j + k < 32 ==> Bit(hi, j + k) == 0)
    ensures Bit(SwapStage(x, hi, lo, k), j) == if low then Bit(x, j + k) else Bit(x, j - k)
  {
    var a, b := Ushr(And32(x, hi), k), Shl32(And32(x, lo), k);
    OrBit(a, b, 32, j);
    BitShift(And32(x, hi), k, j);
    AndBit(x, hi, 32, j + k);
    ShlBit(And32(x, lo), k, j);
    if j >= k {
      AndBit(x, lo, 32, j - k);
    }
  }

  lemma StageBit(x: nat, k: nat, t: nat, j: nat)
    requires k == 1 || k == 2 || k == 4 || k == 8
    requires 2 * k * t == 32 && j < 32
    ensures Bit(SwapStage(x, Repeat(Shl(Pow2(k) - 1, k), 2 * k, t), Repeat(Pow2(k) - 1, 2 * k, t), k), j)
         == Bit(x, Partner(j, k))
  {
    var hi, lo := Repeat(Shl(Pow2(k) - 1, k), 2 * k, t), Repeat(Pow2(k) - 1, 2 * k, t);
    PartnerFacts(j, k);
    var low := j % (2 * k) < k;
    if j + k < 32 {
      HighMaskBit(k, t, j + k);
    }
    if j >= k {
      LowMaskBit(k, t, j - k);
    }
    SwapStageBit(x, hi, lo, k, j, low);
  }

  /** `(x >>> 16) | (x << 16)`: the two 16-bit halves of a word exchanged. */
  lemma HalfSwapBit(x: nat, j: nat)
    requires x < WordSize && j < 32
    ensures Bit(Or32(Ushr(x, 16), Shl32(x, 16)), j) == if j < 16 then Bit(x, j + 16) else Bit(x, j - 16)
  {
    Pow2Is32();
    OrBit(Ushr(x, 16), Shl32(x, 16), 32, j);
    BitShift(x, 16, j);
    if j >= 16 {
      BitsBelow(x, 32, j + 16);
    }
    ShlBit(x, 16, j);
  }

  lemma PartnerChain(v: nat)
    requires 1 <= v < 16
    ensures Partner(Partner(Partner(Partner(v, 8), 4), 2), 1) == 15 - v
  {
  }

  /** The entry `init` stores in rev15 for index i: the swap network on a
      32-bit word followed by `>>> 17`. */
  function Reverse15(i: nat): (r: nat)
    ensures r < Pow2(15)
  {
    var x := SwapStage(i, 0xaaaaaaaa, 0x55555555, 1);
    var x := SwapStage(x, 0xcccccccc, 0x33333333, 2);
    var x := SwapStage(x, 0xf0f0f0f0, 0x0f0f0f0f, 4);
    var x := SwapStage(x, 0xff00ff00, 0x00ff00ff, 8);
    var y := Or32(Ushr(x, 16), Shl32(x, 16));
    assert 15 + 17 == 32;
    UshrBound(y, 17, 15);
    Ushr(y, 17)
  }

  /** The four stages of Reverse15, each with its literal masks. */
  lemma Stage1(x: nat, j: nat)
    requires j < 32
    ensures Bit(SwapStage(x, 0xaaaaaaaa, 0x55555555, 1), j) == Bit(x, Partner(j, 1))
  {
    assert Pow2(1) == 2;
    assert Shl(1, 1) == 2;
    MaskValues();
    StageBit(x, 1, 16, j);
  }

  lemma Stage2(x: nat, j: nat)
    requires j < 32
    ensures Bit(SwapStage(x, 0xcccccccc, 0x33333333, 2), j) == Bit(x, Partner(j, 2))
  {
    assert Pow2(2) == 4;
    assert Shl(3, 2) == 12;
    MaskValues();
    StageBit(x, 2, 8, j);
  }

  lemma Stage4(x: nat, j: nat)
    requires j < 32
    ensures Bit(SwapStage(x, 0xf0f0f0f0, 0x0f0f0f0f, 4), j) == Bit(x, Partner(j, 4))
  {
    assert Pow2(4) == 16;
    assert Shl(15, 4) == 240;
    MaskValues();
    StageBit(x, 4, 4, j);
  }

  lemma Stage8(x: nat, j: nat)
    requires j < 32
    ensures Bit(SwapStage(x, 0xff00ff00, 0x00ff00ff, 8), j) == Bit(x, Partner(j, 8))
  {
    MaskValues();
    Pow2Values();
    assert Shl(255, 8) == 0xff00 by {
      ShlIsMul(255, 8);
    }
    StageBit(x, 8, 2, j);
  }

  lemma Reverse15IsRev(i: nat)
    requires i < Pow2(15)
    ensures Reverse15(i) == Rev(i, 15)
  {
    var r := Reverse15(i);
    forall j | 0 <= j < 15
      ensures Bit(r, j) == Bit(Rev(i, 15), j)
    {
      Reverse15Bit(i, j);
    }
    BitsEqual(r, Rev(i, 15), 15);
  }

  lemma Reverse15Bit(i: nat, j: nat)
    requires i < Pow2(15) && j < 15
    ensures Bit(Reverse15(i), j) == Bit(Rev(i, 15), j)
  {
    Pow2Is32();
    var x4 := SwapStage(SwapStage(SwapStage(SwapStage(i, 0xaaaaaaaa, 0x55555555, 1),
                          0xcccccccc, 0x33333333, 2), 0xf0f0f0f0, 0x0f0f0f0f, 4), 0xff00ff00, 0x00ff00ff, 8);
    var y := Or32(Ushr(x4, 16), Shl32(x4, 16));
    BitShift(y, 17, j);
    HalfSwapBit(x4, j + 17);
    NetworkBit(i, j + 1);
    RevBit(i, 15, j);
  }

  /** The four swap stages move bit 15 - v of i to bit v, for v in 1 .. 15. */
  lemma NetworkBit(i: nat, v: nat)
    requires 1 <= v < 16
    ensures Bit(SwapStage(SwapStage(SwapStage(SwapStage(i, 0xaaaaaaaa, 0x55555555, 1),
                  0xcccccccc, 0x33333333, 2), 0xf0f0f0f0, 0x0f0f0f0f, 4), 0xff00ff00, 0x00ff00ff, 8), v)
            == Bit(i, 15 - v)
  {
    var x1 := SwapStage(i, 0xaaaaaaaa, 0x55555555, 1);
    var x2 := SwapStage(x1, 0xcccccccc, 0x33333333, 2);
    var x3 := SwapStage(x2, 0xf0f0f0f0, 0x0f0f0f0f, 4);
    var p8 := Partner(v, 8);
    var p4 := Partner(p8, 4);
    var p2 := Partner(p4, 2);
    PartnerFacts(v, 8);
    PartnerFacts(p8, 4);
    PartnerFacts(p4, 2);
    Stage8(x3, v);
    Stage4(x2, p8);
    Stage2(x1, p4);
    Stage1(i, p2);
    PartnerChain(v);
  }
}
