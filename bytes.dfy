// The byte and bit readers of unzipjs.js: little-endian integers (readUshort,
// readUint) and LSB-first bit fields at an arbitrary bit offset (bitsE, bitsF,
// get17), each proved against a bit-by-bit reading of the stream.

module Readers {
  import opened Arith
  import opened Words

  /** One element of a Uint8Array. */
  type Byte = b: nat | b < 256

  /** `dt[k]` inside a bit reader: past the end it is `undefined`, which `|` turns into 0. */
  function ByteAt(dt: seq<Byte>, k: nat): Byte
  {
    if k < |dt| then dt[k] else 0
  }

  /**
   * Bit number i of the stream: bytes in order, each from its least
   * significant bit (section 3.1.1 of RFC 1951).
   */
  function StreamBit(dt: seq<Byte>, i: nat): nat
  {
    Bit(ByteAt(dt, i / 8), i % 8)
  }

  /** The n stream bits from bit pos read as a number, the first bit least significant. */
  function BitsValue(dt: seq<Byte>, pos: nat, n: nat): (r: nat)
    ensures r < Pow2(n)
    decreases n
  {
    if n == 0 then 0 else StreamBit(dt, pos) + 2 * BitsValue(dt, pos + 1, n - 1)
  }

  /** The n stream bits from bit pos read as a Huffman code, the first bit most significant. */
  function CodeBits(dt: seq<Byte>, pos: nat, n: nat): (r: nat)
    ensures r < Pow2(n)
  {
    if n == 0 then 0 else 2 * CodeBits(dt, pos, n - 1) + StreamBit(dt, pos + n - 1)
  }

  /** The k bytes from byte q as a little-endian number. */
  function Window(dt: seq<Byte>, q: nat, k: nat): nat
    decreases k
  {
    if k == 0 then 0 else ByteAt(dt, q) + 256 * Window(dt, q + 1, k - 1)
  }

  // ---------------------------------------------------------------------
  // The readers as written

  /**
   * `readUshort`: `b[p] | (b[p+1] << 8)`. A byte past the end reads as
   * `undefined`, which `|` and `<<` take as 0.
   */
  function ReadUshort(b: seq<Byte>, p: nat): (r: nat)
    ensures r == ByteAt(b, p) + 256 * ByteAt(b, p + 1)
    ensures p + 2 <= |b| ==> r == b[p] as int + 256 * b[p + 1] as int
  {
    var lo, hi := ByteAt(b, p), ByteAt(b, p + 1);
    Pow2Values();
    ShlByte(hi, 8);
    OrDisjoint(lo, 8, hi);
    Or32(lo, Shl32(hi, 8))
  }

  /** `readUint`: `b[p+3] * 2^24 + ((b[p+2] << 16) | (b[p+1] << 8) | b[p])`. */
  function ReadUint(b: seq<Byte>, p: nat): (r: nat)
    requires p + 4 <= |b|
    ensures r == b[p] as int + 0x100 * b[p + 1] as int + 0x1_0000 * b[p + 2] as int + 0x100_0000 * b[p + 3] as int
    ensures r < WordSize
  {
    var b0: nat, b1: nat, b2: nat, b3: nat := b[p], b[p + 1], b[p + 2], b[p + 3];
    Pow2Values();
    ShlByte(b2, 16);
    ShlByte(b1, 8);
    OrDisjoint(0x100 * b1, 16, b2);
    ShlIsMul(b1 + 0x100 * b2, 8);
    OrDisjoint(b0, 8, b1 + 0x100 * b2);
    b3 * 0x100_0000 + Or32(Or32(Shl32(b2, 16), Shl32(b1, 8)), b0)
  }

  /**
   * `bitsE`: the 16-bit window at byte `pos >>> 3`, shifted right by
   * `pos & 7` and masked with `(1 << n) - 1`. It returns the n bits at pos
   * whenever they lie inside the window.
   */
  function BitsE(dt: seq<Byte>, pos: nat, n: nat): (r: nat)
    requires n < 32
    ensures r < Pow2(n)
    ensures pos % 8 + n <= 16 ==> r == BitsValue(dt, pos, n)
  {
    var q, s := pos / 8, pos % 8;
    assert 8 * q + s == pos;
    Window2(dt, q);
    MaskedWindow(dt, q, 2, s, n);
    And32(Ushr(Or32(ByteAt(dt, q), Shl32(ByteAt(dt, q + 1), 8)), s), LowMask(n))
  }

  /** `bitsF`: as `bitsE` with a 24-bit window. */
  function BitsF(dt: seq<Byte>, pos: nat, n: nat): (r: nat)
    requires n < 32
    ensures r < Pow2(n)
    ensures pos % 8 + n <= 24 ==> r == BitsValue(dt, pos, n)
  {
    var q, s := pos / 8, pos % 8;
    assert 8 * q + s == pos;
    Window3(dt, q);
    MaskedWindow(dt, q, 3, s, n);
    And32(Ushr(Or32(Or32(ByteAt(dt, q), Shl32(ByteAt(dt, q + 1), 8)), Shl32(ByteAt(dt, q + 2), 16)), s),
          LowMask(n))
  }

  /** `get17`: the 24-bit window shifted right by `pos & 7`, unmasked. */
  function Get17(dt: seq<Byte>, pos: nat): (r: nat)
    ensures r == Ushr(Window(dt, pos / 8, 3), pos % 8) && r < Pow2(24)
  {
    var q, s := pos / 8, pos % 8;
    assert 8 * q + s == pos;
    Window3(dt, q);
    UshrBound(Window(dt, q, 3), s, 24 - s);
    Ushr(Or32(Or32(ByteAt(dt, q), Shl32(ByteAt(dt, q + 1), 8)), Shl32(ByteAt(dt, q + 2), 16)), pos % 8)
  }

  /** A window shifted right by s and masked with `(1 << n) - 1` keeps n bits; they are the stream's bits from 8q + s when they lie inside the window. */
  lemma MaskedWindow(dt: seq<Byte>, q: nat, k: nat, s: nat, n: nat)
    requires n < 32
    ensures And32(Ushr(Window(dt, q, k), s), LowMask(n)) < Pow2(n)
    ensures s + n <= 8 * k ==> And32(Ushr(Window(dt, q, k), s), LowMask(n)) == BitsValue(dt, 8 * q + s, n)
  {
    AndMask(Ushr(Window(dt, q, k), s), n);
    if s + n <= 8 * k {
      WindowField(dt, q, k, s, n);
    }
  }

  /** `get17(dt, pos) & ((1 << n) - 1)` is the n bits at pos for every n up to 17. */
  lemma Get17Bits(dt: seq<Byte>, pos: nat, n: nat)
    requires n <= 17
    ensures And32(Get17(dt, pos), Pow2(n) - 1) == BitsValue(dt, pos, n)
  {
    var q, s := pos / 8, pos % 8;
    assert 8 * q + s == pos;
    MaskedField(dt, q, s, n, Get17(dt, pos));
  }

  lemma MaskedField(dt: seq<Byte>, q: nat, s: nat, n: nat, g: nat)
    requires s < 8 && n <= 17 && g == Ushr(Window(dt, q, 3), s)
    ensures And32(g, Pow2(n) - 1) == BitsValue(dt, 8 * q + s, n)
  {
    AndLowMask(g, n);
    WindowField(dt, q, 3, s, n);
  }

  // ---------------------------------------------------------------------
  // Properties of the bit-by-bit reading

  lemma {:induction false} BitsValueBit(dt: seq<Byte>, pos: nat, n: nat, j: nat)
    ensures Bit(BitsValue(dt, pos, n), j) == if j < n then StreamBit(dt, pos + j) else 0
    decreases n
  {
    if n == 0 {
      BitZero(j);
    } else {
      var rest := BitsValue(dt, pos + 1, n - 1);
      assert Pow2(1) == 2;
      BitConcat(StreamBit(dt, pos), 1, rest, j);
      if j > 0 {
        BitsValueBit(dt, pos + 1, n - 1, j - 1);
      }
    }
  }

  lemma {:induction false} CodeBitsBit(dt: seq<Byte>, pos: nat, n: nat, j: nat)
    ensures Bit(CodeBits(dt, pos, n), j) == if j < n then StreamBit(dt, pos + n - 1 - j) else 0
  {
    if n == 0 {
      BitZero(j);
    } else {
      var rest := CodeBits(dt, pos, n - 1);
      assert Pow2(1) == 2;
      BitConcat(StreamBit(dt, pos + n - 1), 1, rest, j);
      if j > 0 {
        CodeBitsBit(dt, pos, n - 1, j - 1);
      }
    }
  }

  /** A Huffman code read from the stream is the bit reversal of the same bits read as a number. */
  lemma CodeBitsIsRev(dt: seq<Byte>, pos: nat, n: nat)
    ensures CodeBits(dt, pos, n) == Rev(BitsValue(dt, pos, n), n)
  {
    forall j | 0 <= j < n
      ensures Bit(CodeBits(dt, pos, n), j) == Bit(Rev(BitsValue(dt, pos, n), n), j)
    {
      CodeBitsBit(dt, pos, n, j);
      RevBit(BitsValue(dt, pos, n), n, j);
      BitsValueBit(dt, pos, n, n - 1 - j);
    }
    BitsEqual(CodeBits(dt, pos, n), Rev(BitsValue(dt, pos, n), n), n);
  }

  /** Reading a bits and then b bits is reading a + b bits. */
  lemma {:induction false} BitsValueSplit(dt: seq<Byte>, pos: nat, a: nat, b: nat)
    ensures BitsValue(dt, pos, a + b) == BitsValue(dt, pos, a) + Pow2(a) * BitsValue(dt, pos + a, b)
    decreases a
  {
    if a > 0 {
      BitsValueSplit(dt, pos + 1, a - 1, b);
      var x := BitsValue(dt, pos + a, b);
      calc {
        BitsValue(dt, pos, a + b);
        StreamBit(dt, pos) + 2 * (BitsValue(dt, pos + 1, a - 1) + Pow2(a - 1) * x);
        { MulDistrib(2, BitsValue(dt, pos + 1, a - 1), Pow2(a - 1) * x);
          MulAssoc(2, Pow2(a - 1), x); }
        StreamBit(dt, pos) + 2 * BitsValue(dt, pos + 1, a - 1) + 2 * Pow2(a - 1) * x;
      }
    }
  }

  /** The first m of n bits are the value modulo 2^m. */
  lemma {:induction false} BitsValuePrefix(dt: seq<Byte>, pos: nat, n: nat, m: nat)
    requires m <= n
    ensures Low(BitsValue(dt, pos, n), m) == BitsValue(dt, pos, m)
  {
    var k := n - m;
    var lo, hi, all := BitsValue(dt, pos, m), BitsValue(dt, pos + m, k), BitsValue(dt, pos, n);
    assert all == lo + Pow2(m) * hi by {
      BitsValueSplit(dt, pos, m, k);
      assert m + k == n;
    }
    ShlIsMul(hi, m);
    SplitUnique(lo, m, hi, all);
  }

  /** The bits of a window are the stream bits from its first byte on. */
  lemma {:induction false} WindowBit(dt: seq<Byte>, q: nat, k: nat, j: nat)
    ensures Window(dt, q, k) < Pow2(8 * k)
    ensures Bit(Window(dt, q, k), j) == if j < 8 * k then StreamBit(dt, 8 * q + j) else 0
    decreases k
  {
    if k == 0 {
      BitZero(j);
    } else {
      var rest := Window(dt, q + 1, k - 1);
      Pow2Values();
      ShlIsMul(rest, 8);
      BitConcat(ByteAt(dt, q), 8, rest, j);
      if j >= 8 {
        WindowBit(dt, q + 1, k - 1, j - 8);
        assert 8 * (q + 1) + (j - 8) == 8 * q + j;
      } else {
        WindowBit(dt, q + 1, k - 1, 0);
        assert (8 * q + j) / 8 == q && (8 * q + j) % 8 == j;
      }
      Pow2Add(8, 8 * (k - 1));
      assert 8 + 8 * (k - 1) == 8 * k;
    }
  }

  /** Shifting a window right by s and keeping n bits reads the stream from bit 8q + s. */
  lemma WindowField(dt: seq<Byte>, q: nat, k: nat, s: nat, n: nat)
    ensures s + n <= 8 * k ==> Low(Ushr(Window(dt, q, k), s), n) == BitsValue(dt, 8 * q + s, n)
  {
    if s + n <= 8 * k {
      var x := Low(Ushr(Window(dt, q, k), s), n);
      var y := BitsValue(dt, 8 * q + s, n);
      forall j | 0 <= j < n
        ensures Bit(x, j) == Bit(y, j)
      {
        WindowFieldBit(dt, q, k, s, n, j);
      }
      BitsEqual(x, y, n);
    }
  }

  lemma WindowFieldBit(dt: seq<Byte>, q: nat, k: nat, s: nat, n: nat, j: nat)
    requires s + n <= 8 * k && j < n
    ensures Bit(Low(Ushr(Window(dt, q, k), s), n), j) == Bit(BitsValue(dt, 8 * q + s, n), j)
  {
    var w := Window(dt, q, k);
    BitLow(Ushr(w, s), n, j);
    BitShift(w, s, j);
    WindowBit(dt, q, k, j + s);
    BitsValueBit(dt, 8 * q + s, n, j);
    assert 8 * q + (j + s) == 8 * q + s + j;
  }

  lemma Window2(dt: seq<Byte>, q: nat)
    ensures Or32(ByteAt(dt, q), Shl32(ByteAt(dt, q + 1), 8)) == Window(dt, q, 2)
  {
    Pow2Values();
    ShlByte(ByteAt(dt, q + 1), 8);
    OrDisjoint(ByteAt(dt, q), 8, ByteAt(dt, q + 1));
  }

  lemma Window3(dt: seq<Byte>, q: nat)
    ensures Or32(Or32(ByteAt(dt, q), Shl32(ByteAt(dt, q + 1), 8)), Shl32(ByteAt(dt, q + 2), 16))
            == Window(dt, q, 3)
    ensures Window(dt, q, 3) < Pow2(24)
  {
    Window2(dt, q);
    Pow2Values();
    ShlByte(ByteAt(dt, q + 2), 16);
    var lo := ByteAt(dt, q) + 256 * ByteAt(dt, q + 1);
    OrDisjoint(lo, 16, ByteAt(dt, q + 2));
    WindowBit(dt, q, 3, 0);
  }
}
