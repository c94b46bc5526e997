/** Powers of two, bits of natural numbers and bit reversal, all on `nat`.
    Shifts and low-bit masks are defined by halving, so that every
    definition stays in linear arithmetic; the one link to multiplication
    is `Split`. */
module Arith {

  function Pow2(n: nat): (r: nat)
    ensures r >= 1
  {
    if n == 0 then 1 else 2 * Pow2(n - 1)
  }

  lemma {:induction false} Pow2Add(a: nat, b: nat)
    ensures Pow2(a + b) == Pow2(a) * Pow2(b)
  {
    if a > 0 {
      Pow2Add(a - 1, b);
    }
  }

  lemma Pow2Values()
    ensures Pow2(5) == 32 && Pow2(7) == 128 && Pow2(8) == 256 && Pow2(9) == 512
    ensures Pow2(15) == 0x8000 && Pow2(16) == 0x1_0000 && Pow2(17) == 0x2_0000
    ensures Pow2(24) == 0x100_0000 && Pow2(32) == 0x1_0000_0000
  {
    Pow2Add(8, 7);
    Pow2Add(8, 8);
    Pow2Add(16, 1);
    Pow2Add(16, 8);
    Pow2Add(16, 16);
  }

  lemma {:induction false} Pow2Mono(a: nat, b: nat)
    requires a <= b
    ensures Pow2(a) <= Pow2(b)
  {
    if a < b {
      Pow2Mono(a, b - 1);
    }
  }

  /** `x >>> k` for a non-negative x. */
  function Ushr(x: nat, k: nat): nat
  {
    if k == 0 then x else Ushr(x / 2, k - 1)
  }

  /** The low k bits of x, `x & ((1 << k) - 1)`. */
  function Low(x: nat, k: nat): (r: nat)
    ensures r < Pow2(k)
  {
    if k == 0 then 0 else x % 2 + 2 * Low(x / 2, k - 1)
  }

  /** `x << k` without a word size: x times 2^k. */
  function Shl(x: nat, k: nat): nat
  {
    if k == 0 then x else 2 * Shl(x, k - 1)
  }

  lemma {:induction false} ShlIsMul(x: nat, k: nat)
    ensures Shl(x, k) == Pow2(k) * x
  {
    if k > 0 {
      ShlIsMul(x, k - 1);
      MulAssoc(2, Pow2(k - 1), x);
    }
  }

  lemma {:induction false} ShlZero(k: nat)
    ensures Shl(0, k) == 0 && Shl(1, k) == Pow2(k)
  {
    if k > 0 {
      ShlZero(k - 1);
    }
  }

  lemma {:induction false} ShlAdd(x: nat, a: nat, b: nat)
    ensures Shl(Shl(x, a), b) == Shl(x, a + b)
  {
    if b > 0 {
      ShlAdd(x, a, b - 1);
    }
  }

  lemma {:induction false} ShlDistrib(x: nat, y: nat, k: nat)
    ensures Shl(x + y, k) == Shl(x, k) + Shl(y, k)
  {
    if k > 0 {
      ShlDistrib(x, y, k - 1);
    }
  }

  lemma {:induction false} ShlMono(x: nat, y: nat, k: nat)
    requires x <= y
    ensures Shl(x, k) <= Shl(y, k)
  {
    if k > 0 {
      ShlMono(x, y, k - 1);
    }
  }

  /** A number is its low k bits plus the rest shifted back up. */
  lemma {:induction false} Split(x: nat, k: nat)
    ensures x == Low(x, k) + Shl(Ushr(x, k), k)
  {
    if k > 0 {
      Split(x / 2, k - 1);
      ShlDouble(Ushr(x / 2, k - 1), k - 1);
    }
  }

  /** Shifting left by k + 1 is shifting left by k and doubling. */
  lemma {:induction false} ShlDouble(x: nat, k: nat)
    ensures Shl(x, k + 1) == 2 * Shl(x, k) && Shl(2 * x, k) == Shl(x, k + 1)
  {
    if k > 0 {
      ShlDouble(x, k - 1);
    }
  }

  /** The low k bits and the rest of `a | (b << k)` are a and b. */
  lemma {:induction false} SplitUnique(a: nat, k: nat, b: nat, x: nat)
    requires a < Pow2(k) && x == a + Shl(b, k)
    ensures Low(x, k) == a && Ushr(x, k) == b
  {
    if k > 0 {
      var h := a / 2 + Shl(b, k - 1);
      assert x == a % 2 + 2 * h;
      SplitUnique(a / 2, k - 1, b, h);
    }
  }

  lemma LowSmall(x: nat, k: nat)
    requires x < Pow2(k)
    ensures Low(x, k) == x && Ushr(x, k) == 0
  {
    ShlZero(k);
    SplitUnique(x, k, 0, x);
  }

  lemma {:induction false} LowLow(x: nat, a: nat, b: nat)
    requires a <= b
    ensures Low(Low(x, b), a) == Low(x, a)
  {
    if a > 0 {
      LowLow(x / 2, a - 1, b - 1);
    }
  }

  /** A number at least `x << k` keeps at least x after `>>> k`. */
  lemma {:induction false} UshrAtLeast(y: nat, x: nat, k: nat)
    requires y >= Shl(x, k)
    ensures Ushr(y, k) >= x
  {
    if k > 0 {
      UshrAtLeast(y / 2, x, k - 1);
    }
  }

  lemma {:induction false} UshrBound(x: nat, k: nat, n: nat)
    requires x < Pow2(n + k)
    ensures Ushr(x, k) < Pow2(n) && Ushr(x, k) <= x
  {
    if k > 0 {
      UshrBound(x / 2, k - 1, n);
    }
  }

  lemma {:induction false} UshrUshr(x: nat, a: nat, b: nat)
    ensures Ushr(Ushr(x, a), b) == Ushr(x, a + b)
  {
    if a > 0 {
      UshrUshr(x / 2, a - 1, b);
    }
  }

  lemma {:induction false} MulMono(a: nat, b: nat, c: nat)
    requires a <= b
    ensures a * c <= b * c
  {
  }

  lemma MulDistrib(x: int, a: int, b: int)
    ensures x * (a + b) == x * a + x * b
  {
  }

  lemma MulAssoc(x: int, y: int, z: int)
    ensures x * (y * z) == (x * y) * z
  {
  }

  lemma MulAtLeast(k: int, d: int)
    requires k >= 1 && d > 0
    ensures k * d >= d
  {
    assert k * d == (k - 1) * d + d;
  }

  lemma DivModUnique(x: int, d: int, q: int, r: int)
    requires d > 0 && 0 <= r < d && x == q * d + r
    ensures x / d == q && x % d == r
  {
    var q', r' := x / d, x % d;
    assert x == q' * d + r';
    if q' > q {
      assert (q' - q) * d == q' * d - q * d;
      MulAtLeast(q' - q, d);
    } else if q' < q {
      assert (q - q') * d == q * d - q' * d;
      MulAtLeast(q - q', d);
    }
  }

  /** Bit j of x. */
  function Bit(x: nat, j: nat): (b: nat)
    ensures b < 2
  {
    if j == 0 then x % 2 else Bit(x / 2, j - 1)
  }

  lemma {:induction false} BitZero(j: nat)
    ensures Bit(0, j) == 0
  {
    if j > 0 {
      BitZero(j - 1);
    }
  }

  lemma {:induction false} BitShift(x: nat, m: nat, j: nat)
    ensures Bit(Ushr(x, m), j) == Bit(x, j + m)
  {
    if m > 0 {
      BitShift(x / 2, m - 1, j);
    }
  }

  lemma {:induction false} BitLow(x: nat, k: nat, j: nat)
    ensures Bit(Low(x, k), j) == if j < k then Bit(x, j) else 0
  {
    if k == 0 {
      BitZero(j);
    } else if j > 0 {
      BitLow(x / 2, k - 1, j - 1);
    }
  }

  /** The bits of a + 2^m * b: those of a below m, those of b from m on. */
  lemma BitConcat(a: nat, m: nat, b: nat, j: nat)
    requires a < Pow2(m)
    ensures Bit(a + Shl(b, m), j) == if j < m then Bit(a, j) else Bit(b, j - m)
  {
    var x := a + Shl(b, m);
    SplitUnique(a, m, b, x);
    if j < m {
      BitLow(x, m, j);
    } else {
      BitShift(x, m, j - m);
    }
  }

  lemma {:induction false} BitsBelow(x: nat, n: nat, j: nat)
    requires x < Pow2(n) && j >= n
    ensures Bit(x, j) == 0
  {
    if n == 0 {
      BitZero(j);
    } else {
      BitsBelow(x / 2, n - 1, j - 1);
    }
  }

  lemma BitMul(x: nat, m: nat, j: nat)
    ensures Bit(Shl(x, m), j) == if j < m then 0 else Bit(x, j - m)
  {
    BitConcat(0, m, x, j);
    BitZero(j);
  }

  /** Two numbers below 2^n with the same n low bits are equal. */
  lemma {:induction false} BitsEqual(x: nat, y: nat, n: nat)
    requires x < Pow2(n) && y < Pow2(n)
    requires forall j :: 0 <= j < n ==> Bit(x, j) == Bit(y, j)
    ensures x == y
  {
    if n > 0 {
      assert Bit(x, 0) == Bit(y, 0);
      forall j | 0 <= j < n - 1
        ensures Bit(x / 2, j) == Bit(y / 2, j)
      {
        assert Bit(x, j + 1) == Bit(y, j + 1);
      }
      BitsEqual(x / 2, y / 2, n - 1);
    }
  }

  /** The n-bit number whose bit j is bit n-1-j of x. */
  function Rev(x: nat, n: nat): (r: nat)
    ensures r < Pow2(n)
  {
    if n == 0 then 0 else Rev(x / 2, n - 1) + (if x % 2 == 1 then Pow2(n - 1) else 0)
  }

  lemma {:induction false} RevBit(x: nat, n: nat, j: nat)
    requires j < n
    ensures Bit(Rev(x, n), j) == Bit(x, n - 1 - j)
  {
    var r := Rev(x / 2, n - 1);
    ShlZero(n - 1);
    assert Rev(x, n) == r + Shl(x % 2, n - 1);
    BitConcat(r, n - 1, x % 2, j);
    if j < n - 1 {
      RevBit(x / 2, n - 1, j);
    } else {
      assert Bit(x % 2, 0) == Bit(x, 0);
    }
  }

  lemma {:induction false} RevZero(n: nat)
    ensures Rev(0, n) == 0
  {
    if n > 0 {
      RevZero(n - 1);
    }
  }

  lemma RevRev(x: nat, n: nat)
    requires x < Pow2(n)
    ensures Rev(Rev(x, n), n) == x
  {
    forall j | 0 <= j < n
      ensures Bit(Rev(Rev(x, n), n), j) == Bit(x, j)
    {
      RevBit(Rev(x, n), n, j);
      RevBit(x, n, n - 1 - j);
    }
    BitsEqual(Rev(Rev(x, n), n), x, n);
  }

  /** Keeping the low m bits of an n-bit reversal reverses the high m bits. */
  lemma RevPrefix(x: nat, n: nat, m: nat)
    requires m <= n
    ensures Low(Rev(x, n), m) == Rev(Ushr(x, n - m), m)
  {
    forall j | 0 <= j < m
      ensures Bit(Low(Rev(x, n), m), j) == Bit(Rev(Ushr(x, n - m), m), j)
    {
      BitLow(Rev(x, n), m, j);
      RevBit(x, n, j);
      RevBit(Ushr(x, n - m), m, j);
      BitShift(x, n - m, m - 1 - j);
    }
    BitsEqual(Low(Rev(x, n), m), Rev(Ushr(x, n - m), m), m);
  }

  /** `a + 2^m * b` stays below `2^(m + n)` for an m-bit a and an n-bit b. */
  lemma {:induction false} ConcatBound(a: nat, m: nat, b: nat, n: nat)
    requires a < Pow2(m) && b < Pow2(n)
    ensures a + Shl(b, m) < Pow2(m + n)
  {
    if m > 0 {
      ConcatBound(a / 2, m - 1, b, n);
      assert m + n - 1 == m - 1 + n;
    }
  }

  /** Reversing a code followed by u reverses each part and swaps them. */
  lemma RevJoin(c: nat, l: nat, u: nat, r: nat)
    requires u < Pow2(r)
    ensures Rev(u + Shl(c, r), l + r) == Rev(c, l) + Shl(Rev(u, r), l)
  {
    var x := u + Shl(c, r);
    var y := Rev(c, l) + Shl(Rev(u, r), l);
    forall j | 0 <= j < l + r
      ensures Bit(Rev(x, l + r), j) == Bit(y, j)
    {
      RevJoinBit(c, l, u, r, j);
    }
    ConcatBound(Rev(c, l), l, Rev(u, r), r);
    BitsEqual(Rev(x, l + r), y, l + r);
  }

  lemma RevJoinBit(c: nat, l: nat, u: nat, r: nat, j: nat)
    requires u < Pow2(r) && j < l + r
    ensures Bit(Rev(u + Shl(c, r), l + r), j) == Bit(Rev(c, l) + Shl(Rev(u, r), l), j)
  {
    RevBit(u + Shl(c, r), l + r, j);
    BitConcat(u, r, c, l + r - 1 - j);
    BitConcat(Rev(c, l), l, Rev(u, r), j);
    if j < l {
      RevBit(c, l, j);
    } else {
      RevBit(u, r, j - l);
    }
  }

  /** Shifting an n-bit reversal of an m-bit number right by n - m gives its m-bit reversal. */
  lemma RevShift(x: nat, n: nat, m: nat)
    requires m <= n && x < Pow2(m)
    ensures Ushr(Rev(x, n), n - m) == Rev(x, m)
  {
    assert m + (n - m) == n;
    UshrBound(Rev(x, n), n - m, m);
    forall j | 0 <= j < m
      ensures Bit(Ushr(Rev(x, n), n - m), j) == Bit(Rev(x, m), j)
    {
      BitShift(Rev(x, n), n - m, j);
      RevBit(x, n, j + (n - m));
      RevBit(x, m, j);
      assert n - 1 - (j + (n - m)) == m - 1 - j;
    }
    BitsEqual(Ushr(Rev(x, n), n - m), Rev(x, m), m);
  }
}
