// What F_inflate computes, stated on the bit stream as section 3.2 of RFC
// 1951 describes it: symbols are found by searching for the canonical code
// that comes next (not by table lookup), and every value the source reads
// through a bit window is read bit by bit. The checks the source leaves out
// (block type 3, symbols outside the alphabets, distances reaching before
// the output, over-subscribed code lengths, reads past the end, output past
// the buffer) are error outcomes here. Literal/length symbols 286 and 287
// and distance symbols 30 and 31 are decoded as the source decodes them,
// through the padding entries of its tables (length 999, distance 65535).

module InflateSpec {
  import opened Arith
  import opened Wrappers
  import opened Readers
  import opened Huffman
  import opened Deflate

  datatype Error =
    | BadBlockType      // BTYPE 3
    | NoCode            // no code of the current code comes next in the stream
    | DistanceTooFar    // a distance larger than the output so far
    | BadRepeat         // code length symbol 16 before any length
    | OverSubscribed    // code lengths with more codes than their lengths hold
    | Truncated         // bits or bytes needed past the end of the input
    | Overflow          // output past the end of the buffer

  /** The output so far, the length of the buffer holding it, and whether the buffer grows (no caller buffer). */
  datatype Sink = Sink(out: seq<Byte>, cap: nat, grow: bool)

  /** Where decoding stands after one symbol or block. */
  datatype Step = More(pos: nat, sink: Sink) | Done(pos: nat, sink: Sink)

  /** `1 << 17`: the room a growing buffer is given before a Huffman-coded block and before each back-reference. */
  const Headroom: nat := 0x2_0000

  /** `_check`: the length of the buffer after asking a buffer of length bl to hold len bytes. */
  function Grown(bl: nat, len: nat): nat
  {
    if len <= bl then bl else if 2 * bl > len then 2 * bl else len
  }

  /** The buffer never shrinks, holds what was asked, and only grows when it must. */
  lemma GrownBounds(bl: nat, len: nat)
    ensures Grown(bl, len) >= bl && Grown(bl, len) >= len
    ensures Grown(bl, len) == bl <==> len <= bl
    ensures len > bl ==> Grown(bl, len) == if 2 * bl > len then 2 * bl else len
  {
  }

  /** A buffer that grows is checked for room for len bytes; a caller's buffer stays as it is. */
  function Reserve(s: Sink, len: nat): (t: Sink)
    ensures |s.out| <= s.cap ==> Extends(s, t)
    ensures s.grow ==> t.cap >= len
  {
    assert s.out[..|s.out|] == s.out;
    if s.grow then s.(cap := Grown(s.cap, len)) else s
  }

  /** Appending to the output: an overflow when the bytes do not fit the buffer. */
  function Put(s: Sink, bytes: seq<Byte>): (r: Result<Sink, Error>)
    ensures r.Ok? <==> |s.out| + |bytes| <= s.cap
    ensures r.Ok? ==> r.value.out == s.out + bytes && (|s.out| <= s.cap ==> Extends(s, r.value))
  {
    if |s.out| + |bytes| <= s.cap then
      assert (s.out + bytes)[..|s.out|] == s.out;
      Ok(s.(out := s.out + bytes))
    else Err(Overflow)
  }

  /** n copies of v. */
  function Fill<T>(v: T, n: nat): (r: seq<T>)
    ensures |r| == n && forall k | 0 <= k < n :: r[k] == v
  {
    seq(n, k => v)
  }

  /**
   * A back-reference: the output extended by len bytes, each a copy of the
   * byte dst places before it, written one at a time from the front so
   * that a copy may read bytes it has itself just written.
   */
  function CopyBack(out: seq<Byte>, dst: nat, len: nat): (r: seq<Byte>)
    requires 0 < dst <= |out|
    ensures |r| == |out| + len
  {
    if len == 0 then out
    else
      var r := CopyBack(out, dst, len - 1);
      r + [r[|r| - dst]]
  }

  /** A copy keeps the output and makes every new byte equal to the one dst before it. */
  lemma {:induction false} CopyBackMeaning(out: seq<Byte>, dst: nat, len: nat)
    requires 0 < dst <= |out|
    ensures var r := CopyBack(out, dst, len);
      r[..|out|] == out && forall k | |out| <= k < |r| :: r[k] == r[k - dst]
  {
    if len > 0 {
      CopyBackMeaning(out, dst, len - 1);
    }
  }

  /** Those two facts pin the copy down: any sequence with them is the copy. */
  lemma {:induction false} CopyBackUnique(out: seq<Byte>, dst: nat, len: nat, r: seq<Byte>)
    requires 0 < dst <= |out| && |r| == |out| + len && r[..|out|] == out
    requires forall k | |out| <= k < |r| :: r[k] == r[k - dst]
    ensures r == CopyBack(out, dst, len)
  {
    if len > 0 {
      CopyBackUnique(out, dst, len - 1, r[..|r| - 1]);
    }
  }

  /** A distance of 1 after a byte b repeats b: the overlapping copy is a run. */
  lemma {:induction false} CopyBackRun(out: seq<Byte>, len: nat)
    requires |out| > 0
    ensures CopyBack(out, 1, len) == out + Fill(out[|out| - 1], len)
  {
    if len > 0 {
      CopyBackRun(out, len - 1);
    }
  }

  // ---------------------------------------------------------------------
  // Literal/length and distance symbols

  /** The bit after the extra bits of a length or distance symbol, and the value they encode. */
  datatype Coded = Coded(value: nat, pos: nat)

  /**
   * Length symbol lit (257 .. 287) with its extra bits at pos: lengths run
   * from 3 to 258, 257 .. 264 carry no extra bits and mean lit - 254, and
   * the two symbols past the alphabet read the table's padding, 999.
   */
  function LengthAt(dt: seq<Byte>, pos: nat, lit: nat): (r: Coded)
    requires 257 <= lit <= 287
    ensures lit <= 285 ==> 3 <= r.value <= 258 && pos <= r.pos <= pos + 5
    ensures lit <= 264 ==> r == Coded(lit - 254, pos)
    ensures lit >= 286 ==> r == Coded(999, pos)
  {
    LengthFacts(dt, pos, lit - 257);
    Coded(Of0[lit - 257] + BitsValue(dt, pos, Exb[lit - 257]), pos + Exb[lit - 257])
  }

  lemma LengthFacts(dt: seq<Byte>, pos: nat, i: nat)
    requires i <= 30
    ensures i <= 28 ==> 3 <= Of0[i] + BitsValue(dt, pos, Exb[i]) <= 258 && Exb[i] <= 5
    ensures i <= 7 ==> Of0[i] == i + 3 && Exb[i] == 0
    ensures i >= 29 ==> Of0[i] == 999 && Exb[i] == 0
  {
    LengthRanges();
    if i < 27 {
      LengthRangesMono(i);
    }
  }

  /**
   * Distance symbol d (0 .. 31) with its extra bits at pos: distances run
   * from 1 to 32768, and the two symbols past the alphabet read the table's
   * padding, 65535.
   */
  function DistanceAt(dt: seq<Byte>, pos: nat, d: nat): (r: Coded)
    requires d <= 31
    ensures 1 <= r.value && pos <= r.pos <= pos + 13
    ensures d <= 29 ==> r.value <= 32768
    ensures d >= 30 ==> r == Coded(65535, pos)
  {
    DistanceFacts(dt, pos, d);
    Coded(Df0[d] + BitsValue(dt, pos, Dxb[d]), pos + Dxb[d])
  }

  lemma DistanceFacts(dt: seq<Byte>, pos: nat, d: nat)
    requires d <= 31
    ensures d <= 29 ==> 1 <= Df0[d] + BitsValue(dt, pos, Dxb[d]) <= 32768 && Dxb[d] <= 13
    ensures d >= 30 ==> Df0[d] == 65535 && Dxb[d] == 0
  {
    var x := BitsValue(dt, pos, Dxb[d]);
    if d < 29 {
      DistanceRangesMono(d);
      assert Df0[29] == 24577 && Df0[d] >= 1 && Dxb[d] <= 13;
    } else if d == 29 {
      assert Pow2(13) == 8192 by { Pow2Values(); }
      assert Df0[d] == 24577 && Dxb[d] == 13;
    }
  }

  lemma {:induction false} LengthRangesMono(i: nat)
    requires i < 27
    ensures Of0[i] + Pow2(Exb[i]) <= Of0[27]
    decreases 27 - i
  {
    LengthRanges();
    if i < 26 {
      LengthRangesMono(i + 1);
    }
  }

  lemma {:induction false} DistanceRangesMono(d: nat)
    requires d < 29
    ensures Df0[d] + Pow2(Dxb[d]) <= Df0[29]
    decreases 29 - d
  {
    DistanceRanges();
    if d < 28 {
      DistanceRangesMono(d + 1);
    }
  }

  /** Copying len bytes from dst back, the position then standing at pos. */
  function Copy(s: Sink, dst: nat, len: nat, pos: nat): (r: Result<Step, Error>)
    requires dst > 0
    ensures r.Ok? ==> r.value == More(pos, r.value.sink)
    ensures |s.out| <= s.cap ==> Appends(s, r)
  {
    if dst > |s.out| then Err(DistanceTooFar)
    else
      var s1 := Reserve(s, |s.out| + Headroom);
      if |s.out| + len > s1.cap then Err(Overflow)
      else
        CopyBackMeaning(s.out, dst, len);
        Ok(More(pos, s1.(out := CopyBack(s.out, dst, len))))
  }

  /** The back-reference whose length symbol lit ends at pos: its distance code, extra bits and copy. */
  function BackRef(dt: seq<Byte>, D: seq<nat>, pos: nat, lit: nat, s: Sink): (r: Result<Step, Error>)
    requires 257 <= lit <= 287 && |D| <= 32
    ensures r.Ok? ==> r.value.More? && r.value.pos >= pos
    ensures |s.out| <= s.cap ==> Appends(s, r)
  {
    var len := LengthAt(dt, pos, lit);
    Distance(dt, D, len.pos, len.value, s)
  }

  /** The distance code and extra bits of a back-reference of length len, from pos on, and the copy. */
  function Distance(dt: seq<Byte>, D: seq<nat>, pos: nat, len: nat, s: Sink): (r: Result<Step, Error>)
    requires |D| <= 32
    ensures r.Ok? ==> r.value.More? && r.value.pos >= pos
    ensures |s.out| <= s.cap ==> Appends(s, r)
  {
    match Match(D, dt, pos)
    case None => Err(NoCode)
    case Some(d) => DistanceFrom(dt, pos + D[d], d, len, s)
  }

  /** Distance symbol d, its code ending at p: its extra bits, then the copy. */
  function DistanceFrom(dt: seq<Byte>, p: nat, d: nat, len: nat, s: Sink): (r: Result<Step, Error>)
    requires d <= 31
    ensures r.Ok? ==> r.value.More? && r.value.pos >= p
    ensures |s.out| <= s.cap ==> Appends(s, r)
  {
    var dist := DistanceAt(dt, p, d);
    Copy(s, dist.value, len, dist.pos)
  }

  /**
   * One symbol of a Huffman-coded block, with literal/length code L and
   * distance code D: a literal byte, the end of the block, or a
   * back-reference.
   */
  function SymbolStep(dt: seq<Byte>, L: seq<nat>, D: seq<nat>, pos: nat, s: Sink): (r: Result<Step, Error>)
    requires |L| <= 288 && |D| <= 32
    ensures r.Ok? ==> r.value.pos > pos
    ensures |s.out| <= s.cap ==> Appends(s, r)
  {
    match Match(L, dt, pos)
    case None => Err(NoCode)
    case Some(lit) => Symbol(dt, D, pos + L[lit], lit, s)
  }

  /** Symbol lit of the literal/length alphabet, its code ending at p: a literal byte, the end of the block, or a back-reference. */
  function Symbol(dt: seq<Byte>, D: seq<nat>, p: nat, lit: nat, s: Sink): (r: Result<Step, Error>)
    requires lit < 288 && |D| <= 32
    ensures r.Ok? ==> r.value.pos >= p
    ensures |s.out| <= s.cap ==> Appends(s, r)
  {
    if lit < 256 then
      match Put(s, [lit])
      case Err(e) => Err(e)
      case Ok(s1) => Ok(More(p, s1))
    else if lit == 256 then
      assert s.out[..|s.out|] == s.out;
      Ok(Done(p, s))
    else BackRef(dt, D, p, lit, s)
  }

  /** The measure that bounds decoding: the bits left, 0 once past the end. */
  function Left(dt: seq<Byte>, pos: nat): nat
  {
    if pos <= 8 * |dt| then 8 * |dt| + 1 - pos else 0
  }

  /** The symbols of a Huffman-coded block up to its end-of-block code: the bit after it and the output. */
  function Symbols(dt: seq<Byte>, L: seq<nat>, D: seq<nat>, pos: nat, s: Sink): (r: Result<Step, Error>)
    requires |L| <= 288 && |D| <= 32
    ensures r.Ok? ==> r.value.Done? && pos < r.value.pos <= 8 * |dt|
    ensures |s.out| <= s.cap ==> Appends(s, r)
    decreases Left(dt, pos)
  {
    match SymbolStep(dt, L, D, pos, s)
    case Err(e) => Err(e)
    case Ok(st) =>
      if st.pos > 8 * |dt| then Err(Truncated)
      else if st.Done? then Ok(st)
      else
        var r := Symbols(dt, L, D, st.pos, st.sink);
        if r.Ok? then ExtendsTrans(s, st.sink, r.value.sink); r else r
  }

  // ---------------------------------------------------------------------
  // Dynamic block headers

  /** The code length code lengths after the first k 3-bit fields: field i is the length of symbol Ordr[i]. */
  function ClLens(dt: seq<Byte>, pos: nat, k: nat): (cl: seq<nat>)
    requires k <= 19
    ensures |cl| == 19 && forall j | 0 <= j < 19 :: cl[j] < 8
  {
    if k == 0 then Fill(0, 19)
    else ClLens(dt, pos, k - 1)[Ordr[k - 1] := BitsValue(dt, pos + 3 * (k - 1), 3)]
  }

  /** Each listed symbol gets its own 3-bit field. */
  lemma {:induction false} ClLensListed(dt: seq<Byte>, pos: nat, k: nat, i: nat)
    requires i < k <= 19
    ensures ClLens(dt, pos, k)[Ordr[i]] == BitsValue(dt, pos + 3 * i, 3)
  {
    if i < k - 1 {
      OrdrDistinct(i, k - 1);
      ClLensListed(dt, pos, k - 1, i);
    }
  }

  /** The symbols not among the first k listed keep length 0. */
  lemma {:induction false} ClLensUnlisted(dt: seq<Byte>, pos: nat, k: nat, i: nat)
    requires k <= 19 && i < 19
    requires forall j | 0 <= j < k :: Ordr[j] != i
    ensures ClLens(dt, pos, k)[i] == 0
  {
    if k > 0 {
      assert Ordr[k - 1] != i;
      ClLensUnlisted(dt, pos, k - 1, i);
    }
  }

  lemma OrdrDistinct(i: nat, j: nat)
    requires i < j < 19
    ensures Ordr[i] != Ordr[j]
  {
    OrdrIsPermutation();
  }

  /** Lengths all 0 .. 15. */
  predicate Short(lens: seq<nat>)
  {
    forall k | 0 <= k < |lens| :: lens[k] <= 15
  }

  /**
   * What code length symbol sym appends, its extra bits at p, and the bit
   * after them: 0-15 is a length, 16 repeats the last length 3-6 times, 17
   * gives 3-10 zeros and 18 gives 11-138 zeros.
   */
  function Run(dt: seq<Byte>, p: nat, sym: nat, acc: seq<nat>): (r: (nat, seq<nat>))
    requires sym <= 18 && (sym == 16 ==> |acc| > 0)
    ensures r.0 >= p && 1 <= |r.1| <= 138
    ensures Short(acc) ==> Short(r.1)
  {
    if sym <= 15 then (p, [sym])
    else if sym == 16 then
      assert BitsValue(dt, p, 2) < 4 by { assert Pow2(2) == 4; }
      (p + 2, Fill(acc[|acc| - 1], 3 + BitsValue(dt, p, 2)))
    else if sym == 17 then
      assert BitsValue(dt, p, 3) < 8 by { assert Pow2(3) == 8; }
      (p + 3, Fill(0, 3 + BitsValue(dt, p, 3)))
    else
      assert BitsValue(dt, p, 7) < 128 by { assert Pow2(7) == 128; }
      (p + 7, Fill(0, 11 + BitsValue(dt, p, 7)))
  }

  /**
   * `_decodeTiny`: the code lengths run-length coded with code length code
   * cl, appended to acc until there are at least n. The result holds the
   * bit after them.
   */
  function Tiny(dt: seq<Byte>, pos: nat, cl: seq<nat>, n: nat, acc: seq<nat>): (r: Result<(nat, seq<nat>), Error>)
    requires |cl| == 19
    ensures r.Ok? ==> r.value.0 >= pos && |r.value.1| >= n
    decreases n - |acc|
  {
    if |acc| >= n then Ok((pos, acc))
    else
      match TinyNext(dt, pos, cl, acc)
      case Err(e) => Err(e)
      case Ok((q, more)) => Tiny(dt, q, cl, n, acc + more)
  }

  /**
   * One code length symbol of `_decodeTiny`: the lengths it appends to acc
   * and the bit after its extra bits; NoCode when no code matches and
   * BadRepeat for a 16 with no previous length.
   */
  function TinyNext(dt: seq<Byte>, pos: nat, cl: seq<nat>, acc: seq<nat>): (r: Result<(nat, seq<nat>), Error>)
    requires |cl| == 19
    ensures r.Ok? ==> r.value.0 >= pos && 1 <= |r.value.1| <= 138 && (Short(acc) ==> Short(r.value.1))
  {
    match Match(cl, dt, pos)
    case None => Err(NoCode)
    case Some(sym) =>
      if sym == 16 && |acc| == 0 then Err(BadRepeat)
      else Ok(Run(dt, pos + cl[sym], sym, acc))
  }

  /** The expansion from acc, when it succeeds, keeps acc and stops within one run of n. */
  predicate Expanded(r: Result<(nat, seq<nat>), Error>, n: nat, acc: seq<nat>)
  {
    r.Ok? ==>
      var lens := r.value.1;
      |acc| <= |lens| <= (if |acc| >= n then |acc| else n + 137) &&
      lens[..|acc|] == acc && (Short(acc) ==> Short(lens))
  }

  /** The expansion only appends, stops within one run of n, and yields lengths 0-15. */
  lemma {:induction false} TinyFacts(dt: seq<Byte>, pos: nat, cl: seq<nat>, n: nat, acc: seq<nat>)
    requires |cl| == 19
    ensures Expanded(Tiny(dt, pos, cl, n, acc), n, acc)
    decreases n - |acc|
  {
    if |acc| < n {
      match TinyNext(dt, pos, cl, acc)
      case Err(_) =>
      case Ok((q, more)) =>
        TinyUnfold(dt, pos, cl, n, acc, q, more);
        TinyFacts(dt, q, cl, n, acc + more);
        ExpandedStep(Tiny(dt, q, cl, n, acc + more), n, acc, more);
    }
  }

  lemma TinyUnfold(dt: seq<Byte>, pos: nat, cl: seq<nat>, n: nat, acc: seq<nat>, q: nat, more: seq<nat>)
    requires |cl| == 19 && |acc| < n && TinyNext(dt, pos, cl, acc) == Ok((q, more))
    ensures Tiny(dt, pos, cl, n, acc) == Tiny(dt, q, cl, n, acc + more)
  {
  }

  lemma ExpandedStep(r: Result<(nat, seq<nat>), Error>, n: nat, acc: seq<nat>, more: seq<nat>)
    requires Expanded(r, n, acc + more) && |acc| < n && |more| <= 138
    requires Short(acc) ==> Short(more)
    ensures Expanded(r, n, acc)
  {
    if r.Ok? {
      var lens := r.value.1;
      assert lens[..|acc|] == (acc + more)[..|acc|];
      if Short(acc) {
        assert Short(acc + more);
      }
    }
  }

  /** `_copyOut`: the lengths of a tree of tl symbols, taken from lens and padded with zeros. */
  function Spread(lens: seq<nat>, tl: nat): (L: seq<nat>)
    ensures |L| == if |lens| >= tl then |lens| else tl
    ensures L[..|lens|] == lens && forall k | |lens| <= k < |L| :: L[k] == 0
  {
    if |lens| >= tl then lens else lens + Fill(0, tl - |lens|)
  }

  /** The literal/length and distance code lengths of a dynamic block, and the bit after its header. */
  datatype Lengths = Lengths(pos: nat, lit: seq<nat>, dist: seq<nat>)

  /**
   * A dynamic block header: HLIT, HDIST and HCLEN, the code length code
   * lengths, then the run-length coded literal/length and distance code
   * lengths (section 3.2.7 of RFC 1951).
   */
  function Header(dt: seq<Byte>, pos: nat): (r: Result<Lengths, Error>)
    ensures r.Ok? ==> pos < r.value.pos <= 8 * |dt| && |r.value.lit| <= 288 && |r.value.dist| <= 32
  {
    var counts := Counts(dt, pos);
    HeaderWith(dt, pos, counts.0, counts.1, counts.2)
  }

  /** HLIT + 257, HDIST + 1 and HCLEN + 4: the 5-, 5- and 4-bit fields at pos. */
  function Counts(dt: seq<Byte>, pos: nat): (r: (nat, nat, nat))
    ensures 257 <= r.0 <= 288 && 1 <= r.1 <= 32 && 4 <= r.2 <= 19
  {
    assert Pow2(4) == 16 && Pow2(5) == 32;
    (BitsValue(dt, pos, 5) + 257, BitsValue(dt, pos + 5, 5) + 1, BitsValue(dt, pos + 10, 4) + 4)
  }

  /** A dynamic block header whose HLIT, HDIST and HCLEN counts have been read. */
  function HeaderWith(dt: seq<Byte>, pos: nat, hlit: nat, hdist: nat, hclen: nat): (r: Result<Lengths, Error>)
    requires hclen <= 19 && hlit <= 288 && hdist <= 32
    ensures r.Ok? ==> pos < r.value.pos <= 8 * |dt| && |r.value.lit| <= 288 && |r.value.dist| <= 32
  {
    var cl := ClLens(dt, pos + 14, hclen);
    if !Fits(cl) then Err(OverSubscribed)
    else CodedLengths(dt, pos + 14 + 3 * hclen, cl, hlit, hdist)
  }

  /**
   * The hlit + hdist code lengths coded with the code length code cl from
   * start on, split into the literal/length and distance code lengths.
   */
  function CodedLengths(dt: seq<Byte>, start: nat, cl: seq<nat>, hlit: nat, hdist: nat): (r: Result<Lengths, Error>)
    requires |cl| == 19 && hlit <= 288 && hdist <= 32
    ensures r.Ok? ==> start <= r.value.pos <= 8 * |dt| && |r.value.lit| <= 288 && |r.value.dist| <= 32
  {
    var t := Tiny(dt, start, cl, hlit + hdist, []);
    if t.Err? then Err(t.error)
    else if t.value.0 > 8 * |dt| then Err(Truncated)
    else CodedSplit(t.value.0, t.value.1, hlit, hdist)
  }

  /** The expanded lengths, ending at bit pos, split into literal/length and distance code lengths. */
  function CodedSplit(pos: nat, lens: seq<nat>, hlit: nat, hdist: nat): (r: Result<Lengths, Error>)
    requires hlit + hdist <= |lens|
    ensures r.Ok? ==> r.value.pos == pos
  {
    match SplitLengths(lens, hlit, hdist)
    case Err(e) => Err(e)
    case Ok((lit, dist)) => Ok(Lengths(pos, lit, dist))
  }

  /** The expanded lengths split into hlit literal/length and hdist distance code lengths, padded to 286 and 30. */
  function SplitLengths(lens: seq<nat>, hlit: nat, hdist: nat): (r: Result<(seq<nat>, seq<nat>), Error>)
    requires hlit + hdist <= |lens|
    ensures r.Ok? ==> |r.value.0| == (if hlit >= 286 then hlit else 286) && |r.value.1| == (if hdist >= 30 then hdist else 30)
  {
    var lit := Spread(lens[..hlit], 286);
    var dist := Spread(lens[hlit..hlit + hdist], 30);
    if !Fits(lit) || !Fits(dist) then Err(OverSubscribed)
    else Ok((lit, dist))
  }

  // ---------------------------------------------------------------------
  // Blocks

  /** The bit position rounded up to a byte boundary. */
  function Align(pos: nat): (a: nat)
    ensures a % 8 == 0 && pos <= a < pos + 8
  {
    if pos % 8 != 0 then pos + 8 - pos % 8 else pos
  }

  /**
   * A stored block whose header bits end at pos: LEN in the two bytes at
   * the next byte boundary, NLEN skipped unchecked, then LEN bytes copied.
   */
  function Stored(dt: seq<Byte>, pos: nat, s: Sink): (r: Result<Step, Error>)
    ensures r.Ok? ==> r.value.Done? && pos < r.value.pos <= 8 * |dt|
    ensures |s.out| <= s.cap ==> Appends(s, r)
  {
    var p8 := Align(pos) / 8 + 4;
    var len := ByteAt(dt, p8 - 4) + 256 * ByteAt(dt, p8 - 3);
    if p8 + len > |dt| then Err(Truncated)
    else
      var s0 := Reserve(s, |s.out| + len);
      match Put(s0, dt[p8..p8 + len])
      case Err(e) => Err(e)
      case Ok(s1) => ExtendsTrans(s, s0, s1); Ok(Done(8 * (p8 + len), s1))
  }

  /** A stored block copies exactly LEN input bytes, from 4 bytes past the boundary, and ends on a byte boundary. */
  lemma StoredFraming(dt: seq<Byte>, pos: nat, s: Sink)
    requires Stored(dt, pos, s).Ok?
    ensures var st := Stored(dt, pos, s).value;
      var b := Align(pos) / 8;
      var len: nat := dt[b] as nat + 256 * (dt[b + 1] as nat);
      st.pos % 8 == 0 && st.pos / 8 == b + 4 + len &&
      st.sink.out == s.out + dt[b + 4..b + 4 + len] && |st.sink.out| == |s.out| + len
  {
  }

  /** A block of type btype whose header bits end at pos. */
  function Block(dt: seq<Byte>, pos: nat, btype: nat, s: Sink): (r: Result<Step, Error>)
    ensures r.Ok? ==> r.value.Done? && pos < r.value.pos <= 8 * |dt|
    ensures |s.out| <= s.cap ==> Appends(s, r)
  {
    if btype == 0 then Stored(dt, pos, s)
    else if btype == 3 then Err(BadBlockType)
    else
      var s1 := Reserve(s, |s.out| + Headroom);
      var r := if btype == 1 then Symbols(dt, FixedLit, FixedDist, pos, s1)
        else
          match Header(dt, pos)
          case Err(e) => Err(e)
          case Ok(h) => Symbols(dt, h.lit, h.dist, h.pos, s1);
      if r.Ok? then ExtendsTrans(s, s1, r.value.sink); r else r
  }

  /** Blocks from pos up to and including the one marked final. */
  function Blocks(dt: seq<Byte>, pos: nat, s: Sink): (r: Result<Step, Error>)
    ensures r.Ok? ==> r.value.Done? && r.value.pos <= 8 * |dt|
    ensures |s.out| <= s.cap ==> Appends(s, r)
    decreases Left(dt, pos)
  {
    var final := BitsValue(dt, pos, 1);
    var btype := BitsValue(dt, pos + 1, 2);
    match Block(dt, pos + 3, btype, s)
    case Err(e) => Err(e)
    case Ok(st) =>
      if final == 1 then Ok(st)
      else
        var r := Blocks(dt, st.pos, st.sink);
        if r.Ok? then ExtendsTrans(s, st.sink, r.value.sink); r else r
  }

  /**
   * `F_inflate`: a raw DEFLATE stream decoded into a buffer of length cap
   * (growing when grow). The two bytes 3, 0 (one empty final fixed block)
   * are answered at once with no output.
   */
  function Inflate(dt: seq<Byte>, cap: nat, grow: bool): (r: Result<Sink, Error>)
    ensures r.Ok? ==> Extends(Sink([], cap, grow), r.value)
    ensures EmptyFinal(dt) ==> r == Ok(Sink([], cap, grow))
  {
    if EmptyFinal(dt) then Ok(Sink([], cap, grow))
    else
      match Blocks(dt, 0, Sink([], cap, grow))
      case Err(e) => Err(e)
      case Ok(st) => Ok(st.sink)
  }

  /** The stream starts with the bytes 3, 0: a final fixed block holding only its end-of-block code. */
  predicate EmptyFinal(dt: seq<Byte>)
  {
    |dt| >= 2 && dt[0] == 3 && dt[1] == 0
  }

  // ---------------------------------------------------------------------
  // What decoding keeps

  /** t is s with bytes appended, still within its buffer, which only grows, and only when it may. */
  predicate Extends(s: Sink, t: Sink)
  {
    t.grow == s.grow && s.cap <= t.cap && (!s.grow ==> t.cap == s.cap) &&
    |s.out| <= |t.out| <= t.cap && t.out[..|s.out|] == s.out
  }

  lemma ExtendsTrans(s: Sink, t: Sink, u: Sink)
    ensures Extends(s, t) && Extends(t, u) ==> Extends(s, u)
  {
    if Extends(s, t) && Extends(t, u) {
      assert u.out[..|s.out|] == u.out[..|t.out|][..|s.out|];
    }
  }

  /** A successful step, symbol run or block only appends to an output that fits its buffer. */
  predicate Appends(s: Sink, r: Result<Step, Error>)
  {
    r.Ok? ==> Extends(s, r.value.sink)
  }
}
