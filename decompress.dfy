// The block and symbol loops of F_inflate in unzipjs.js, stored blocks,
// the back-reference copy, and the entry points inflateRaw and inflate:
// methods over the output buffer, each proved to do what the functions of
// InflateSpec say, error for error. The buffer is the caller's when one is
// given and is then written in place; otherwise the decoder allocates it
// and `_check` replaces it by a larger one when needed.

module Decompress {
  import opened Arith
  import opened Words
  import opened Wrappers
  import opened Readers
  import opened Huffman
  import opened Deflate
  import opened Setup
  import opened InflateSpec
  import opened Inflater

  /** Where the decoder stands: the next bit, the output length, and whether the symbol or block has ended. */
  datatype At = At(pos: nat, off: nat, ended: bool)

  /**
   * The decoder's state r, with its output in the first r.off bytes of buf,
   * is the step s of the specification: the same error, or the same
   * position, end, output and buffer length.
   */
  ghost predicate Agrees(r: Result<At, Error>, s: Result<Step, Error>, buf: array<Byte>, grow: bool)
    reads buf
  {
    match s
    case Err(e) => r == Err(e)
    case Ok(st) =>
      r.Ok? && r.value.pos == st.pos && r.value.ended == st.Done? && r.value.off <= buf.Length &&
      st.sink == Sink(buf[..r.value.off], buf.Length, grow)
  }

  /** A caller's buffer, which does not grow, keeps every byte past the output as it was. */
  ghost predicate Keeps(r: Result<At, Error>, buf: array<Byte>, before: seq<Byte>, grow: bool)
    reads buf
  {
    r.Ok? && !grow ==>
      buf.Length == |before| && forall k | r.value.off <= k < buf.Length :: buf[k] == before[k]
  }

  // ---------------------------------------------------------------------
  // The symbols of a Huffman-coded block

  /**
   * The symbol loop of `F_inflate` (`while (true)`): symbols up to the
   * end-of-block code, with Truncated once a symbol ends past the input.
   * Agrees with Symbols.
   */
  method DecodeSymbols(U: Tables, lmap: array<nat>, ml: nat, dmap: array<nat>, md: nat, dt: seq<Byte>, pos: nat,
                       buf: array<Byte>, off: nat, grow: bool,
                       ghost L: seq<nat>, ghost LM: nat, ghost D: seq<nat>, ghost DM: nat)
    returns (r: Result<At, Error>, nbuf: array<Byte>)
    requires PackedUpTo(U.ldef, U.ddef, 32) && Decoder(lmap, ml, L, LM) && Decoder(dmap, md, D, DM)
    requires |L| <= 288 && |D| <= 32 && off <= buf.Length
    modifies buf
    ensures Agrees(r, Symbols(dt, L, D, pos, Sink(old(buf[..off]), buf.Length, grow)), nbuf, grow)
    ensures nbuf == buf || fresh(nbuf)
    ensures !grow ==> nbuf == buf
    ensures Keeps(r, nbuf, old(buf[..]), grow)
  {
    nbuf := buf;
    var p: nat, o: nat := pos, off;
    ghost var goal := Symbols(dt, L, D, pos, Sink(buf[..off], buf.Length, grow));
    ghost var before := buf[..];
    while true
      invariant o <= nbuf.Length
      invariant nbuf == buf || fresh(nbuf)
      invariant !grow ==> nbuf == buf
      invariant !grow ==> forall k | o <= k < nbuf.Length :: nbuf[k] == before[k]
      invariant Symbols(dt, L, D, p, Sink(nbuf[..o], nbuf.Length, grow)) == goal
      decreases Left(dt, p)
    {
      ghost var s := Sink(nbuf[..o], nbuf.Length, grow);
      ghost var sp := SymbolStep(dt, L, D, p, s);
      var st;
      st, nbuf := DecodeSymbol(U, lmap, ml, dmap, md, dt, p, nbuf, o, grow, L, LM, D, DM);
      SymbolsStep(dt, L, D, p, s, sp);
      if st.Err? {
        return st, nbuf;
      }
      if st.value.pos > 8 * |dt| {
        return Err(Truncated), nbuf;
      }
      if st.value.ended {
        return st, nbuf;
      }
      p, o := st.value.pos, st.value.off;
    }
  }

  /** Symbols after one symbol: its error, Truncated past the input, the end of the block, or the symbols after it. */
  lemma SymbolsStep(dt: seq<Byte>, L: seq<nat>, D: seq<nat>, p: nat, s: Sink, sp: Result<Step, Error>)
    requires |L| <= 288 && |D| <= 32 && sp == SymbolStep(dt, L, D, p, s)
    ensures sp.Err? ==> Symbols(dt, L, D, p, s) == Err(sp.error)
    ensures sp.Ok? ==> sp.value.pos > p
    ensures sp.Ok? && sp.value.pos > 8 * |dt| ==> Symbols(dt, L, D, p, s) == Err(Truncated)
    ensures sp.Ok? && sp.value.pos <= 8 * |dt| && sp.value.Done? ==> Symbols(dt, L, D, p, s) == sp
    ensures sp.Ok? && sp.value.pos <= 8 * |dt| && sp.value.More? ==>
      Symbols(dt, L, D, p, s) == Symbols(dt, L, D, sp.value.pos, sp.value.sink)
  {
  }

  /**
   * One pass of the symbol loop: the literal/length code looked up in
   * lmap, then a literal byte (`buf[off++] = lit`), the end of the block
   * (256), or a back-reference. Agrees with SymbolStep.
   */
  method DecodeSymbol(U: Tables, lmap: array<nat>, ml: nat, dmap: array<nat>, md: nat, dt: seq<Byte>, pos: nat,
                      buf: array<Byte>, off: nat, grow: bool,
                      ghost L: seq<nat>, ghost LM: nat, ghost D: seq<nat>, ghost DM: nat)
    returns (r: Result<At, Error>, nbuf: array<Byte>)
    requires PackedUpTo(U.ldef, U.ddef, 32) && Decoder(lmap, ml, L, LM) && Decoder(dmap, md, D, DM)
    requires |L| <= 288 && |D| <= 32 && off <= buf.Length
    modifies buf
    ensures Agrees(r, SymbolStep(dt, L, D, pos, Sink(old(buf[..off]), buf.Length, grow)), nbuf, grow)
    ensures nbuf == buf || fresh(nbuf)
    ensures !grow ==> nbuf == buf
    ensures Keeps(r, nbuf, old(buf[..]), grow)
  {
    ghost var s := Sink(buf[..off], buf.Length, grow);
    var code, lit, clen := Lookup(lmap, ml, dt, pos, L, LM);
    if code == 0 {
      SymbolNone(dt, L, D, pos, s);
      return Err(NoCode), buf;
    }
    var p := pos + clen;
    SymbolIs(dt, L, D, pos, s, lit, p);
    r, nbuf := EmitSymbol(U, dmap, md, dt, p, lit, buf, off, grow, D, DM);
  }

  /** SymbolStep when no literal/length code comes next. */
  lemma SymbolNone(dt: seq<Byte>, L: seq<nat>, D: seq<nat>, pos: nat, s: Sink)
    requires |L| <= 288 && |D| <= 32 && Match(L, dt, pos).None?
    ensures SymbolStep(dt, L, D, pos, s) == Err(NoCode)
  {
    match Match(L, dt, pos)
    case None =>
  }

  /** SymbolStep once symbol lit is known to come next. */
  lemma SymbolIs(dt: seq<Byte>, L: seq<nat>, D: seq<nat>, pos: nat, s: Sink, lit: nat, p: nat)
    requires |L| <= 288 && |D| <= 32 && Match(L, dt, pos) == Some(lit) && lit < |L| && p == pos + L[lit]
    ensures SymbolStep(dt, L, D, pos, s) == Symbol(dt, D, p, lit, s)
  {
    assert SymbolStep(dt, L, D, pos, s) == Symbol(dt, D, pos + L[lit], lit, s);
  }

  /**
   * What the symbol loop does with symbol lit, its code ending at p: a
   * literal byte (`buf[off++] = lit`), the end of the block (256), or a
   * back-reference. Agrees with Symbol.
   */
  method EmitSymbol(U: Tables, dmap: array<nat>, md: nat, dt: seq<Byte>, p: nat, lit: nat,
                    buf: array<Byte>, off: nat, grow: bool, ghost D: seq<nat>, ghost DM: nat)
    returns (r: Result<At, Error>, nbuf: array<Byte>)
    requires PackedUpTo(U.ldef, U.ddef, 32) && Decoder(dmap, md, D, DM)
    requires lit < 288 && |D| <= 32 && off <= buf.Length
    modifies buf
    ensures Agrees(r, Symbol(dt, D, p, lit, Sink(old(buf[..off]), buf.Length, grow)), nbuf, grow)
    ensures nbuf == buf || fresh(nbuf)
    ensures !grow ==> nbuf == buf
    ensures Keeps(r, nbuf, old(buf[..]), grow)
  {
    ghost var s := Sink(buf[..off], buf.Length, grow);
    SymbolCases(dt, D, p, s, lit);
    if lit < 256 {
      if off + 1 > buf.Length {
        return Err(Overflow), buf;
      }
      buf[off] := lit;
      assert buf[..off + 1] == s.out + [lit];
      return Ok(At(p, off + 1, false)), buf;
    }
    if lit == 256 {
      return Ok(At(p, off, true)), buf;
    }
    r, nbuf := BackReference(U, dmap, md, dt, p, lit, buf, off, grow, D, DM);
  }

  /** Symbol case by case: a literal that fits or overflows, the end of the block, a back-reference. */
  lemma SymbolCases(dt: seq<Byte>, D: seq<nat>, p: nat, s: Sink, lit: nat)
    requires lit < 288 && |D| <= 32
    ensures lit < 256 && |s.out| + 1 <= s.cap ==> Symbol(dt, D, p, lit, s) == Ok(More(p, s.(out := s.out + [lit])))
    ensures lit < 256 && |s.out| + 1 > s.cap ==> Symbol(dt, D, p, lit, s) == Err(Overflow)
    ensures lit == 256 ==> Symbol(dt, D, p, lit, s) == Ok(Done(p, s))
    ensures lit > 256 ==> Symbol(dt, D, p, lit, s) == BackRef(dt, D, p, lit, s)
  {
  }

  // ---------------------------------------------------------------------
  // Back-references

  /**
   * `while (off < end) buf[off] = buf[off++ - dst]` (unrolled four times in
   * the source): the len bytes after off, each a copy of the byte dst
   * before it, written in increasing order; the rest of the buffer is left
   * as it was.
   */
  method CopyWithin(buf: array<Byte>, off: nat, dst: nat, len: nat)
    requires 0 < dst <= off && off + len <= buf.Length
    modifies buf
    ensures buf[..off + len] == CopyBack(old(buf[..off]), dst, len)
    ensures buf[off + len..] == old(buf[off + len..])
  {
    ghost var out := buf[..off];
    ghost var rest := buf[off + len..];
    var k := off;
    while k < off + len
      invariant off <= k <= off + len
      invariant buf[..k] == CopyBack(out, dst, k - off)
      invariant buf[off + len..] == rest
    {
      ghost var before := buf[..k];
      buf[k] := buf[k - dst];
      assert buf[..k + 1] == before + [before[k - dst]];
      k := k + 1;
    }
  }

  /**
   * The length of the back-reference whose length symbol lit ends at pos:
   * `lit - 254` up to 264, otherwise the base and extra bits packed in
   * `ldef[lit - 257]`; and the bit after the extra bits.
   */
  method LengthOf(U: Tables, dt: seq<Byte>, pos: nat, lit: nat) returns (len: nat, p: nat)
    requires PackedUpTo(U.ldef, U.ddef, 32) && 257 <= lit <= 287
    ensures Coded(len, p) == LengthAt(dt, pos, lit)
  {
    len, p := lit - 254, pos;
    if lit > 264 {
      var ebs := LengthEntry(U, dt, pos, lit);
      var extra := ReadBitsE(dt, pos, And32(ebs, 7));
      len := Ushr(ebs, 3) + extra;
      p := pos + And32(ebs, 7);
    } else {
      ShortLength(dt, pos, lit);
    }
  }

  /** `ldef[lit - 257]`: its low 3 bits are the number of extra bits and the rest the base length. */
  method LengthEntry(U: Tables, dt: seq<Byte>, pos: nat, lit: nat) returns (ebs: nat)
    requires PackedUpTo(U.ldef, U.ddef, 32) && 264 < lit <= 287
    ensures And32(ebs, 7) <= 5
    ensures LengthAt(dt, pos, lit) == Coded(Ushr(ebs, 3) + BitsValue(dt, pos, And32(ebs, 7)), pos + And32(ebs, 7))
  {
    ebs := U.ldef[lit - 257];
    ghost var base, nb := Of0[lit - 257], Exb[lit - 257];
    ExtraLengthBits(lit - 257, nb);
    Unpack(ebs, base, nb, 3, 8);
    LengthIs(dt, pos, lit, base, nb);
  }

  /** `(hi << k) | lo`, with lo below 2^k, unpacked by `>>> k` and `& (2^k - 1)`. */
  lemma Unpack(x: nat, hi: nat, lo: nat, k: nat, m: nat)
    requires k <= 4 && m == Pow2(k) && lo < m && x == m * hi + lo
    ensures Ushr(x, k) == hi && And32(x, m - 1) == lo
  {
    Unpacked(hi, lo, k, x);
  }

  /** A length symbol past 264 has at most 5 extra bits. */
  lemma ExtraLengthBits(i: nat, nb: nat)
    requires i < 32 && nb == Exb[i]
    ensures nb <= 5 && Pow2(3) == 8
  {
    assert Pow2(3) == 8;
  }

  lemma LengthIs(dt: seq<Byte>, pos: nat, lit: nat, base: nat, nb: nat)
    requires 257 <= lit <= 287 && base == Of0[lit - 257] && nb == Exb[lit - 257]
    ensures LengthAt(dt, pos, lit) == Coded(base + BitsValue(dt, pos, nb), pos + nb)
  {
  }

  lemma ShortLength(dt: seq<Byte>, pos: nat, lit: nat)
    requires 257 <= lit <= 264
    ensures LengthAt(dt, pos, lit) == Coded(lit - 254, pos)
  {
  }

  /**
   * The distance of distance symbol d whose extra bits start at pos:
   * `(dbs >>> 4) + bitsF(data, pos, dbs & 15)` with dbs = `ddef[d]`; and
   * the bit after the extra bits.
   */
  method DistanceOf(U: Tables, dt: seq<Byte>, pos: nat, d: nat) returns (dst: nat, p: nat)
    requires PackedUpTo(U.ldef, U.ddef, 32) && d < 32
    ensures Coded(dst, p) == DistanceAt(dt, pos, d)
  {
    var dbs := DistanceEntry(U, dt, pos, d);
    var extra := ReadBitsF(dt, pos, And32(dbs, 15));
    dst := Ushr(dbs, 4) + extra;
    p := pos + And32(dbs, 15);
  }

  /** `ddef[d]`: its low 4 bits are the number of extra bits and the rest the base distance. */
  method DistanceEntry(U: Tables, dt: seq<Byte>, pos: nat, d: nat) returns (dbs: nat)
    requires PackedUpTo(U.ldef, U.ddef, 32) && d < 32
    ensures And32(dbs, 15) <= 13
    ensures DistanceAt(dt, pos, d) == Coded(Ushr(dbs, 4) + BitsValue(dt, pos, And32(dbs, 15)), pos + And32(dbs, 15))
  {
    dbs := U.ddef[d];
    ghost var base, nb := Df0[d], Dxb[d];
    ExtraDistanceBits(d, nb);
    Unpack(dbs, base, nb, 4, 16);
    DistanceIs(dt, pos, d, base, nb);
  }

  /** A distance symbol has at most 13 extra bits. */
  lemma ExtraDistanceBits(d: nat, nb: nat)
    requires d < 32 && nb == Dxb[d]
    ensures nb <= 13 && Pow2(4) == 16
  {
    assert Pow2(4) == 16;
  }

  lemma DistanceIs(dt: seq<Byte>, pos: nat, d: nat, base: nat, nb: nat)
    requires d < 32 && base == Df0[d] && nb == Dxb[d]
    ensures DistanceAt(dt, pos, d) == Coded(base + BitsValue(dt, pos, nb), pos + nb)
  {
  }

  /**
   * A back-reference whose length symbol lit ends at pos: its length, then
   * its distance and the copy. Agrees with BackRef.
   */
  method BackReference(U: Tables, dmap: array<nat>, md: nat, dt: seq<Byte>, pos: nat, lit: nat,
                       buf: array<Byte>, off: nat, grow: bool, ghost D: seq<nat>, ghost DM: nat)
    returns (r: Result<At, Error>, nbuf: array<Byte>)
    requires PackedUpTo(U.ldef, U.ddef, 32) && Decoder(dmap, md, D, DM) && |D| <= 32 && 257 <= lit <= 287 && off <= buf.Length
    modifies buf
    ensures Agrees(r, BackRef(dt, D, pos, lit, Sink(old(buf[..off]), buf.Length, grow)), nbuf, grow)
    ensures nbuf == buf || fresh(nbuf)
    ensures !grow ==> nbuf == buf
    ensures Keeps(r, nbuf, old(buf[..]), grow)
  {
    var len, p := LengthOf(U, dt, pos, lit);
    r, nbuf := DistanceCopy(U, dmap, md, dt, p, len, buf, off, grow, D, DM);
  }

  /**
   * The distance of a back-reference of length len, its code and extra
   * bits read from pos on, then the copy. Agrees with Distance.
   */
  method DistanceCopy(U: Tables, dmap: array<nat>, md: nat, dt: seq<Byte>, pos: nat, len: nat,
                      buf: array<Byte>, off: nat, grow: bool, ghost D: seq<nat>, ghost DM: nat)
    returns (r: Result<At, Error>, nbuf: array<Byte>)
    requires PackedUpTo(U.ldef, U.ddef, 32) && Decoder(dmap, md, D, DM) && |D| <= 32 && off <= buf.Length
    modifies buf
    ensures Agrees(r, Distance(dt, D, pos, len, Sink(old(buf[..off]), buf.Length, grow)), nbuf, grow)
    ensures nbuf == buf || fresh(nbuf)
    ensures !grow ==> nbuf == buf
    ensures Keeps(r, nbuf, old(buf[..]), grow)
  {
    ghost var s := Sink(buf[..off], buf.Length, grow);
    var dcode, d, dl := Lookup(dmap, md, dt, pos, D, DM);
    if dcode == 0 {
      DistanceNone(dt, D, pos, len, s);
      return Err(NoCode), buf;
    }
    var p := pos + dl;
    var dst, q := DistanceOf(U, dt, p, d);
    DistanceSome(dt, D, pos, len, s, d, p);
    DistanceCoded(dt, p, d, len, s, dst, q);
    r, nbuf := CopyMatch(buf, off, dst, len, q, grow);
  }

  /** No distance code comes next: the back-reference fails. */
  lemma DistanceNone(dt: seq<Byte>, D: seq<nat>, pos: nat, len: nat, s: Sink)
    requires |D| <= 32 && Match(D, dt, pos).None?
    ensures Distance(dt, D, pos, len, s) == Err(NoCode)
  {
    match Match(D, dt, pos)
    case None =>
  }

  /** Distance symbol d comes next, its code ending at p. */
  lemma DistanceSome(dt: seq<Byte>, D: seq<nat>, pos: nat, len: nat, s: Sink, d: nat, p: nat)
    requires |D| <= 32 && Match(D, dt, pos) == Some(d) && d < |D| && p == pos + D[d]
    ensures Distance(dt, D, pos, len, s) == DistanceFrom(dt, p, d, len, s)
  {
    assert Distance(dt, D, pos, len, s) == DistanceFrom(dt, pos + D[d], d, len, s);
  }

  /** Distance symbol d with extra bits giving distance dst: the back-reference is the copy at dst. */
  lemma DistanceCoded(dt: seq<Byte>, p: nat, d: nat, len: nat, s: Sink, dst: nat, q: nat)
    requires d <= 31 && Coded(dst, q) == DistanceAt(dt, p, d)
    ensures dst > 0 && DistanceFrom(dt, p, d, len, s) == Copy(s, dst, len, q)
  {
  }

  /**
   * The copy of a back-reference at distance dst and length len, the
   * position then at q: DistanceTooFar when dst reaches before the output,
   * `_check` for 2^17 more bytes when the buffer may grow, Overflow when
   * the copy does not fit, then the copy. Agrees with Copy.
   */
  method CopyMatch(buf: array<Byte>, off: nat, dst: nat, len: nat, q: nat, grow: bool)
    returns (r: Result<At, Error>, nbuf: array<Byte>)
    requires dst > 0 && off <= buf.Length
    modifies buf
    ensures Agrees(r, Copy(Sink(old(buf[..off]), buf.Length, grow), dst, len, q), nbuf, grow)
    ensures nbuf == buf || fresh(nbuf)
    ensures !grow ==> nbuf == buf
    ensures Keeps(r, nbuf, old(buf[..]), grow)
  {
    ghost var s := Sink(buf[..off], buf.Length, grow);
    if dst > off {
      return Err(DistanceTooFar), buf;
    }
    HeadroomIs();
    nbuf := Room(buf, off, off + Shl(1, 17), grow);
    ghost var s1 := Sink(nbuf[..off], nbuf.Length, grow);
    CopyCases(s, s1, dst, len, q);
    if off + len > nbuf.Length {
      return Err(Overflow), nbuf;
    }
    CopyWithin(nbuf, off, dst, len);
    assert nbuf[..off + len] == CopyBack(s.out, dst, len);
    r := Ok(At(q, off + len, false));
  }

  lemma HeadroomIs()
    ensures Shl(1, 17) == Headroom
  {
    ShlIsMul(1, 17);
    Pow2Values();
  }

  /** A copy within reach: Overflow when it does not fit the reserved buffer, otherwise the copy. */
  lemma CopyCases(s: Sink, s1: Sink, dst: nat, len: nat, q: nat)
    requires 0 < dst <= |s.out| && s1 == Reserve(s, |s.out| + Headroom)
    ensures |s.out| + len > s1.cap ==> Copy(s, dst, len, q) == Err(Overflow)
    ensures |s.out| + len <= s1.cap ==> Copy(s, dst, len, q) == Ok(More(q, s1.(out := CopyBack(s.out, dst, len))))
  {
  }

  /**
   * `if (noBuf) buf = this._check(buf, len)`: a buffer that may grow is
   * made to hold len bytes, keeping its first off bytes; a caller's buffer
   * stays. Agrees with Reserve.
   */
  method Room(buf: array<Byte>, off: nat, len: nat, grow: bool) returns (nbuf: array<Byte>)
    requires off <= buf.Length
    ensures nbuf == buf || fresh(nbuf)
    ensures !grow ==> nbuf == buf
    ensures off <= nbuf.Length && nbuf[..off] == buf[..off]
    ensures Sink(nbuf[..off], nbuf.Length, grow) == Reserve(Sink(buf[..off], buf.Length, grow), len)
  {
    nbuf := buf;
    if grow {
      nbuf := Check(buf, len);
      assert nbuf[..off] == nbuf[..][..off];
    }
  }

  // ---------------------------------------------------------------------
  // Stored blocks

  /**
   * A stored block (`BTYPE == 0`) whose header bits end at pos: pos moved
   * to the next byte boundary (`pos & 7`), LEN read from the two bytes
   * there, `_check` for LEN more bytes when the buffer may grow, and the
   * LEN bytes that start 4 bytes past the boundary copied to the output
   * (`buf.set`). Agrees with Stored, error for error.
   */
  method StoredBlock(dt: seq<Byte>, pos: nat, buf: array<Byte>, off: nat, grow: bool)
    returns (r: Result<At, Error>, nbuf: array<Byte>)
    requires off <= buf.Length
    modifies buf
    ensures Agrees(r, Stored(dt, pos, Sink(old(buf[..off]), buf.Length, grow)), nbuf, grow)
    ensures nbuf == buf || fresh(nbuf)
    ensures !grow ==> nbuf == buf
    ensures Keeps(r, nbuf, old(buf[..]), grow)
  {
    ghost var s := Sink(buf[..off], buf.Length, grow);
    var p := pos;
    if p % 8 != 0 {
      p := p + 8 - p % 8;
    }
    var p8 := p / 8 + 4;
    var len := ByteAt(dt, p8 - 4) + 256 * ByteAt(dt, p8 - 3);
    if p8 + len > |dt| {
      return Err(Truncated), buf;
    }
    nbuf := Room(buf, off, off + len, grow);
    ghost var s0 := Sink(nbuf[..off], nbuf.Length, grow);
    StoredCases(dt, pos, s, s0, p8, len);
    if off + len > nbuf.Length {
      return Err(Overflow), nbuf;
    }
    CopyIn(nbuf, off, dt[p8..p8 + len]);
    assert nbuf[..off + len] == s.out + dt[p8..p8 + len];
    r := Ok(At(8 * (p8 + len), off + len, true));
  }

  /** Stored, once the boundary, LEN and the buffer's new size are known. */
  lemma StoredCases(dt: seq<Byte>, pos: nat, s: Sink, s0: Sink, p8: nat, len: nat)
    requires p8 == Align(pos) / 8 + 4 && len == ByteAt(dt, p8 - 4) + 256 * ByteAt(dt, p8 - 3)
    requires p8 + len <= |dt| && s0 == Reserve(s, |s.out| + len)
    ensures |s.out| + len > s0.cap ==> Stored(dt, pos, s) == Err(Overflow)
    ensures |s.out| + len <= s0.cap ==>
      Stored(dt, pos, s) == Ok(Done(8 * (p8 + len), s0.(out := s.out + dt[p8..p8 + len])))
  {
  }

  /** `buf.set(bytes, off)`: the bytes written from off on, the rest of the buffer as it was. */
  method CopyIn(buf: array<Byte>, off: nat, bytes: seq<Byte>)
    requires off + |bytes| <= buf.Length
    modifies buf
    ensures buf[..] == old(buf[..off]) + bytes + old(buf[off + |bytes|..])
  {
    forall k | 0 <= k < |bytes| {
      buf[off + k] := bytes[k];
    }
    assert forall k | 0 <= k < buf.Length :: buf[..][k] == (old(buf[..off]) + bytes + old(buf[off + |bytes|..]))[k];
  }

  // ---------------------------------------------------------------------
  // Blocks

  /**
   * One block of `F_inflate` after its BFINAL and BTYPE bits, which end at
   * pos: a stored block; BadBlockType for BTYPE 3; otherwise `_check` for
   * `1 << 17` more bytes when the buffer may grow, then the fixed maps
   * (`flmap` under mask 511, `fdmap` under mask 31) or the maps a dynamic
   * header describes, and the symbol loop. Agrees with Block.
   */
  method DecodeBlock(U: Tables, dt: seq<Byte>, pos: nat, btype: nat, buf: array<Byte>, off: nat, grow: bool)
    returns (r: Result<At, Error>, nbuf: array<Byte>)
    requires U.Valid() && off <= buf.Length
    modifies buf
    ensures Agrees(r, Block(dt, pos, btype, Sink(old(buf[..off]), buf.Length, grow)), nbuf, grow)
    ensures nbuf == buf || fresh(nbuf)
    ensures !grow ==> nbuf == buf
    ensures Keeps(r, nbuf, old(buf[..]), grow)
  {
    ghost var s := Sink(buf[..off], buf.Length, grow);
    if btype == 0 {
      r, nbuf := StoredBlock(dt, pos, buf, off, grow);
      return;
    }
    if btype == 3 {
      return Err(BadBlockType), buf;
    }
    HeadroomIs();
    var room := off + Shl(1, 17);
    nbuf := Room(buf, off, room, grow);
    ghost var s1 := Sink(nbuf[..off], nbuf.Length, grow);
    ReserveHeadroom(s, room);
    if btype == 1 {
      BlockFixed(dt, pos, btype, s, s1);
      FixedLitDecoder(U.flmap);
      FixedDistDecoder(U.fdmap);
      r, nbuf := DecodeSymbols(U, U.flmap, 511, U.fdmap, 31, dt, pos, nbuf, off, grow, FixedLit, 9, FixedDist, 5);
    } else {
      BlockDynamic(dt, pos, btype, s, s1);
      var h, L, D, LM, DM := DynamicHeader(dt, pos, U.rev15);
      if h.Err? {
        return Err(h.error), nbuf;
      }
      var d := h.value;
      r, nbuf := DecodeSymbols(U, d.lmap, d.ml, d.dmap, d.md, dt, d.pos, nbuf, off, grow, L, LM, D, DM);
    }
  }

  /** The 9-bit map `init` builds for the fixed literal/length code decodes it under mask 511. */
  lemma FixedLitDecoder(m: array<nat>)
    requires m.Length == 512 && m[..] == Table(FixedLit, 9)
    ensures Decoder(m, 511, FixedLit, 9) && |FixedLit| <= 288
  {
    FixedLitFits();
    Pow2Values();
    assert m[..Pow2(9)] == m[..];
  }

  /** The 5-bit map `init` builds for the fixed distance code decodes it under mask 31. */
  lemma FixedDistDecoder(m: array<nat>)
    requires m.Length == 32 && m[..] == Table(FixedDist, 5)
    ensures Decoder(m, 31, FixedDist, 5) && |FixedDist| <= 32
  {
    FixedDistFits();
    Pow2Values();
    assert m[..Pow2(5)] == m[..];
  }

  /** The room asked for before a Huffman-coded block or a back-reference. */
  lemma ReserveHeadroom(s: Sink, room: nat)
    requires room == |s.out| + Headroom
    ensures Reserve(s, room) == Reserve(s, |s.out| + Headroom)
  {
  }

  /** A fixed block is the symbol run over the fixed codes, after the buffer is given its room. */
  lemma BlockFixed(dt: seq<Byte>, pos: nat, btype: nat, s: Sink, s1: Sink)
    requires btype == 1 && s1 == Reserve(s, |s.out| + Headroom)
    ensures Block(dt, pos, btype, s) == Symbols(dt, FixedLit, FixedDist, pos, s1)
  {
  }

  /** A dynamic block is its header's error, or the symbol run over the codes it describes. */
  lemma BlockDynamic(dt: seq<Byte>, pos: nat, btype: nat, s: Sink, s1: Sink)
    requires btype != 0 && btype != 1 && btype != 3 && s1 == Reserve(s, |s.out| + Headroom)
    ensures Header(dt, pos).Err? ==> Block(dt, pos, btype, s) == Err(Header(dt, pos).error)
    ensures Header(dt, pos).Ok? ==>
      var h := Header(dt, pos).value;
      Block(dt, pos, btype, s) == Symbols(dt, h.lit, h.dist, h.pos, s1)
  {
  }

  /** Blocks after one block: its error, the block itself when it is marked final, or the blocks after it. */
  lemma BlocksStep(dt: seq<Byte>, pos: nat, s: Sink, final: nat, p1: nat, btype: nat, p3: nat, sb: Result<Step, Error>)
    requires final == BitsValue(dt, pos, 1) && p1 == pos + 1 && btype == BitsValue(dt, p1, 2)
    requires p3 == pos + 3 && sb == Block(dt, p3, btype, s)
    ensures final < 2
    ensures sb.Err? ==> Blocks(dt, pos, s) == Err(sb.error)
    ensures sb.Ok? ==> pos < sb.value.pos <= 8 * |dt| && sb.value.Done?
    ensures sb.Ok? && final == 1 ==> Blocks(dt, pos, s) == sb
    ensures sb.Ok? && final != 1 ==> Blocks(dt, pos, s) == Blocks(dt, sb.value.pos, sb.value.sink)
  {
    assert Pow2(1) == 2;
  }

  /**
   * The block loop of `F_inflate`, `while (BFINAL == 0)`: BFINAL and BTYPE
   * read with `bitsF`, then the block, until a block marked final has been
   * decoded. Agrees with Blocks from the start of the stream.
   */
  method DecodeBlocks(U: Tables, dt: seq<Byte>, buf: array<Byte>, grow: bool)
    returns (r: Result<At, Error>, nbuf: array<Byte>)
    requires U.Valid()
    modifies buf
    ensures Agrees(r, Blocks(dt, 0, Sink([], buf.Length, grow)), nbuf, grow)
    ensures nbuf == buf || fresh(nbuf)
    ensures !grow ==> nbuf == buf
    ensures Keeps(r, nbuf, old(buf[..]), grow)
  {
    nbuf := buf;
    var pos: nat, off: nat, final: nat := 0, 0, 0;
    ghost var goal := Blocks(dt, 0, Sink([], buf.Length, grow));
    assert buf[..0] == [];
    ghost var before := buf[..];
    while final == 0
      invariant off <= nbuf.Length
      invariant nbuf == buf || fresh(nbuf)
      invariant !grow ==> nbuf == buf
      invariant !grow ==> forall k | off <= k < nbuf.Length :: nbuf[k] == before[k]
      invariant final == 0 ==> Blocks(dt, pos, Sink(nbuf[..off], nbuf.Length, grow)) == goal
      invariant final != 0 ==> goal == Ok(Done(pos, Sink(nbuf[..off], nbuf.Length, grow)))
      decreases if final == 0 then Left(dt, pos) + 1 else 0
    {
      ghost var s := Sink(nbuf[..off], nbuf.Length, grow);
      final := ReadBitsF(dt, pos, 1);
      var p1 := pos + 1;
      var btype := ReadBitsF(dt, p1, 2);
      var p3 := pos + 3;
      ghost var sb := Block(dt, p3, btype, s);
      BlocksStep(dt, pos, s, final, p1, btype, p3, sb);
      var st;
      st, nbuf := DecodeBlock(U, dt, p3, btype, nbuf, off, grow);
      if st.Err? {
        return st, nbuf;
      }
      pos, off := st.value.pos, st.value.off;
    }
    r := Ok(At(pos, off, true));
  }

  // ---------------------------------------------------------------------
  // Entry points

  /**
   * What `inflateRaw(dt, buf)` returns, as Inflate describes it. The
   * decoder grows a buffer of its own when the caller gives none, starting
   * at `(data.length >>> 2) << 3` bytes. The stream 3, 0 is answered with
   * the caller's buffer untouched, or an empty one. Otherwise the result
   * holds exactly the output, and is the buffer itself when the output
   * fills it. A caller's buffer ends up holding the output followed by
   * its own bytes past the output, which are left as they were.
   */
  ghost predicate Inflated(dt: seq<Byte>, buf: array?<Byte>, before: seq<Byte>, r: Result<array<Byte>, Error>)
    reads buf, if r.Ok? then {r.value} else {}
  {
    var cap := if buf == null then |dt| / 4 * 8 else buf.Length;
    match Inflate(dt, cap, buf == null)
    case Err(e) => r == Err(e)
    case Ok(t) =>
      r.Ok? &&
      (buf != null ==> |t.out| <= buf.Length == |before| && buf[..] == t.out + before[|t.out|..]) &&
      if EmptyFinal(dt) then
        if buf == null then r.value.Length == 0 else r.value == buf
      else
        r.value[..] == t.out && (buf != null && buf.Length == |t.out| ==> r.value == buf)
  }

  /**
   * `inflateRaw` (`F_inflate`): a raw DEFLATE stream decoded into the
   * caller's buffer, or into one of the decoder's own when buf is null.
   */
  method InflateRaw(U: Tables, dt: seq<Byte>, buf: array?<Byte>) returns (r: Result<array<Byte>, Error>)
    requires U.Valid()
    modifies buf
    ensures r.Ok? ==> r.value == buf || fresh(r.value)
    ensures Inflated(dt, buf, old(if buf == null then [] else buf[..]), r)
  {
    if |dt| >= 2 && dt[0] == 3 && dt[1] == 0 {
      if buf != null {
        assert buf[..] == [] + buf[..][0..];
        return Ok(buf);
      }
      var empty := new Byte[0];
      return Ok(empty);
    }
    var grow := buf == null;
    ghost var before := if grow then [] else buf[..];
    var b: array<Byte>;
    if grow {
      InitialCap(|dt|);
      b := new Byte[Shl(Ushr(|dt|, 2), 3)];
    } else {
      b := buf;
    }
    var st, nbuf := DecodeBlocks(U, dt, b, grow);
    if st.Err? {
      return Err(st.error);
    }
    var off := st.value.off;
    if !grow {
      TailKept(nbuf[..], before, off);
    }
    var out := Trimmed(nbuf, off);
    r := Ok(out);
  }

  /** Bytes that agree with before from off on are their first off bytes followed by the rest of before. */
  lemma TailKept(b: seq<Byte>, before: seq<Byte>, off: nat)
    requires off <= |b| == |before| && forall k | off <= k < |b| :: b[k] == before[k]
    ensures b == b[..off] + before[off..]
  {
  }

  /** `(data.length >>> 2) << 3`: the input length doubled, rounded down to a multiple of 8. */
  lemma InitialCap(n: nat)
    ensures Shl(Ushr(n, 2), 3) == n / 4 * 8
  {
    ShlIsMul(Ushr(n, 2), 3);
    assert Pow2(3) == 8;
    assert Ushr(n, 2) == Ushr(n / 2, 1) == n / 2 / 2;
    DivModUnique(n, 4, n / 2 / 2, n % 2 + 2 * (n / 2 % 2));
  }

  /** `buf.length == n ? buf : buf.slice(0, n)`: the first n bytes, in buf itself when they fill it. */
  method Trimmed(buf: array<Byte>, n: nat) returns (a: array<Byte>)
    requires n <= buf.Length
    ensures a[..] == buf[..n]
    ensures n == buf.Length ==> a == buf
    ensures n < buf.Length ==> fresh(a)
  {
    if n == buf.Length {
      assert buf[..] == buf[..n];
      return buf;
    }
    a := new Byte[n];
    forall k | 0 <= k < n {
      a[k] := buf[k];
    }
    assert forall k | 0 <= k < n :: a[..][k] == buf[..n][k];
  }

  /**
   * `inflate`: a zlib stream, its 2-byte header and 4-byte Adler-32
   * trailer skipped unchecked, the rest decoded as by `inflateRaw`. A
   * stream shorter than 6 bytes has no such view; the source throws there,
   * and here it is Truncated.
   */
  method InflateZlib(U: Tables, file: seq<Byte>, buf: array?<Byte>) returns (r: Result<array<Byte>, Error>)
    requires U.Valid()
    modifies buf
    ensures r.Ok? ==> r.value == buf || fresh(r.value)
    ensures |file| < 6 ==> r == Err(Truncated)
    ensures |file| >= 6 ==> Inflated(file[2..|file| - 4], buf, old(if buf == null then [] else buf[..]), r)
  {
    if |file| < 6 {
      return Err(Truncated);
    }
    r := InflateRaw(U, file[2..|file| - 4], buf);
  }
}
