# unzipjs in Dafny

This project models `unzipjs.js`, a dependency-free ZIP reader that brings
its own DEFLATE decoder, and proves properties of the model. The modelled
parts of the single class `unzipjs` are:

- The byte readers: `readUshort`, `readUint` and `readASCII`.
- The bit readers: `bitsE`, `bitsF` and `get17`.
- The Huffman table builders: `makeCodes`, `codes2map` and `FrevCodes`.
- The tables that `init` prepares once.
- The decoder: `F_inflate` with `_check`, `_decodeTiny` and `_copyOut`, and the entry points `inflateRaw` and `inflate`.
- The ZIP container walk: `parse` and `readLocal`.

The DEFLATE format is the one in RFC 1951. The ZIP records are the ones in
PKWARE's APPNOTE.TXT: section 4.3.16 for the End of Central Directory
record, 4.3.12 for the central directory header and 4.3.7 for the local
file header.

The model has two layers:

- **What is computed.** Pure functions state it. `InflateSpec.Inflate`
  decodes a raw DEFLATE stream by searching the stream for the canonical
  code that comes next, reading each field bit by bit. `Zip.Archive` says
  which entries an archive holds.
- **How the source computes it.** Imperative methods mirror the source's
  loops over arrays. `Decompress.InflateRaw` reads the bit windows of
  `bitsE`, `bitsF` and `get17` and looks symbols up in tables built by
  `makeCodes` and `codes2map`. It writes into a caller's buffer or into
  one that `_check` grows. `Zip.Parse` advances an offset through the
  central directory. Each method is proved to compute exactly its
  function.

Lemmas connect the two layers. They show:

- the table lookup finds the same symbol as the code search;
- canonical codes are prefix-free;
- the 15-bit reversal table built by the swap network of `init` reverses
  bits, and reversal is an involution;
- a back-reference copy repeats the output `dst` bytes back, overlapping
  included;
- stored blocks copy exactly LEN bytes;
- the EOCD scan finds the highest signature;
- the compression method decides the content: 0 stored, 8 inflated, any
  other an error.

Modules, in dependency order:

| file | module | contents |
|---|---|---|
| arith.dfy | Arith | powers of two, shifts, bits of a number, bit reversal `Rev` |
| words.dfy | Words | 32-bit `&`, `\|` and `<<`, and the bit-swap network of `init` |
| bytes.dfy | Readers | `readUshort`, `readUint`, `bitsE`, `bitsF`, `get17` against the bit stream |
| wrappers.dfy | Wrappers | `Option` and `Result` |
| huffman.dfy | Huffman | canonical codes, the lookup table they define, code search |
| deflate.dfy | Deflate | the constant tables `ordr`, `of0`, `exb`, `df0`, `dxb`, and the fixed code lengths |
| trees.dfy | Trees | `makeCodes`, `codes2map` and `FrevCodes` on arrays |
| tables.dfy | Setup | the class `Tables` built by `init` |
| inflate_spec.dfy | InflateSpec | DEFLATE decoding as functions |
| inflate.dfy | Inflater | table lookup, `_check`, `_decodeTiny`, `_copyOut`, the dynamic block header |
| decompress.dfy | Decompress | the `F_inflate` loops, `inflateRaw`, `inflate` |
| zip.dfy | Zip | `readASCII`, the EOCD scan, `parse` and `readLocal` |

## Model

| member | source | states |
|---|---|---|
| Readers.ReadUshort | unzipjs.js:117 | the two bytes at p read as a little-endian 16-bit number, a byte past the end counting as 0 |
| Readers.ReadUint | unzipjs.js:118 | the four bytes at p read as a little-endian unsigned 32-bit number, below 2^32 (the top byte is multiplied, so the result is never negative) |
| Readers.BitsE | unzipjs.js:281 | the result has at most n bits, and equals the n stream bits from bit pos (least significant first) whenever they lie in the 16-bit window |
| Readers.BitsF | unzipjs.js:282 | as BitsE, with a 24-bit window |
| Readers.Get17 | unzipjs.js:284-286 | the 24-bit little-endian window at byte pos/8, shifted right by pos%8, so below 2^24 |
| Readers.Get17Bits | unzipjs.js:284-286 | masking `get17` with 2^n-1, for n up to 17, gives the next n stream bits: the window always holds at least 17 meaningful bits |
| Readers.WindowBit | unzipjs.js:281-285 | bit j of a k-byte window is stream bit 8q+j, and the window is below 2^(8k) |
| Readers.CodeBitsIsRev | unzipjs.js:271-272 | a Huffman code read most significant bit first is the bit reversal of the same bits read as a number, which is why the maps index by reversed codes |
| Inflater.ReadBitsE | unzipjs.js:157-163 | the `bitsE` reads of the dynamic header (at most 9 bits) give the stream bits exactly |
| Inflater.ReadBitsF | unzipjs.js:187-191 | the `bitsF` reads of extra bits (at most 17) give the stream bits exactly |
| Arith.RevRev | unzipjs.js:290-297 | reversing n bits twice gives the number back: bit reversal is an involution |
| Arith.RevBit | unzipjs.js:290-297 | bit j of the n-bit reversal of x is bit n-1-j of x |
| Words.AndBit | unzipjs.js:292-295 | bit j of `x & y` is set exactly when bit j is set in both |
| Words.OrBit | unzipjs.js:292-296 | bit j of `x \| y` is set exactly when bit j is set in either |
| Words.ShlBit | unzipjs.js:292-296 | bit j of the 32-bit `x << k` is bit j-k of x, or 0 below k and from bit 32 |
| Words.MaskValues | unzipjs.js:292-295 | the masks 0xaaaaaaaa … 0x00ff00ff are the alternating patterns of 1-, 2-, 4- and 8-bit groups |
| Words.StageBit | unzipjs.js:292-295 | each swap stage moves every bit to its partner in the neighbouring k-bit group |
| Words.NetworkBit | unzipjs.js:292-295 | for 1 <= v < 16, the four stages together send bit v of the low 16-bit group to bit 15-v (bit 0 goes to bit 15, which `>>> 17` drops) |
| Words.Reverse15 | unzipjs.js:291-296 | the swap network, the half-word swap and `>>> 17` leave a 15-bit number |
| Words.Reverse15IsRev | unzipjs.js:290-297 | the swap network followed by the half-word swap and `>>> 17` computes the 15-bit reversal of i |
| Setup.ReversalTable | unzipjs.js:289-297 | rev15 has 2^15 entries, and entry i is the 15-bit reversal of i |
| Setup.SetReversal | unzipjs.js:296 | one store into rev15 changes entry i to Rev(i, 15) and nothing else |
| Setup.PackedTables | unzipjs.js:301 | ldef[i] packs of0[i] above the 3 bits of exb[i], and ddef[i] packs df0[i] above the 4 bits of dxb[i], for all 32 entries |
| Setup.SetPacked | unzipjs.js:301 | one iteration of the packing loop extends the packed prefix by entry i |
| Setup.PackAt | unzipjs.js:301 | `(of0[i] << 3) \| exb[i]` and `(df0[i] << 4) \| dxb[i]` do not overlap: the `\|` is an addition |
| Setup.TableBounds | unzipjs.js:12-16 | the four tables have 32 entries, and the bases and extra-bit counts fit their packed fields |
| Deflate.LengthRanges | unzipjs.js:12-13 | the length bases with their extra bits tile 3..258 without gaps (section 3.2.5 of RFC 1951), and entry 28 is the single length 258 |
| Deflate.DistanceRanges | unzipjs.js:15-16 | the distance bases with their extra bits tile 1..32768 without gaps |
| Deflate.OrdrIsPermutation | unzipjs.js:11 | `ordr` lists each of the 19 code-length symbols exactly once |
| Deflate.FixedLitFits | unzipjs.js:303 | the fixed literal/length lengths (144 of 8, 112 of 9, 24 of 7, 8 of 8) fill the code space exactly |
| Deflate.FixedLitCodes | unzipjs.js:303-304 | the fixed literal/length codes are those of section 3.2.6 of RFC 1951: 48+s for 0-143, 400+(s-144) for 144-255, s-256 for 256-279, 192+(s-280) for 280-287 |
| Deflate.FixedDistFits | unzipjs.js:308-309 | the 32 fixed distance codes are 5 bits long and code s is s |
| Setup.Pushed | unzipjs.js:299 | definition: `pushV` leaves a tree of (code 0, length) pairs, one per given length, in order |
| Setup.PushedOf | unzipjs.js:299 | any tree of zero codes whose lengths are L is the pushed tree of L |
| Setup.NewTree | unzipjs.js:299 | the new array holds the pushed tree |
| Setup.FixedLitTree | unzipjs.js:303-306 | the fixed literal/length tree holds the fixed lengths and each symbol's canonical code bit-reversed, and its 512-entry map is the lookup table of those codes |
| Setup.FixedDistTree | unzipjs.js:308-311 | the same for the 32 fixed distance codes and their 32-entry map |
| Setup.FixedTree | unzipjs.js:303-311 | `pushV`, `makeCodes`, `codes2map`, `FrevCodes` on all-nonzero lengths that fit: canonical codes reversed in the tree, and the map is the lookup table |
| Setup.CanonicalTree | unzipjs.js:304-305 | `makeCodes` then `codes2map` on a pushed tree leaves canonical codes that fit and the lookup table |
| Setup.ReverseCodes | unzipjs.js:306 | `FrevCodes` turns each canonical code into its bit reversal and keeps the lengths |
| Setup.Tables.constructor | unzipjs.js:287-314 | `init` establishes the class invariant: reversal table, packed tables, both fixed trees and both fixed maps as above |
| Huffman.MaxOf | unzipjs.js:232-233 | the largest length: at least every length and equal to one of them, 0 for none |
| Huffman.RankBound | unzipjs.js:255-260 | a symbol's rank among the symbols of its length is below their count |
| Huffman.CodesIncrease | unzipjs.js:255-260 | two symbols of one length get increasing codes in symbol order |
| Huffman.CodeFits | unzipjs.js:250-253 | when the lengths are not oversubscribed, each code fits in its length |
| Huffman.PrefixFree | unzipjs.js:250-260 | no canonical code is a prefix of another code |
| Huffman.NextCodeGrowth | unzipjs.js:250-253 | the first code of a longer length lies above every code of a shorter length, shifted up |
| Huffman.Codes | unzipjs.js:238-262 | definition: the canonical code of every symbol, one per length entry |
| Huffman.HitsUnique | unzipjs.js:266-273 | when lengths fit, two different symbols never claim the same map slot |
| Huffman.EntryIsHit | unzipjs.js:263-275 | a slot holds `(s << 4) \| len(s)` for the symbol whose reversed code it extends, and 0 when no symbol's code does |
| Huffman.TableDecodes | unzipjs.js:181 | the slot selected by the next M bits holds symbol s exactly when s's code comes next in the stream |
| Huffman.TableEmpty | unzipjs.js:181 | the selected slot is 0 exactly when no code comes next |
| Huffman.Match | unzipjs.js:181-182 | the reference decoder: a symbol whose code comes next in the stream, or None when no code does |
| Huffman.MatchUnique | unzipjs.js:181-182 | when lengths fit, a symbol whose code comes next is the one Match finds |
| Huffman.SameStreamSameSymbol | unzipjs.js:181-182 | at most one symbol's code comes next |
| Huffman.TableMatch | unzipjs.js:181-182 | table lookup and code search agree: the selected slot is `(s << 4) \| len(s)` for the matched symbol s, or 0 for none |
| Trees.Lens | unzipjs.js:256 | definition: the lengths are the odd entries of a tree |
| Trees.CodesOf | unzipjs.js:258 | definition: the codes are the even entries of a tree |
| Trees.Wrap16 | unzipjs.js:9 | a value stored into `next_code` (a Uint16Array) is taken modulo 2^16 |
| Trees.CountLengths | unzipjs.js:243-244 | `bl_count[b]` is the number of symbols of length b |
| Trees.FirstCodes | unzipjs.js:248-253 | `next_code[b]` is the first canonical code of length b |
| Trees.AssignCodes | unzipjs.js:255-261 | every symbol of nonzero length receives its canonical code (modulo 2^16), zero-length symbols and all lengths stay as they were |
| Trees.MakeCodes | unzipjs.js:238-262 | `makeCodes` hands every nonzero-length symbol its canonical code and touches nothing else |
| Trees.MadeCodes | unzipjs.js:238-262 | on lengths that fit, the tree `makeCodes` leaves is canonical and its codes fit their lengths |
| Trees.CanonicalCodes | unzipjs.js:238-262 | `makeCodes` on lengths that fit leaves the lengths, and the codes become canonical |
| Trees.Codes2Map | unzipjs.js:263-275 | every map slot is what writing `(s << 4) \| len` into the reversed extensions of each code, in symbol order, leaves there |
| Trees.FillCode | unzipjs.js:269-273 | the inner loop writes the value into exactly the slots whose low bits are the reversed code |
| Trees.ExtensionSlot | unzipjs.js:269-272 | slot p is the reversal of code c extended by j exactly when p's low l bits are c reversed and its upper bits are j reversed |
| Trees.FrevEntry | unzipjs.js:271-278 | `rev15[c << (M-l)] >>> (15-M)` is the l-bit reversal of c |
| Trees.MapAfterNone | unzipjs.js:263-266 | before any symbol the map is as it was |
| Trees.MapStep | unzipjs.js:266-274 | one symbol changes only the slots its code reaches, and a zero-length symbol changes none |
| Trees.MapIsTable | unzipjs.js:263-275 | on a canonical tree and a zeroed map, `codes2map` leaves the lookup table of the lengths, and zero past it |
| Trees.BuildMap | unzipjs.js:164-165 | `makeCodes` then `codes2map` into a fresh map: canonical codes in the tree and the lookup table in the map |
| Trees.FrevCodes | unzipjs.js:276-279 | each code is replaced by its bit reversal over its own length, and lengths are kept |
| Trees.ZeroMap | unzipjs.js:20-22 | definition: a fresh map of n zero slots |
| Trees.NewMap | unzipjs.js:20-22 | the new array holds n zero slots |
| InflateSpec.GrownBounds | unzipjs.js:201-205 | `_check` never shrinks the buffer, makes it hold len, keeps it when it already does, and otherwise doubles it or takes len, whichever is larger |
| Inflater.Check | unzipjs.js:201-205 | the same buffer when it is long enough; otherwise a fresh one of the grown length starting with the old bytes and then zeros |
| InflateSpec.Reserve | unzipjs.js:150-154 | asking for room keeps the output, grows only a growable buffer, and a growable buffer then holds the request |
| InflateSpec.Put | unzipjs.js:151-183 | appending bytes succeeds exactly when they fit in the buffer, and then the output is the old output followed by the bytes |
| InflateSpec.Fill | unzipjs.js:226-234 | definition: n copies of one value |
| InflateSpec.CopyBack | unzipjs.js:194 | copying len bytes from dst back lengthens the output by len |
| InflateSpec.CopyBackMeaning | unzipjs.js:194 | the copy keeps the old output and each new byte equals the byte dst before it, so overlapping copies repeat the pattern |
| InflateSpec.CopyBackUnique | unzipjs.js:194 | any output that extends the old one with each new byte equal to the byte dst back is that copy |
| InflateSpec.CopyBackRun | unzipjs.js:194 | a distance-1 copy repeats the last byte len times |
| Decompress.CopyWithin | unzipjs.js:194-195 | the in-place copy loop leaves the buffer's first off+len bytes as the back-reference copy and the rest untouched |
| InflateSpec.LengthAt | unzipjs.js:186-187 | lengths of symbols 257-285 lie in 3..258 with at most 5 extra bits, 257-264 need no extra bits (`lit - 254`), and 286-287 give the padding 999 |
| InflateSpec.LengthFacts | unzipjs.js:12-13 | base plus extra bits stays within 3..258 for the first 29 entries |
| InflateSpec.DistanceAt | unzipjs.js:191 | distances are at least 1 with at most 13 extra bits, at most 32768 for symbols 0-29, and 65535 for 30-31 |
| InflateSpec.DistanceFacts | unzipjs.js:15-16 | base plus extra bits stays within 1..32768 for the first 30 entries |
| Decompress.LengthOf | unzipjs.js:186-187 | the length computed from `ldef` and `bitsE` is the one LengthAt reads from the stream |
| Decompress.DistanceOf | unzipjs.js:191 | the distance computed from `ddef` and `bitsF` is the one DistanceAt reads from the stream |
| InflateSpec.Copy | unzipjs.js:193-195 | a back-reference copy only appends to the output, within the buffer, which it grows only when growable |
| InflateSpec.Distance | unzipjs.js:189-195 | the distance decode and copy that follow a length: they only append and move forward |
| InflateSpec.BackRef | unzipjs.js:185-195 | a back-reference only appends and moves forward |
| InflateSpec.Symbol | unzipjs.js:182-196 | a literal, end-of-block or back-reference step only appends to the output |
| InflateSpec.SymbolStep | unzipjs.js:181-196 | each symbol consumes at least one bit and only appends |
| InflateSpec.Symbols | unzipjs.js:180-197 | a Huffman-coded block ends at its end-of-block code within the input and only appends to the output |
| Decompress.SymbolCases | unzipjs.js:183-185 | a literal appends its byte (or overflows the buffer), 256 ends the block with the output unchanged, and above 256 is a back-reference |
| Decompress.CopyCases | unzipjs.js:193-195 | after `_check`'s headroom, the copy overflows exactly when the buffer cannot hold it, and otherwise appends CopyBack |
| Decompress.SymbolsStep | unzipjs.js:180-197 | one turn of the symbol loop: an error stops it, the end-of-block code ends it, anything else continues from the next bit |
| Decompress.DecodeSymbols | unzipjs.js:180-197 | the symbol loop decodes exactly what Symbols says: same error, same end position, output and buffer, and a caller's buffer keeps its bytes past the output |
| Decompress.DecodeSymbol | unzipjs.js:181-196 | one lookup and the step it takes agree with SymbolStep |
| Decompress.EmitSymbol | unzipjs.js:183-196 | the literal / end / back-reference branch agrees with Symbol |
| Decompress.BackReference | unzipjs.js:186-195 | the length, distance and copy of a back-reference agree with BackRef |
| Decompress.DistanceCopy | unzipjs.js:189-195 | the distance lookup, its extra bits and the copy agree with Distance |
| Decompress.CopyMatch | unzipjs.js:193-195 | `_check` then the copy loop agree with Copy |
| Decompress.Room | unzipjs.js:154-193 | `_check` on a growable buffer is Reserve on the output: the bytes written are kept |
| Inflater.Lookup | unzipjs.js:181-182 | `map[get17(pos) & mask]` yields 0 exactly when no code comes next, and otherwise the matched symbol (`>>> 4`) and its code length (`& 15`) |
| Inflater.SlotMeaning | unzipjs.js:181-182 | a slot of the lookup table unpacks to the matched symbol and its length |
| InflateSpec.Align | unzipjs.js:148 | the position rounded up to the next byte boundary |
| InflateSpec.Stored | unzipjs.js:147-152 | a stored block ends on a byte boundary inside the input and only appends |
| InflateSpec.StoredFraming | unzipjs.js:147-152 | a stored block copies exactly the LEN bytes that start 4 bytes after the boundary, and the next block starts right after them |
| Decompress.StoredCases | unzipjs.js:149-152 | the stored block overflows exactly when the buffer cannot hold LEN more bytes, and otherwise appends them |
| Decompress.StoredBlock | unzipjs.js:147-152 | the stored-block branch agrees with Stored |
| Decompress.CopyIn | unzipjs.js:151 | `buf.set` writes the bytes at off and leaves the rest of the buffer alone |
| InflateSpec.ClLens | unzipjs.js:161-163 | the 19 code-length code lengths, each below 8 |
| InflateSpec.ClLensListed | unzipjs.js:163 | the i-th 3-bit field gives the length of symbol `ordr[i]` |
| InflateSpec.ClLensUnlisted | unzipjs.js:161 | symbols past HCLEN in `ordr` keep length 0 |
| Inflater.ClLensStep | unzipjs.js:163 | one field read sets the length of symbol `ordr[i]` |
| Inflater.CodeLengthTree | unzipjs.js:161-163 | itree is the pushed tree of the code-length lengths, and tl is their maximum, at least 1 |
| InflateSpec.Run | unzipjs.js:213-226 | each code-length symbol appends 1 to 138 lengths, and lengths stay 0-15 |
| InflateSpec.Tiny | unzipjs.js:207-230 | the expansion moves forward and yields at least the n lengths asked for |
| InflateSpec.TinyFacts | unzipjs.js:207-230 | the expansion only appends, overshoots n by at most one run (137), and yields lengths 0-15 |
| InflateSpec.TinyNext | unzipjs.js:211-226 | one code-length symbol: 0-15 appends itself, 16 repeats the previous length 3-6 times, 17 and 18 append 3-10 or 11-138 zeros |
| Inflater.TinyStep | unzipjs.js:210-227 | one turn of the `_decodeTiny` loop continues the expansion |
| Inflater.RunOf | unzipjs.js:215-224 | the repeat count and value read for symbols 16-18 are the run Run appends |
| Inflater.FillRun | unzipjs.js:226 | the inner loop writes count copies of the value at i and nothing else |
| Inflater.DecodeTiny | unzipjs.js:207-230 | `_decodeTiny` ends at the position the expansion does, with the expanded lengths at the front of the scratch tree, or fails as it does |
| InflateSpec.Spread | unzipjs.js:232-234 | `_copyOut` pads the lengths with zeros up to the tree size and keeps them in front |
| Inflater.CopyOut | unzipjs.js:231-236 | `_copyOut` leaves the pushed tree of the padded lengths and returns their maximum |
| Inflater.CopyLengths | unzipjs.js:233 | the first loop copies each length into the odd entry of its pair, zeroes the code, and tracks the maximum |
| Inflater.PadLengths | unzipjs.js:234 | the second loop zeroes the pairs past the copied lengths |
| InflateSpec.Counts | unzipjs.js:157-159 | HLIT is 257-288, HDIST 1-32 and HCLEN 4-19 |
| Inflater.ReadCounts | unzipjs.js:157-159 | the three header reads give Counts |
| InflateSpec.SplitLengths | unzipjs.js:170-171 | the literal/length lengths are padded to 286 and the distance lengths to 30 |
| Inflater.SplitCases | unzipjs.js:170-177 | oversubscribed lengths fail, otherwise the two padded length lists are the block's codes |
| InflateSpec.Header | unzipjs.js:156-178 | a dynamic header ends inside the input and gives at most 288 literal/length and 32 distance lengths |
| Inflater.WithCases | unzipjs.js:161-169 | oversubscribed code-length lengths fail, otherwise the header continues with the expansion |
| Inflater.CodedCases | unzipjs.js:169-171 | an expansion error is the header's error, an expansion past the end is Truncated, and otherwise the header splits the lengths |
| Inflater.CodeMap | unzipjs.js:164-165 | the map built from a pushed tree decodes that code with mask 2^M-1 |
| Inflater.CopyTrees | unzipjs.js:170-171 | ltree and dtree are the pushed trees of the two padded length lists, with their maxima |
| Inflater.BothMaps | unzipjs.js:173-177 | the two maps decode the literal/length and distance codes |
| Inflater.DynamicHeader | unzipjs.js:156-178 | the dynamic header branch yields maps that decode exactly the codes Header reads, from the position where Header ends, or Header's error |
| Decompress.FixedLitDecoder | unzipjs.js:155 | `flmap` with mask 511 decodes the fixed literal/length code |
| Decompress.FixedDistDecoder | unzipjs.js:155 | `fdmap` with mask 31 decodes the fixed distance code |
| Decompress.BlockFixed | unzipjs.js:154-155 | a fixed block is the symbol loop on the fixed codes after `_check`'s headroom |
| Decompress.BlockDynamic | unzipjs.js:154-178 | a dynamic block fails with its header's error, or is the symbol loop on the header's codes after the headroom |
| InflateSpec.Block | unzipjs.js:147-197 | a block ends inside the input and only appends |
| Decompress.DecodeBlock | unzipjs.js:147-197 | the block dispatch on BTYPE agrees with Block |
| InflateSpec.Blocks | unzipjs.js:142-198 | the blocks up to the final one end inside the input and only append |
| Decompress.BlocksStep | unzipjs.js:142-144 | one turn of the block loop: an error stops it, a final block ends it, and otherwise decoding continues after the block |
| Decompress.DecodeBlocks | unzipjs.js:142-198 | the block loop decodes exactly what Blocks says, and a caller's buffer keeps its bytes past the output |
| InflateSpec.Inflate | unzipjs.js:129-200 | the output extends the empty output within the buffer, and the stream 3, 0 gives no output at once |
| InflateSpec.ExtendsTrans | unzipjs.js:142-198 | appending twice is appending |
| Decompress.InitialCap | unzipjs.js:136 | `(n >>> 2) << 3` is n/4*8: the starting buffer is about twice the input |
| Decompress.Trimmed | unzipjs.js:199 | the result holds the first n bytes, is the buffer itself when it is exactly full, and a fresh copy otherwise |
| Decompress.TailKept | unzipjs.js:199 | a buffer that kept its bytes past off is its first off bytes followed by the old tail |
| Decompress.InflateRaw | unzipjs.js:112 | `inflateRaw`/`F_inflate` return exactly Inflate's output (same error otherwise), in the caller's buffer when it is exactly full, and leave a caller's buffer as the output followed by its own untouched bytes |
| Decompress.InflateZlib | unzipjs.js:113-115 | `inflate` skips the 2-byte zlib header and the 4-byte Adler-32 trailer and inflates what is between |
| Zip.Ascii | unzipjs.js:119 | l characters, each with the code of the byte it comes from |
| Zip.ReadAscii | unzipjs.js:119 | the character loop builds Ascii |
| Zip.AsciiCodes | unzipjs.js:119 | inside the data, the character codes of the name are exactly its bytes |
| Zip.Scan | unzipjs.js:41-43 | the scan down from e finds a signature at or below e with none above it, or reports that there is none |
| Zip.EocdNone | unzipjs.js:41-43 | there is no End of Central Directory exactly when no offset holds its signature |
| Zip.FindEocd | unzipjs.js:41-43 | the backward loop returns the highest offset holding the signature |
| Zip.CentralAt | unzipjs.js:55-69 | a central header reads exactly when its 46 fixed bytes are inside the data, its sizes are 32-bit, and the next header starts after it and its three variable fields |
| Zip.Unpacked | unzipjs.js:94 | a method-8 entry is a usize-byte buffer holding the inflated bytes followed by zeros, and fails exactly when inflating fails |
| Zip.UnpackedIs | unzipjs.js:94 | inflating into a zeroed buffer leaves Unpacked |
| Zip.InflateEntry | unzipjs.js:94 | `new Uint8Array(usize)` then `inflateRaw` gives Unpacked |
| Zip.LocalAt | unzipjs.js:76-110 | an entry that reads has a name of the length at o+26 and records sizes exactly in names-only mode; in full mode its data starts inside the input; a failure is never a missing end record |
| Zip.Payload | unzipjs.js:91-109 | method 0 always reads, giving csize bytes or what is left of the data; method 8 reads exactly when inflating does, giving usize bytes, and otherwise carries the decoder's error; any other method fails naming it |
| Zip.LocalNames | unzipjs.js:88-90 | an entry that reads in full mode reads in names-only mode too, with the same name and the central sizes |
| Zip.NamesOnly | unzipjs.js:85-90 | in names-only mode an entry reads exactly when its name is empty or inside the data, and records the name and the two sizes |
| Zip.StoredEntry | unzipjs.js:92 | method 0 yields exactly the csize bytes after the name and extra field |
| Zip.DeflatedEntry | unzipjs.js:93-94 | method 8 succeeds exactly when the data after the header inflates, yields usize bytes starting with the inflated output, and wraps the decoder's error otherwise |
| Zip.OtherMethod | unzipjs.js:109 | any other method fails naming that method |
| Zip.ReadPayload | unzipjs.js:91-109 | the dispatch on the method gives Payload |
| Zip.ReadLocal | unzipjs.js:76-110 | `readLocal` computes LocalAt: the same entry or the same failure |
| Zip.Entries | unzipjs.js:54-72 | a successful walk of n central headers yields n entries |
| Zip.EntriesStep | unzipjs.js:55-72 | one turn of the directory loop moves one entry from the rest of the walk to what has been read |
| Zip.Directory | unzipjs.js:45-74 | a directory that reads has its count field inside the data and one entry per counted header; it never fails for a missing end record |
| Zip.Archive | unzipjs.js:37-74 | an archive fails with `NoEnd` exactly when no End of Central Directory signature is found |
| Zip.ArchiveCount | unzipjs.js:41-55 | an archive that reads has an End of Central Directory record, and as many entries as its count field says |
| Zip.NamesAgree | unzipjs.js:88-90 | when every entry reads in full mode, names-only mode lists the same names in the same order |
| Zip.ReadEntries | unzipjs.js:54-72 | the directory loop computes Entries |
| Zip.ReadDirectory | unzipjs.js:45-55 | the EOCD fields read give the directory walk |
| Zip.Parse | unzipjs.js:37-74 | `parse` computes Archive: the entries, or why the archive cannot be read |

## Left out

- Reads past the end of the input. The source's typed arrays give `undefined` there. Bit reads treat it as 0, as JavaScript's `|` and `<<` do. A stream whose symbols end past its last bit fails with `Truncated`. A stored block whose bytes run past the end also fails with `Truncated`; in the source, `new Uint8Array` over the whole buffer throws there, except under `inflate` (see Decompress.InflateZlib below).
- Readers.ReadUint: requires its four bytes to be inside the data. Past the end the source gives `NaN` (from `undefined * 2^24`); the ZIP layer checks the 46 fixed bytes of a central header before reading them.
- Checks the source does not make become errors of the model:
  - BTYPE 3 (`BadBlockType`);
  - an unassigned table slot, where no code comes next (`NoCode`);
  - a distance reaching before the output (`DistanceTooFar`);
  - repeat symbol 16 as the first length (`BadRepeat`);
  - oversubscribed code lengths (`OverSubscribed`).
  The source reads garbage or loops in these cases.
- InflateSpec.Copy: reports `Overflow` when a caller's buffer is too small. The source's typed-array stores past the end are dropped silently. For a ZIP entry this becomes `BadDeflate`, where the source would return a truncated buffer.
- Decompress.CopyWithin: the back-reference copy writes exactly len bytes. The source's loop is unrolled four times and may write up to 3 bytes past the end, which later output overwrites, the final slice drops, or a caller's buffer keeps past the output (the model keeps its old bytes there).
- The NLEN field of a stored block is skipped unchecked, as in the source.
- The scratch trees and maps of dynamic blocks are allocated fresh for each block. The source reuses `itree`, `ltree`, `dtree`, `ttree`, `imap`, `lmap` and `dmap` from its single instance, so stale slots outside the current code are 0 here instead of left over.
- Trees.MakeCodes: keeps codes modulo 2^16, as `next_code` (a Uint16Array) does. Code lengths above 15 are not modelled.
- 32-bit wrap-around of `>>>` and `<<` on positions is not modelled. Positions are unbounded numbers, which matches the source for inputs below 256 MiB.
- Zip.LocalAt: reads names with `readASCII`. The source's `readUTF8` first tries to decode the bytes as UTF-8 through `decodeURIComponent` and falls back to `readASCII` when that fails. URI decoding is not part of this model.
- Zip.Archive: the scan of `parse` finds no signature at all → `NoEnd`. The source's loop runs below offset 0 and never ends.
- Zip.LocalAt: a local header past the end reads its fields as 0, as `readUshort` does in the source. A non-empty name with a byte past the end gives `OutOfBounds`, where `readUTF8` throws on `undefined.toString`. In full mode, data starting past the end gives `OutOfBounds`, where `new Uint8Array(data.buffer, o)` throws.
- Decompress.InflateZlib: a stored block whose length runs up to 4 bytes past the deflate data gives `Truncated`. The source's `inflate` passes a view that stops before the 4-byte Adler-32 trailer, and the stored-block copy at unzipjs.js:151 builds its own view over the whole `file.buffer`, so it copies trailer bytes there instead of failing.
- InflateSpec.Symbol: (and InflateSpec.Put, Decompress.EmitSymbol) a literal that does not fit the buffer gives `Overflow`, for a growable buffer too. The source (unzipjs.js:183) stores with no check: a typed-array store past the end is dropped while `off` still counts it. A growable buffer is always grown to `off + 2^17` before a block's symbols (unzipjs.js:154, 193), so this only matters after more than 2^17 literals in a row.
- The shape of `parse`'s result is modelled as one sequence of entries in directory order. The source stores names-only and method-0 entries under their names as keys, so a later duplicate name replaces an earlier one, and it pushes method-8 entries onto the array. Its `toString` (a `TextDecoder` over the bytes) is not modelled.
- An unknown compression method is an error result. The source throws a string.
- Decompress.InflateZlib: the zlib header is not checked and the Adler-32 checksum is not verified, as in the source. Input shorter than 6 bytes gives `Truncated`, where the source's view constructor throws.
- The default-exported singleton and the unused tables of the constructor (`lhst`, `dhst`, `ihst`, `lits`, `strt`, `prev`) are not modelled. The TypeScript wrapper `index.ts` is not part of this model.
