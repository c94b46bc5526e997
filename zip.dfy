// The ZIP container walk of unzipjs.js: `parse` finds the End of Central
// Directory record (section 4.3.16 of PKWARE's APPNOTE.TXT) by scanning
// backwards for its signature, then reads `cnu` central directory headers
// (section 4.3.12) and, for each, the local file header it points at
// (section 4.3.7) through `readLocal`, which dispatches on the compression
// method. The functions say what an archive holds; the methods, which
// advance an offset as the source does and call the decompressor, are
// proved to compute exactly that.

module Zip {
  import opened Words
  import opened Wrappers
  import opened Readers
  import opened InflateSpec
  import opened Setup
  import opened Decompress

  /** The signature that opens the End of Central Directory record. */
  const EocdSig: nat := 0x06054b50

  /** Why an archive cannot be read. */
  datatype ZipError =
    | NoEnd                        // no End of Central Directory signature anywhere
    | OutOfBounds                  // a header or name runs past the end of the data
    | UnknownMethod(cmpr: nat)     // a compression method other than 0 and 8
    | BadDeflate(error: Error)     // the DEFLATE stream of a method-8 entry fails to decode

  /** What an entry holds: its sizes only (names-only mode), or its bytes. */
  datatype Content = Sizes(size: nat, csize: nat) | Bytes(bytes: seq<Byte>)

  datatype Entry = Entry(name: string, content: Content)

  /** The fields of a central directory header that `parse` uses, and where the next header starts. */
  datatype Central = Central(csize: nat, usize: nat, roff: nat, next: nat)

  // ---------------------------------------------------------------------
  // Names

  /** `readASCII`: one character per byte, its code the byte; a byte past the end reads as 0. */
  function Ascii(b: seq<Byte>, p: nat, l: nat): (s: string)
    ensures |s| == l && forall i | 0 <= i < l :: s[i] as int == ByteAt(b, p + i)
  {
    seq(l, i requires 0 <= i < l => ByteAt(b, p + i) as char)
  }

  /** The byte codes of a string whose characters are all below 256. */
  function Codes(s: string): (c: seq<Byte>)
    requires forall i | 0 <= i < |s| :: s[i] as int < 256
    ensures |c| == |s|
  {
    seq(|s|, i requires 0 <= i < |s| => s[i] as int)
  }

  /** Reading l bytes inside the data as characters loses nothing: their codes are those bytes. */
  lemma AsciiCodes(b: seq<Byte>, p: nat, l: nat)
    requires p + l <= |b|
    ensures Codes(Ascii(b, p, l)) == b[p..p + l]
  {
    var s := Ascii(b, p, l);
    forall i | 0 <= i < l
      ensures Codes(s)[i] == b[p..p + l][i]
    {
      assert s[i] as int == ByteAt(b, p + i);
    }
  }

  /** `readASCII` as written: a loop appending `String.fromCharCode(buff[p + i])`. */
  method ReadAscii(buff: seq<Byte>, p: nat, l: nat) returns (s: string)
    ensures s == Ascii(buff, p, l)
  {
    s := "";
    for i := 0 to l
      invariant |s| == i && forall k | 0 <= k < i :: s[k] as int == ByteAt(buff, p + k)
    {
      s := s + [ByteAt(buff, p + i) as char];
    }
  }

  // ---------------------------------------------------------------------
  // The End of Central Directory record

  /**
   * The scan `while (rUi(data, eocd) != 0x06054b50) eocd--` from e down:
   * the highest offset at most e holding the signature. The source loops
   * for ever when there is none; here the scan stops below offset 0.
   */
  function Scan(data: seq<Byte>, e: int): (r: Option<nat>)
    requires e + 4 <= |data|
    ensures r.Some? ==> r.value <= e && ReadUint(data, r.value) == EocdSig
    ensures r.Some? ==> forall k | r.value < k <= e :: ReadUint(data, k) != EocdSig
    ensures r.None? ==> forall k | 0 <= k <= e :: ReadUint(data, k) != EocdSig
    decreases e + 1
  {
    if e < 0 then None
    else if ReadUint(data, e) == EocdSig then Some(e)
    else Scan(data, e - 1)
  }

  /** Where the End of Central Directory record starts: the scan from `data.length - 4`. */
  function Eocd(data: seq<Byte>): Option<nat>
  {
    Scan(data, |data| - 4)
  }

  /** No record is found exactly when no offset holds the signature. */
  lemma EocdNone(data: seq<Byte>)
    ensures Eocd(data).None? <==> forall k | 0 <= k <= |data| - 4 :: ReadUint(data, k) != EocdSig
  {
    if Eocd(data).Some? {
      var e := Eocd(data).value;
      assert ReadUint(data, e) == EocdSig;
    }
  }

  /** `parse`'s scan as written: eocd starts at `data.length - 4` and steps down until the signature. */
  method FindEocd(data: seq<Byte>) returns (r: Option<nat>)
    ensures r == Eocd(data)
    ensures r.Some? ==> r.value + 4 <= |data| && ReadUint(data, r.value) == EocdSig
    ensures r.Some? ==> forall k | r.value < k <= |data| - 4 :: ReadUint(data, k) != EocdSig
  {
    var e: int := |data| - 4;
    while e >= 0 && ReadUint(data, e) != EocdSig
      invariant e + 4 <= |data|
      invariant Scan(data, e) == Eocd(data)
      decreases e + 1
    {
      e := e - 1;
    }
    if e < 0 {
      return None;
    }
    return Some(e);
  }

  // ---------------------------------------------------------------------
  // Headers

  /**
   * The central directory header at o: csize at o+20, usize at o+24, the
   * name, extra and comment lengths at o+28, o+30 and o+32, the local
   * header offset at o+42, and the next header after the 46 fixed bytes
   * and those three fields.
   */
  function CentralAt(data: seq<Byte>, o: nat): (r: Result<Central, ZipError>)
    ensures r.Ok? <==> o + 46 <= |data|
    ensures r.Err? ==> r.error == OutOfBounds
    ensures r.Ok? ==> o + 46 <= r.value.next && r.value.csize < WordSize && r.value.usize < WordSize
  {
    if o + 46 > |data| then Err(OutOfBounds)
    else
      var nl, el, cl := ReadUshort(data, o + 28), ReadUshort(data, o + 30), ReadUshort(data, o + 32);
      Ok(Central(ReadUint(data, o + 20), ReadUint(data, o + 24), ReadUint(data, o + 42), o + 46 + nl + el + cl))
  }

  /** n zero bytes: a fresh `Uint8Array(n)`. */
  function Zeros(n: nat): (z: seq<Byte>)
    ensures |z| == n && forall k | 0 <= k < n :: z[k] == 0
  {
    seq(n, k => 0)
  }

  /**
   * What a method-8 entry holds: a usize-byte buffer, zeroed, that the
   * raw DEFLATE stream file is decoded into; bytes it does not reach stay 0.
   */
  function Unpacked(file: seq<Byte>, usize: nat): (r: Result<seq<Byte>, Error>)
    ensures r.Ok? <==> Inflate(file, usize, false).Ok?
    ensures r.Err? ==> r.error == Inflate(file, usize, false).error
    ensures r.Ok? ==> |r.value| == usize
    ensures r.Ok? ==> var out := Inflate(file, usize, false).value.out;
      |out| <= usize && r.value[..|out|] == out && forall k | |out| <= k < usize :: r.value[k] == 0
  {
    match Inflate(file, usize, false)
    case Err(e) => Err(e)
    case Ok(t) =>
      assert (t.out + Zeros(usize - |t.out|))[..|t.out|] == t.out;
      Ok(t.out + Zeros(usize - |t.out|))
  }

  /** The offset just past the local header at o, its name and its extra field. */
  function BodyAt(data: seq<Byte>, o: nat): nat
  {
    o + 30 + ReadUshort(data, o + 26) + ReadUshort(data, o + 28)
  }

  /**
   * `readLocal` at o: the method at o+8, the name length at o+26 and the
   * extra length at o+28 (header bytes past the end read as 0), the name
   * after the 30 fixed bytes, which `readUTF8` cannot read when one of its
   * bytes is missing, the data after the extra field. In names-only mode
   * the entry records the sizes from the central header; otherwise its
   * content is the Payload of the data, which `new Uint8Array(data.buffer, o)`
   * refuses to start past the end.
   */
  function LocalAt(data: seq<Byte>, o: nat, csize: nat, usize: nat, onlyNames: bool): (r: Result<Entry, ZipError>)
    ensures r.Ok? ==> |r.value.name| == ReadUshort(data, o + 26) && (r.value.content.Sizes? <==> onlyNames)
    ensures r.Ok? && !onlyNames ==> BodyAt(data, o) <= |data|
    ensures r.Err? ==> r.error != NoEnd
  {
    var nlen := ReadUshort(data, o + 26);
    if nlen > 0 && o + 30 + nlen > |data| then Err(OutOfBounds)
    else
      var name := Ascii(data, o + 30, nlen);
      if onlyNames then Ok(Entry(name, Sizes(usize, csize)))
      else
        var body := BodyAt(data, o);
        if body > |data| then Err(OutOfBounds)
        else
          match Payload(data, body, ReadUshort(data, o + 8), csize, usize)
          case Err(e) => Err(e)
          case Ok(c) => Ok(Entry(name, c))
  }

  /**
   * The content of an entry whose data starts at body, by method cmpr:
   * method 0 is the csize bytes there (fewer when the data ends first, as
   * `ArrayBuffer.slice` stops at the end), method 8 is the inflated
   * buffer, and any other method fails.
   */
  function Payload(data: seq<Byte>, body: nat, cmpr: nat, csize: nat, usize: nat): (r: Result<Content, ZipError>)
    requires body <= |data|
    ensures r.Ok? <==> cmpr == 0 || (cmpr == 8 && Inflate(data[body..], usize, false).Ok?)
    ensures r.Ok? ==> r.value.Bytes?
    ensures r.Ok? ==> |r.value.bytes| == (if cmpr == 8 then usize else if body + csize <= |data| then csize else |data| - body)
    ensures r.Err? && cmpr != 8 ==> r.error == UnknownMethod(cmpr)
    ensures r.Err? && cmpr == 8 ==> r.error == BadDeflate(Inflate(data[body..], usize, false).error)
  {
    if cmpr == 0 then Ok(Bytes(data[body..if body + csize <= |data| then body + csize else |data|]))
    else if cmpr == 8 then
      match Unpacked(data[body..], usize)
      case Err(e) => Err(BadDeflate(e))
      case Ok(bytes) => Ok(Bytes(bytes))
    else Err(UnknownMethod(cmpr))
  }

  /** An entry that reads in full mode reads in names-only mode too, under the same name. */
  lemma LocalNames(data: seq<Byte>, o: nat, csize: nat, usize: nat)
    ensures var full := LocalAt(data, o, csize, usize, false);
      full.Ok? ==> LocalAt(data, o, csize, usize, true) == Ok(Entry(full.value.name, Sizes(usize, csize)))
  {
  }

  /** Names-only mode never looks at the method or the data: the entry is its name and the two sizes. */
  lemma NamesOnly(data: seq<Byte>, o: nat, csize: nat, usize: nat)
    ensures var r := LocalAt(data, o, csize, usize, true);
      var nlen := ReadUshort(data, o + 26);
      (r.Ok? <==> nlen == 0 || o + 30 + nlen <= |data|) &&
      (r.Ok? ==> r.value == Entry(Ascii(data, o + 30, ReadUshort(data, o + 26)), Sizes(usize, csize)))
  {
  }

  /** Method 0 yields exactly the csize bytes after the local header, when the data holds them. */
  lemma StoredEntry(data: seq<Byte>, o: nat, csize: nat, usize: nat)
    requires ReadUshort(data, o + 8) == 0
    requires BodyAt(data, o) + csize <= |data|
    ensures LocalAt(data, o, csize, usize, false).Ok?
    ensures var c := LocalAt(data, o, csize, usize, false).value.content;
      c.Bytes? && |c.bytes| == csize && forall k | 0 <= k < csize :: c.bytes[k] == data[BodyAt(data, o) + k]
  {
  }

  /** Method 8 yields a buffer of exactly usize bytes that starts with the inflated data. */
  lemma DeflatedEntry(data: seq<Byte>, o: nat, csize: nat, usize: nat)
    requires ReadUshort(data, o + 8) == 8
    requires BodyAt(data, o) <= |data|
    ensures var r := LocalAt(data, o, csize, usize, false);
      var t := Inflate(data[BodyAt(data, o)..], usize, false);
      (r.Ok? <==> t.Ok?) &&
      (t.Err? ==> r == Err(BadDeflate(t.error))) &&
      (r.Ok? ==> r.value.content.Bytes? && |r.value.content.bytes| == usize &&
                 r.value.content.bytes[..|t.value.out|] == t.value.out)
  {
  }

  /** Any method other than 0 and 8 is refused, whatever the data. */
  lemma OtherMethod(data: seq<Byte>, o: nat, csize: nat, usize: nat)
    requires ReadUshort(data, o + 8) != 0 && ReadUshort(data, o + 8) != 8
    requires BodyAt(data, o) <= |data|
    ensures LocalAt(data, o, csize, usize, false) == Err(UnknownMethod(ReadUshort(data, o + 8)))
  {
  }

  // ---------------------------------------------------------------------
  // The archive

  /** The entries of n central directory headers from o on, each with its local entry, in order. */
  function Entries(data: seq<Byte>, o: nat, n: nat, onlyNames: bool): (r: Result<seq<Entry>, ZipError>)
    ensures r.Ok? ==> |r.value| == n
    ensures r.Err? ==> r.error != NoEnd
    decreases n
  {
    if n == 0 then Ok([])
    else
      match CentralAt(data, o)
      case Err(e) => Err(e)
      case Ok(c) =>
        match LocalAt(data, c.roff, c.csize, c.usize, onlyNames)
        case Err(e) => Err(e)
        case Ok(entry) =>
          match Entries(data, c.next, n - 1, onlyNames)
          case Err(e) => Err(e)
          case Ok(rest) => Ok([entry] + rest)
  }

  /** `parse`: the End of Central Directory record, then the directory it describes. */
  function Archive(data: seq<Byte>, onlyNames: bool): (r: Result<seq<Entry>, ZipError>)
    ensures r == Err(NoEnd) <==> Eocd(data).None?
  {
    match Eocd(data)
    case None => Err(NoEnd)
    case Some(e) => Directory(data, e, onlyNames)
  }

  /** The directory of the end record at e: the entry count at e+8 and the offset of the first header at e+16. */
  function Directory(data: seq<Byte>, e: nat, onlyNames: bool): (r: Result<seq<Entry>, ZipError>)
    ensures r.Ok? ==> e + 20 <= |data| && |r.value| == ReadUshort(data, e + 8)
    ensures r.Err? ==> r.error != NoEnd
  {
    if e + 20 > |data| then Err(OutOfBounds)
    else Entries(data, ReadUint(data, e + 16), ReadUshort(data, e + 8), onlyNames)
  }

  /** An archive that reads has one entry per central directory header its end record counts. */
  lemma ArchiveCount(data: seq<Byte>, onlyNames: bool)
    ensures var r := Archive(data, onlyNames);
      r.Ok? ==> Eocd(data).Some? && Eocd(data).value + 20 <= |data| &&
                |r.value| == ReadUshort(data, Eocd(data).value + 8)
  {
  }

  /** Names-only mode and full mode agree on whether the directory reads and on the entry names, up to the first entry data that fails. */
  lemma NamesAgree(data: seq<Byte>, o: nat, n: nat)
    ensures var full := Entries(data, o, n, false);
      var names := Entries(data, o, n, true);
      full.Ok? ==> names.Ok? && forall i | 0 <= i < n :: names.value[i].name == full.value[i].name
    decreases n
  {
    if n > 0 {
      match CentralAt(data, o)
      case Err(_) =>
      case Ok(c) =>
        NamesAgree(data, c.next, n - 1);
        LocalNames(data, c.roff, c.csize, c.usize);
        var full := Entries(data, o, n, false);
        if full.Ok? {
          var names := Entries(data, o, n, true);
          var restNames := Entries(data, c.next, n - 1, true);
          var restFull := Entries(data, c.next, n - 1, false);
          assert names.value == [names.value[0]] + restNames.value;
          assert full.value == [full.value[0]] + restFull.value;
        }
    }
  }

  // ---------------------------------------------------------------------
  // The methods

  /** A prefix of entries already read, joined to what the rest yields. */
  function Joined(out: seq<Entry>, r: Result<seq<Entry>, ZipError>): Result<seq<Entry>, ZipError>
  {
    match r
    case Err(e) => Err(e)
    case Ok(rest) => Ok(out + rest)
  }

  lemma JoinedNone(r: Result<seq<Entry>, ZipError>)
    ensures Joined([], r) == r
  {
    if r.Ok? {
      assert [] + r.value == r.value;
    }
  }

  /** Reading one more header and its entry moves it from what is left to what is read. */
  lemma EntriesStep(data: seq<Byte>, o: nat, n: nat, onlyNames: bool, c: Central, entry: Entry, out: seq<Entry>)
    requires n > 0 && CentralAt(data, o) == Ok(c)
    requires LocalAt(data, c.roff, c.csize, c.usize, onlyNames) == Ok(entry)
    ensures Joined(out + [entry], Entries(data, c.next, n - 1, onlyNames)) == Joined(out, Entries(data, o, n, onlyNames))
  {
    match Entries(data, c.next, n - 1, onlyNames)
    case Err(_) =>
    case Ok(rest) =>
      assert (out + [entry]) + rest == out + ([entry] + rest);
  }

  /** The inflation of a method-8 entry into `new Uint8Array(usize)`, through `inflateRaw`. */
  method InflateEntry(U: Tables, file: seq<Byte>, usize: nat) returns (r: Result<seq<Byte>, Error>)
    requires U.Valid()
    ensures r == Unpacked(file, usize)
  {
    var buf := new Byte[usize](k => 0);
    ghost var before := buf[..];
    assert before == Zeros(usize);
    var res := InflateRaw(U, file, buf);
    if res.Err? {
      return Err(res.error);
    }
    UnpackedIs(file, usize, before, buf[..]);
    r := Ok(buf[..]);
  }

  /** A zeroed buffer that now holds the inflated output and then its own zeros is what Unpacked says. */
  lemma UnpackedIs(file: seq<Byte>, usize: nat, before: seq<Byte>, after: seq<Byte>)
    requires before == Zeros(usize) && Inflate(file, usize, false).Ok?
    requires var out := Inflate(file, usize, false).value.out;
      |out| <= usize && after == out + before[|out|..]
    ensures Unpacked(file, usize) == Ok(after)
  {
    var out := Inflate(file, usize, false).value.out;
    assert before[|out|..] == Zeros(usize - |out|);
  }

  /** `readLocal` as written: the header fields read in turn, then the dispatch on the method. */
  method ReadLocal(U: Tables, data: seq<Byte>, o: nat, csize: nat, usize: nat, onlyNames: bool)
    returns (r: Result<Entry, ZipError>)
    requires U.Valid()
    ensures r == LocalAt(data, o, csize, usize, onlyNames)
  {
    var cmpr := ReadUshort(data, o + 8);
    var nlen := ReadUshort(data, o + 26);
    if nlen > 0 && o + 30 + nlen > |data| {
      return Err(OutOfBounds);
    }
    var name := ReadAscii(data, o + 30, nlen);
    if onlyNames {
      return Ok(Entry(name, Sizes(usize, csize)));
    }
    var body := BodyAt(data, o);
    if body > |data| {
      return Err(OutOfBounds);
    }
    var content := ReadPayload(U, data, body, cmpr, csize, usize);
    if content.Err? {
      return Err(content.error);
    }
    r := Ok(Entry(name, content.value));
  }

  /** The dispatch of `readLocal` on the method: a slice, an inflation, or the throw. */
  method ReadPayload(U: Tables, data: seq<Byte>, body: nat, cmpr: nat, csize: nat, usize: nat)
    returns (r: Result<Content, ZipError>)
    requires U.Valid() && body <= |data|
    ensures r == Payload(data, body, cmpr, csize, usize)
  {
    if cmpr == 0 {
      var end := if body + csize <= |data| then body + csize else |data|;
      return Ok(Bytes(data[body..end]));
    }
    if cmpr == 8 {
      var bytes := InflateEntry(U, data[body..], usize);
      if bytes.Err? {
        return Err(BadDeflate(bytes.error));
      }
      return Ok(Bytes(bytes.value));
    }
    return Err(UnknownMethod(cmpr));
  }

  /** `parse` as written: the scan, the end record, then a loop over the central directory headers. */
  method Parse(U: Tables, data: seq<Byte>, onlyNames: bool) returns (r: Result<seq<Entry>, ZipError>)
    requires U.Valid()
    ensures r == Archive(data, onlyNames)
  {
    var eocd := FindEocd(data);
    if eocd.None? {
      return Err(NoEnd);
    }
    r := ReadDirectory(U, data, eocd.value, onlyNames);
  }

  /** The end record's fields as `parse` reads them, then its loop. */
  method ReadDirectory(U: Tables, data: seq<Byte>, e: nat, onlyNames: bool) returns (r: Result<seq<Entry>, ZipError>)
    requires U.Valid()
    ensures r == Directory(data, e, onlyNames)
  {
    if e + 20 > |data| {
      return Err(OutOfBounds);
    }
    var cnu := ReadUshort(data, e + 8);
    var coffs := ReadUint(data, e + 16);
    r := ReadEntries(U, data, coffs, cnu, onlyNames);
  }

  /** The loop of `parse` over the cnu central directory headers from o on, each read with its local entry. */
  method ReadEntries(U: Tables, data: seq<Byte>, o: nat, cnu: nat, onlyNames: bool)
    returns (r: Result<seq<Entry>, ZipError>)
    requires U.Valid()
    ensures r == Entries(data, o, cnu, onlyNames)
  {
    var out: seq<Entry> := [];
    var p, left := o, cnu;
    ghost var goal := Entries(data, o, cnu, onlyNames);
    JoinedNone(goal);
    while left > 0
      invariant Joined(out, Entries(data, p, left, onlyNames)) == goal
    {
      var c := CentralAt(data, p);
      if c.Err? {
        return Err(c.error);
      }
      var entry := ReadLocal(U, data, c.value.roff, c.value.csize, c.value.usize, onlyNames);
      if entry.Err? {
        return Err(entry.error);
      }
      EntriesStep(data, p, left, onlyNames, c.value, entry.value, out);
      out, p, left := out + [entry.value], c.value.next, left - 1;
    }
    assert out + [] == out;
    r := Ok(out);
  }
}
