/** ZIP archives: the log archiver's writer against the installer's reader. */
module Zip {
  import opened Bytes

  type Data = seq<byte>

  const MAX_ENTRY_UNCOMPRESSED := 64 * 1024 * 1024

  /** The foreign algorithms. `inflate` gives nothing for a stream that does not decompress. */
  datatype Codec = Codec(deflate: Data -> Data, inflate: Data -> Option<Data>, crc: Data -> nat)

  /** The one assumption on them. */
  ghost predicate Lossless(codec: Codec) {
    forall d: Data :: codec.inflate(codec.deflate(d)) == Some(d)
  }

  // ---------------------------------------------------------------- little-endian numbers

  /** `(n as u16).to_le_bytes()` */
  function Le16(n: nat): (r: Data)
    ensures |r| == 2
  {
    [n % 0x100, n / 0x100 % 0x100]
  }

  /** `(n as u32).to_le_bytes()` */
  function Le32(n: nat): (r: Data)
    ensures |r| == 4
  {
    [n % 0x100, n / 0x100 % 0x100, n / 0x1_0000 % 0x100, n / 0x100_0000 % 0x100]
  }

  function U16(b: Data): nat
    requires |b| == 2
  {
    b[0] as int + 0x100 * (b[1] as int)
  }

  function U32(b: Data): nat
    requires |b| == 4
  {
    b[0] as int + 0x100 * (b[1] as int) + 0x1_0000 * (b[2] as int) + 0x100_0000 * (b[3] as int)
  }

  lemma U16RoundTrip(n: nat)
    requires n < 0x1_0000
    ensures U16(Le16(n)) == n
  {
  }

  lemma U32RoundTrip(n: nat)
    requires n < 0x1_0000_0000
    ensures U32(Le32(n)) == n
  {
    var a, b, c := n / 0x100, n / 0x100 / 0x100, n / 0x100 / 0x100 / 0x100;
    DivisionTwice(n);
    assert n == 0x100 * a + n % 0x100 && a == 0x100 * b + a % 0x100 && b == 0x100 * c + b % 0x100;
    assert c < 0x100 && c % 0x100 == c;
    assert Le32(n) == [n % 0x100, a % 0x100, b % 0x100, c % 0x100];
  }

  lemma DivisionTwice(n: nat)
    ensures n / 0x100 / 0x100 == n / 0x1_0000 && n / 0x100 / 0x100 / 0x100 == n / 0x100_0000
  {
  }

  /** The `n` bytes of `z` at `i`. */
  function Field(z: Data, i: nat, n: nat): (r: Data)
    requires i + n <= |z|
    ensures |r| == n
  {
    z[i..i + n]
  }

  const LOCAL_SIGNATURE: Data := [0x50, 0x4b, 0x03, 0x04]
  const CENTRAL_SIGNATURE: Data := [0x50, 0x4b, 0x01, 0x02]
  const EOCD_SIGNATURE: Data := [0x50, 0x4b, 0x05, 0x06]

  // ---------------------------------------------------------------- the reader

  datatype ArchiveError = InvalidZip | UnsupportedCompression(code: nat)

  /** Names are the raw bytes; the reader's lossy decoding leaves well-formed ones as they are. */
  datatype CentralEntry = CentralEntry(name: Data, compression: nat, compressedSize: nat, localHeaderOffset: nat, isDir: bool)

  predicate EocdAt(z: Data, i: nat) {
    i + 22 <= |z| && Field(z, i, 4) == EOCD_SIGNATURE
  }

  /** The positions searched: at most a maximal comment from the end, and never the first 22 bytes
      of the file. */
  function SearchEnd(z: Data): nat
    requires |z| >= 22
  {
    |z| - Min(|z| - 22, 65535 + 22)
  }

  /** The last signature before `i` in the searched range. */
  function EocdBelow(z: Data, i: nat): (r: Option<nat>)
    requires |z| >= 22
    ensures r.Some? ==> SearchEnd(z) <= r.value < i && EocdAt(z, r.value)
    ensures r.Some? ==> forall j :: r.value < j < i ==> !EocdAt(z, j)
    ensures r.None? ==> forall j :: SearchEnd(z) <= j < i ==> !EocdAt(z, j)
    decreases i
  {
    if i <= SearchEnd(z) then None else if EocdAt(z, i - 1) then Some(i - 1) else EocdBelow(z, i - 1)
  }

  function LastEocd(z: Data): Option<nat> {
    if |z| < 22 then None else EocdBelow(z, |z| - 21)
  }

  /** `find_eocd`: the backward search. */
  method FindEocd(z: Data) returns (r: Option<nat>)
    ensures r == LastEocd(z)
  {
    hide SearchEnd;
    if |z| < 22 {
      return None;
    }
    var end := SearchEnd(z);
    var i: nat := |z| - 21;
    while i > end
      invariant i <= |z| - 21
      invariant EocdBelow(z, i) == LastEocd(z)
    {
      i := i - 1;
      if Field(z, i, 4) == EOCD_SIGNATURE {
        return Some(i);
      }
    }
    return None;
  }

  lemma LastEocdIs(z: Data, pos: nat)
    requires |z| >= 22 && SearchEnd(z) <= pos && EocdAt(z, pos) && forall j :: pos < j ==> !EocdAt(z, j)
    ensures LastEocd(z) == Some(pos)
  {
  }

  /** One entry of the central directory at `cursor` and the position behind it. */
  function EntryAt(z: Data, cursor: nat): (r: Result<(CentralEntry, nat), ArchiveError>)
    requires cursor + 46 <= |z|
  {
    var nameLen := U16(Field(z, cursor + 28, 2));
    var nameEnd := cursor + 46 + nameLen;
    if nameEnd > |z| then Err(InvalidZip)
    else
      var name := z[cursor + 46..nameEnd];
      var isDir := name != [] && (name[|name| - 1] == 0x2F || name[|name| - 1] == 0x5C);
      Ok((CentralEntry(name, U16(Field(z, cursor + 10, 2)), U32(Field(z, cursor + 20, 4)), U32(Field(z, cursor + 42, 4)), isDir),
          nameEnd + U16(Field(z, cursor + 30, 2)) + U16(Field(z, cursor + 32, 2))))
  }

  /** Up to `count` entries from `cursor` on; the list ends early where no entry starts. */
  function EntriesFrom(z: Data, cursor: nat, count: nat): Result<seq<CentralEntry>, ArchiveError>
    decreases count
  {
    if count == 0 || cursor + 46 > |z| || Field(z, cursor, 4) != CENTRAL_SIGNATURE then Ok([])
    else
      match EntryAt(z, cursor)
      case Err(error) => Err(error)
      case Ok((entry, next)) =>
        match EntriesFrom(z, next, count - 1)
        case Err(error) => Err(error)
        case Ok(more) => Ok([entry] + more)
  }

  /** The entries of an archive. */
  function Listing(z: Data): Result<seq<CentralEntry>, ArchiveError> {
    match LastEocd(z)
    case None => Err(InvalidZip)
    case Some(i) => EntriesFrom(z, U32(Field(z, i + 16, 4)), U16(Field(z, i + 10, 2)))
  }

  /** `parse_central_directory` */
  method ParseCentralDirectory(z: Data) returns (r: Result<seq<CentralEntry>, ArchiveError>)
    ensures r == Listing(z)
  {
    hide U16, U32, EntryAt, SearchEnd, EntriesFrom, LastEocd;
    var pos := FindEocd(z);
    if pos.None? {
      return Err(InvalidZip);
    }
    EocdLies(z);
    var totalRecords := U16(Field(z, pos.value + 10, 2));
    var cursor: nat := U32(Field(z, pos.value + 16, 4));
    var entries := [];
    ghost var all := EntriesFrom(z, cursor, totalRecords);
    var left: nat := totalRecords;
    NothingBehind(all);
    while left > 0
      invariant left <= totalRecords
      invariant all == Behind(entries, EntriesFrom(z, cursor, left))
    {
      if cursor + 46 > |z| {
        break;
      }
      if Field(z, cursor, 4) != CENTRAL_SIGNATURE {
        break;
      }
      EntriesStep(z, cursor, left, entries);
      var entry := EntryAt(z, cursor);
      if entry.Err? {
        return Err(entry.error);
      }
      entries := entries + [entry.value.0];
      cursor := entry.value.1;
      left := left - 1;
    }
    EntriesEnd(z, cursor, left);
    assert entries + [] == entries;
    r := Ok(entries);
  }

  lemma EocdLies(z: Data)
    ensures LastEocd(z).Some? ==> LastEocd(z).value + 22 <= |z|
  {
  }

  lemma EntriesStep(z: Data, cursor: nat, left: nat, entries: seq<CentralEntry>)
    requires left > 0 && cursor + 46 <= |z| && Field(z, cursor, 4) == CENTRAL_SIGNATURE
    ensures match EntryAt(z, cursor)
            case Err(error) => EntriesFrom(z, cursor, left) == Err(error)
            case Ok((entry, next)) =>
              Behind(entries, EntriesFrom(z, cursor, left)) == Behind(entries + [entry], EntriesFrom(z, next, left - 1))
  {
    hide EntryAt;
    if EntryAt(z, cursor).Ok? {
      var (entry, next) := EntryAt(z, cursor).value;
      var later := EntriesFrom(z, next, left - 1);
      if later.Ok? {
        assert entries + ([entry] + later.value) == entries + [entry] + later.value;
      }
    }
  }

  lemma EntriesEnd(z: Data, cursor: nat, left: nat)
    requires left == 0 || cursor + 46 > |z| || Field(z, cursor, 4) != CENTRAL_SIGNATURE
    ensures EntriesFrom(z, cursor, left) == Ok([])
  {
  }

  /** `read_entry_data` */
  function ReadEntryData(z: Data, entry: CentralEntry, codec: Codec): Result<Data, ArchiveError> {
    var loc := entry.localHeaderOffset;
    if loc + 30 > |z| || Field(z, loc, 4) != LOCAL_SIGNATURE then Err(InvalidZip)
    else
      var start := loc + 30 + U16(Field(z, loc + 26, 2)) + U16(Field(z, loc + 28, 2));
      var end := start + entry.compressedSize;
      if end > |z| then Err(InvalidZip)
      else Unpacked(z[start..end], entry.compression, codec)
  }

  /** Stored and deflated data, within the limit on one entry. */
  function Unpacked(raw: Data, compression: nat, codec: Codec): Result<Data, ArchiveError> {
    if compression == 0 then (if |raw| > MAX_ENTRY_UNCOMPRESSED then Err(InvalidZip) else Ok(raw))
    else if compression == 8 then
      match codec.inflate(raw)
      case None => Err(InvalidZip)
      case Some(d) => if |d| > MAX_ENTRY_UNCOMPRESSED then Err(InvalidZip) else Ok(d)
    else Err(UnsupportedCompression(compression))
  }

  // ---------------------------------------------------------------- archives by the standard

  /** One file as sections 4.3.7 and 4.3.12 of the PKWARE APPNOTE describe it. `local` and `central`
      hold the header fields the reader does not look at, as raw bytes in their places. */
  datatype File = File(
    name: Data, compression: nat, raw: Data,
    localName: Data, localExtra: Data, extra: Data, comment: Data,
    local: Data, made: Data, stamped: Data, size: Data, attributes: Data)

  predicate IsFile(f: File) {
    && |f.name| < 0x1_0000 && |f.localName| < 0x1_0000 && |f.localExtra| < 0x1_0000
    && |f.extra| < 0x1_0000 && |f.comment| < 0x1_0000
    && |f.raw| < 0x1_0000_0000 && f.compression < 0x1_0000
    && |f.local| == 22 && |f.made| == 6 && |f.stamped| == 8 && |f.size| == 4 && |f.attributes| == 8
  }

  function LocalHead(f: File): Data {
    LOCAL_SIGNATURE + f.local + Le16(|f.localName|) + Le16(|f.localExtra|)
  }

  function LocalRecord(f: File): Data {
    LocalHead(f) + f.localName + f.localExtra + f.raw
  }

  function CentralHead(f: File, offset: nat): Data {
    CENTRAL_SIGNATURE + f.made + Le16(f.compression) + f.stamped + Le32(|f.raw|) + f.size
    + Le16(|f.name|) + Le16(|f.extra|) + Le16(|f.comment|) + f.attributes + Le32(offset)
  }

  function CentralRecord(f: File, offset: nat): Data {
    CentralHead(f, offset) + f.name + f.extra + f.comment
  }

  function Locals(files: seq<File>): Data
    decreases |files|
  {
    if files == [] then [] else Locals(files[..|files| - 1]) + LocalRecord(files[|files| - 1])
  }

  function Centrals(files: seq<File>, offset: nat): Data
    decreases |files|
  {
    if files == [] then [] else CentralRecord(files[0], offset) + Centrals(files[1..], offset + |LocalRecord(files[0])|)
  }

  /** Section 4.3.16. `disks` and `extent` are the fields the reader does not look at. */
  function Eocd(count: nat, cdOffset: nat, disks: Data, extent: Data, comment: Data): Data {
    EOCD_SIGNATURE + disks + Le16(count) + extent + Le32(cdOffset) + Le16(|comment|) + comment
  }

  datatype Trailer = Trailer(disks: Data, extent: Data, comment: Data)

  function Archive(files: seq<File>, t: Trailer): Data {
    Locals(files) + Centrals(files, 0) + Eocd(|files|, |Locals(files)|, t.disks, t.extent, t.comment)
  }

  predicate IsArchive(files: seq<File>, t: Trailer) {
    && files != [] && |files| < 0x1_0000 && (forall k :: 0 <= k < |files| ==> IsFile(files[k]))
    && |Locals(files)| < 0x1_0000_0000
    && |t.disks| == 6 && |t.extent| == 4 && |t.comment| < 0x1_0000
  }

  /** What the reader makes of a file of the archive. */
  function EntryOf(f: File, offset: nat): CentralEntry {
    CentralEntry(f.name, f.compression, |f.raw|, offset,
                 f.name != [] && (f.name[|f.name| - 1] == 0x2F || f.name[|f.name| - 1] == 0x5C))
  }

  function EntriesOf(files: seq<File>, offset: nat): (r: seq<CentralEntry>)
    ensures |r| == |files|
    decreases |files|
  {
    if files == [] then [] else [EntryOf(files[0], offset)] + EntriesOf(files[1..], offset + |LocalRecord(files[0])|)
  }

  /** `part` lies in `z` at `i`. */
  predicate LiesAt(z: Data, i: nat, part: Data) {
    i + |part| <= |z| && z[i..i + |part|] == part
  }

  lemma LiesWithin(z: Data, i: nat, a: Data, b: Data, c: Data)
    requires LiesAt(z, i, a + b + c)
    ensures LiesAt(z, i + |a|, b)
  {
    var whole := a + b + c;
    assert whole[|a|..|a| + |b|] == b;
    assert forall k :: 0 <= k < |b| ==> z[i + |a| + k] == z[i..i + |whole|][|a| + k] == b[k];
  }

  lemma FieldWithin(z: Data, i: nat, a: Data, b: Data, c: Data)
    requires LiesAt(z, i, a + b + c)
    ensures i + |a| + |b| <= |z| && Field(z, i + |a|, |b|) == b
  {
    LiesWithin(z, i, a, b, c);
  }

  /** Every header field the reader looks at, read back. */
  lemma CentralFields(z: Data, cursor: nat, f: File, offset: nat)
    requires IsFile(f) && offset < 0x1_0000_0000 && LiesAt(z, cursor, CentralRecord(f, offset))
    ensures |CentralHead(f, offset)| == 46 && cursor + 46 <= |z|
    ensures Field(z, cursor, 4) == CENTRAL_SIGNATURE
    ensures EntryAt(z, cursor) == Ok((EntryOf(f, offset), cursor + |CentralRecord(f, offset)|))
  {
    hide U16, U32, Le16, Le32;
    var h := CentralHead(f, offset);
    assert |h| == 46;
    CentralLengths(z, cursor, f, offset);
    CentralNumbers(z, cursor, f, offset);
    FieldWithin(z, cursor, h, f.name, f.extra + f.comment) by { assert h + f.name + (f.extra + f.comment) == CentralRecord(f, offset); }
    assert z[cursor + 46..cursor + 46 + |f.name|] == f.name;
  }

  lemma HeadWithin(z: Data, cursor: nat, f: File, offset: nat, a: Data, b: Data, c: Data)
    requires LiesAt(z, cursor, CentralRecord(f, offset)) && CentralHead(f, offset) == a + b + c
    ensures cursor + |a| + |b| <= |z| && Field(z, cursor + |a|, |b|) == b
  {
    FieldWithin(z, cursor, a, b, c + f.name + f.extra + f.comment) by {
      assert a + b + (c + f.name + f.extra + f.comment) == CentralRecord(f, offset);
    }
  }

  lemma CentralLengths(z: Data, cursor: nat, f: File, offset: nat)
    requires IsFile(f) && LiesAt(z, cursor, CentralRecord(f, offset))
    ensures cursor + 46 <= |z|
    ensures U16(Field(z, cursor + 28, 2)) == |f.name| && U16(Field(z, cursor + 30, 2)) == |f.extra|
    ensures U16(Field(z, cursor + 32, 2)) == |f.comment|
  {
    hide U16, U32, Le16, Le32, CentralRecord, LiesAt;
    var a := CENTRAL_SIGNATURE + f.made + Le16(f.compression) + f.stamped + Le32(|f.raw|) + f.size;
    var n, x, m := Le16(|f.name|), Le16(|f.extra|), Le16(|f.comment|);
    var c := f.attributes + Le32(offset);
    HeadWithin(z, cursor, f, offset, a, n, x + m + c) by { assert a + n + (x + m + c) == CentralHead(f, offset); }
    HeadWithin(z, cursor, f, offset, a + n, x, m + c) by { assert a + n + x + (m + c) == CentralHead(f, offset); }
    HeadWithin(z, cursor, f, offset, a + n + x, m, c) by { assert a + n + x + m + c == CentralHead(f, offset); }
    HeadWithin(z, cursor, f, offset, a + n + x + m, c, []) by { assert a + n + x + m + c + [] == CentralHead(f, offset); }
    U16RoundTrip(|f.name|);
    U16RoundTrip(|f.extra|);
    U16RoundTrip(|f.comment|);
  }

  lemma CentralNumbers(z: Data, cursor: nat, f: File, offset: nat)
    requires IsFile(f) && offset < 0x1_0000_0000 && LiesAt(z, cursor, CentralRecord(f, offset))
    ensures cursor + 46 <= |z|
    ensures Field(z, cursor, 4) == CENTRAL_SIGNATURE
    ensures U16(Field(z, cursor + 10, 2)) == f.compression
    ensures U32(Field(z, cursor + 20, 4)) == |f.raw| && U32(Field(z, cursor + 42, 4)) == offset
  {
    hide U16, U32, Le16, Le32, CentralRecord, LiesAt;
    var s, p, q, o := CENTRAL_SIGNATURE + f.made, Le16(f.compression), Le32(|f.raw|), Le32(offset);
    var c := f.size + Le16(|f.name|) + Le16(|f.extra|) + Le16(|f.comment|) + f.attributes;
    HeadWithin(z, cursor, f, offset, [], CENTRAL_SIGNATURE, f.made + p + f.stamped + q + c + o) by {
      assert [] + CENTRAL_SIGNATURE + (f.made + p + f.stamped + q + c + o) == CentralHead(f, offset);
    }
    HeadWithin(z, cursor, f, offset, s, p, f.stamped + q + c + o) by { assert s + p + (f.stamped + q + c + o) == CentralHead(f, offset); }
    HeadWithin(z, cursor, f, offset, s + p + f.stamped, q, c + o) by { assert s + p + f.stamped + q + (c + o) == CentralHead(f, offset); }
    HeadWithin(z, cursor, f, offset, s + p + f.stamped + q + c, o, []) by { assert s + p + f.stamped + q + c + o + [] == CentralHead(f, offset); }
    U16RoundTrip(f.compression);
    U32RoundTrip(|f.raw|);
    U32RoundTrip(offset);
  }

  /** The central directory is read back entry by entry. */
  lemma {:induction false} CentralsAreRead(z: Data, cursor: nat, files: seq<File>, offset: nat)
    requires forall k :: 0 <= k < |files| ==> IsFile(files[k])
    requires offset + |Locals(files)| < 0x1_0000_0000 && LiesAt(z, cursor, Centrals(files, offset))
    ensures EntriesFrom(z, cursor, |files|) == Ok(EntriesOf(files, offset))
    decreases |files|
  {
    hide EntryAt, CentralRecord, LocalRecord, Locals, IsFile, EntryOf, LiesAt;
    if files != [] {
      var f, rest := files[0], files[1..];
      var next := offset + |LocalRecord(f)|;
      LocalsFirst(files);
      LiesWithin(z, cursor, [], CentralRecord(f, offset), Centrals(rest, next)) by {
        assert [] + CentralRecord(f, offset) + Centrals(rest, next) == Centrals(files, offset);
      }
      LiesWithin(z, cursor, CentralRecord(f, offset), Centrals(rest, next), []) by {
        assert CentralRecord(f, offset) + Centrals(rest, next) + [] == Centrals(files, offset);
      }
      CentralFields(z, cursor, f, offset);
      CentralsAreRead(z, cursor + |CentralRecord(f, offset)|, rest, next);
    }
  }

  /** A directory that ends before its count is listed as far as it goes. */
  lemma {:induction false} ShortDirectoryIsRead(z: Data, cursor: nat, files: seq<File>, offset: nat, count: nat)
    requires forall k :: 0 <= k < |files| ==> IsFile(files[k])
    requires offset + |Locals(files)| < 0x1_0000_0000 && LiesAt(z, cursor, Centrals(files, offset)) && |files| <= count
    requires var end := cursor + |Centrals(files, offset)|; end + 46 > |z| || Field(z, end, 4) != CENTRAL_SIGNATURE
    ensures EntriesFrom(z, cursor, count) == Ok(EntriesOf(files, offset))
    decreases |files|
  {
    hide EntryAt, CentralRecord, LocalRecord, Locals, IsFile, EntryOf, LiesAt;
    if files != [] {
      var f, rest := files[0], files[1..];
      var next := offset + |LocalRecord(f)|;
      LocalsFirst(files);
      LiesWithin(z, cursor, [], CentralRecord(f, offset), Centrals(rest, next)) by {
        assert [] + CentralRecord(f, offset) + Centrals(rest, next) == Centrals(files, offset);
      }
      LiesWithin(z, cursor, CentralRecord(f, offset), Centrals(rest, next), []) by {
        assert CentralRecord(f, offset) + Centrals(rest, next) + [] == Centrals(files, offset);
      }
      CentralFields(z, cursor, f, offset);
      ShortDirectoryIsRead(z, cursor + |CentralRecord(f, offset)|, rest, next, count - 1);
    }
  }

  /** A name that goes beyond the file fails the whole listing. */
  lemma NameBeyondEnd(z: Data, cursor: nat, count: nat)
    requires count > 0 && cursor + 46 <= |z| && Field(z, cursor, 4) == CENTRAL_SIGNATURE
    requires cursor + 46 + U16(Field(z, cursor + 28, 2)) > |z|
    ensures EntriesFrom(z, cursor, count) == Err(InvalidZip)
  {
    hide U16, U32;
  }

  /** An entry whose local header is not where it should be, or whose data goes beyond the file. */
  lemma BadEntryIsRefused(z: Data, e: CentralEntry, codec: Codec)
    requires var i := e.localHeaderOffset;
             || i + 30 > |z| || Field(z, i, 4) != LOCAL_SIGNATURE
             || i + 30 + U16(Field(z, i + 26, 2)) + U16(Field(z, i + 28, 2)) + e.compressedSize > |z|
    ensures ReadEntryData(z, e, codec) == Err(InvalidZip)
  {
    hide U16;
  }

  /** The end record is looked for in the last 65557 bytes, but never in the first 22. */
  lemma SearchedRange(z: Data, pos: nat)
    requires LastEocd(z) == Some(pos)
    ensures pos >= 22 && |z| <= pos + 65557 && pos + 22 <= |z|
    ensures forall j :: j > pos ==> !EocdAt(z, j)
  {
  }

  lemma {:induction false} LocalsFirst(files: seq<File>)
    requires files != []
    ensures Locals(files) == LocalRecord(files[0]) + Locals(files[1..])
    decreases |files|
  {
    hide LocalRecord;
    if |files| == 1 {
      assert files[..0] == [] && files[1..] == [];
    } else {
      var front := files[..|files| - 1];
      LocalsFirst(front);
      var rest := files[1..];
      var last := LocalRecord(files[|files| - 1]);
      assert rest[..|rest| - 1] == front[1..] && rest[|rest| - 1] == files[|files| - 1] && front[0] == files[0];
      assert Locals(rest) == Locals(front[1..]) + last;
      assert Locals(files) == Locals(front) + last;
      hide Locals;
    }
  }

  /** Where the record of file `k` starts. */
  function OffsetOf(files: seq<File>, k: nat): nat
    requires k <= |files|
  {
    |Locals(files[..k])|
  }

  lemma {:induction false} EntryHasOffset(files: seq<File>, offset: nat, k: nat)
    requires k < |files|
    ensures EntriesOf(files, offset)[k] == EntryOf(files[k], offset + OffsetOf(files, k))
    decreases |files|
  {
    hide LocalRecord, EntryOf;
    if k == 0 {
      assert files[..0] == [];
    } else {
      var next := offset + |LocalRecord(files[0])|;
      EntryHasOffset(files[1..], next, k - 1);
      LocalsFirst(files[..k]);
      assert files[..k][1..] == files[1..][..k - 1];
    }
  }

  lemma {:induction false} LocalLiesAtOffset(files: seq<File>, k: nat)
    requires k < |files|
    ensures LiesAt(Locals(files), OffsetOf(files, k), LocalRecord(files[k]))
    decreases |files|
  {
    hide LocalRecord;
    var front := files[..|files| - 1];
    if k < |files| - 1 {
      LocalLiesAtOffset(front, k);
      assert front[..k] == files[..k];
      var i, r := OffsetOf(files, k), LocalRecord(files[k]);
      assert Locals(files)[i..i + |r|] == Locals(front)[i..i + |r|];
    } else {
      assert files[..k] == front;
    }
  }

  /** The data of a file is found behind its local header, whatever name and extra field that has. */
  lemma LocalIsRead(z: Data, f: File, offset: nat, codec: Codec)
    requires IsFile(f) && LiesAt(z, offset, LocalRecord(f))
    ensures ReadEntryData(z, EntryOf(f, offset), codec) == Unpacked(f.raw, f.compression, codec)
  {
    hide U16, Le16, LiesAt, Unpacked;
    var a, n, x := LOCAL_SIGNATURE + f.local, Le16(|f.localName|), Le16(|f.localExtra|);
    var data := f.localName + f.localExtra + f.raw;
    assert LocalRecord(f) == a + n + x + data;
    FieldWithin(z, offset, [], LOCAL_SIGNATURE, f.local + n + x + data) by {
      assert [] + LOCAL_SIGNATURE + (f.local + n + x + data) == LocalRecord(f);
    }
    FieldWithin(z, offset, a, n, x + data) by { assert a + n + (x + data) == LocalRecord(f); }
    FieldWithin(z, offset, a + n, x, data) by { assert a + n + x + data == LocalRecord(f); }
    var front := a + n + x + f.localName + f.localExtra;
    FieldWithin(z, offset, front, f.raw, []) by { assert front + f.raw + [] == LocalRecord(f); }
    U16RoundTrip(|f.localName|);
    U16RoundTrip(|f.localExtra|);
    assert Field(z, offset + |front|, |f.raw|) == z[offset + |front|..offset + |front| + |f.raw|];
  }

  /** The end record is in the searched range and its numbers are read back. */
  lemma EocdIsRead(files: seq<File>, t: Trailer)
    requires IsArchive(files, t)
    ensures var z, pos := Archive(files, t), |Locals(files)| + |Centrals(files, 0)|;
            && |z| == pos + 22 + |t.comment| && SearchEnd(z) <= pos && EocdAt(z, pos)
            && U16(Field(z, pos + 10, 2)) == |files| && U32(Field(z, pos + 16, 4)) == |Locals(files)|
  {
    hide U16, U32, Le16, Le32, Locals, Centrals, IsFile;
    var z, front := Archive(files, t), Locals(files) + Centrals(files, 0);
    var end := Eocd(|files|, |Locals(files)|, t.disks, t.extent, t.comment);
    LiesWithin(z, 0, front, end, []) by { assert front + end + [] == z && z[0..|z|] == z; }
    EndFields(z, |front|, |files|, |Locals(files)|, t);
    FirstRecordIsLong(files);
  }

  lemma EndFields(z: Data, pos: nat, count: nat, offset: nat, t: Trailer)
    requires LiesAt(z, pos, Eocd(count, offset, t.disks, t.extent, t.comment)) && |t.disks| == 6 && |t.extent| == 4
    requires count < 0x1_0000 && offset < 0x1_0000_0000
    ensures |Eocd(count, offset, t.disks, t.extent, t.comment)| == 22 + |t.comment| && EocdAt(z, pos)
    ensures U16(Field(z, pos + 10, 2)) == count && U32(Field(z, pos + 16, 4)) == offset
  {
    hide U16, U32, Le16, Le32, LiesAt;
    var end := Eocd(count, offset, t.disks, t.extent, t.comment);
    var s, n, o := EOCD_SIGNATURE + t.disks, Le16(count), Le32(offset);
    var c := Le16(|t.comment|) + t.comment;
    FieldWithin(z, pos, [], EOCD_SIGNATURE, t.disks + n + t.extent + o + c) by {
      assert [] + EOCD_SIGNATURE + (t.disks + n + t.extent + o + c) == end;
    }
    FieldWithin(z, pos, s, n, t.extent + o + c) by { assert s + n + (t.extent + o + c) == end; }
    FieldWithin(z, pos, s + n + t.extent, o, c) by { assert s + n + t.extent + o + c == end; }
    FieldWithin(z, pos, s + n + t.extent + o, c, []) by { assert s + n + t.extent + o + c + [] == end; }
    U16RoundTrip(count);
    U32RoundTrip(offset);
  }

  lemma FirstRecordIsLong(files: seq<File>)
    requires files != [] && IsFile(files[0])
    ensures |Locals(files)| >= 30
  {
    LocalsFirst(files);
  }

  lemma DirectoryIsRead(files: seq<File>, t: Trailer)
    requires IsArchive(files, t)
    requires forall j :: |Locals(files)| + |Centrals(files, 0)| < j ==> !EocdAt(Archive(files, t), j)
    ensures Listing(Archive(files, t)) == Ok(EntriesOf(files, 0))
  {
    hide U16, U32, Locals, Centrals, IsFile, EntriesFrom, Eocd, EntryOf, SearchEnd, LiesAt;
    var z, locals, cd := Archive(files, t), Locals(files), Centrals(files, 0);
    var end := Eocd(|files|, |locals|, t.disks, t.extent, t.comment);
    EocdIsRead(files, t);
    LastEocdIs(z, |locals| + |cd|);
    WholeLies(z);
    LiesWithin(z, 0, locals, cd, end);
    CentralsAreRead(z, |locals|, files, 0);
  }

  lemma WholeLies(z: Data)
    ensures LiesAt(z, 0, z)
  {
    assert z[0..|z|] == z;
  }

  /** Stored data is returned as it is, deflated data inflated, both within the limit on one entry; other
      methods are refused by their number. */
  predicate IsReadAs(f: File, codec: Codec, r: Result<Data, ArchiveError>) {
    && (f.compression == 0 ==> r == if |f.raw| <= 64 * 1024 * 1024 then Ok(f.raw) else Err(InvalidZip))
    && (f.compression == 8 && codec.inflate(f.raw).None? ==> r == Err(InvalidZip))
    && (f.compression == 8 && codec.inflate(f.raw).Some? ==>
          r == if |codec.inflate(f.raw).value| <= 64 * 1024 * 1024 then Ok(codec.inflate(f.raw).value) else Err(InvalidZip))
    && (f.compression != 0 && f.compression != 8 ==> r == Err(UnsupportedCompression(f.compression)))
  }

  lemma UnpackedIsRead(f: File, codec: Codec)
    ensures IsReadAs(f, codec, Unpacked(f.raw, f.compression, codec))
  {
  }

  /** The entry of a file: its name, method, size and place, and a directory exactly if the name ends with
      a slash or a backslash. */
  lemma EntryIsOfFile(f: File, offset: nat)
    ensures var e := EntryOf(f, offset);
            && e.name == f.name && e.compression == f.compression && e.compressedSize == |f.raw| && e.localHeaderOffset == offset
            && (e.isDir <==> exists front :: f.name == front + [0x2F] || f.name == front + [0x5C])
  {
    if f.name != [] {
      var front, last := f.name[..|f.name| - 1], f.name[|f.name| - 1];
      assert f.name == front + [last];
    }
  }

  lemma LiesInFront(front: Data, rest: Data, i: nat, part: Data)
    requires LiesAt(front, i, part)
    ensures LiesAt(front + rest, i, part)
  {
    assert (front + rest)[i..i + |part|] == front[i..i + |part|];
  }

  lemma FileIsRead(files: seq<File>, t: Trailer, codec: Codec, k: nat)
    requires IsArchive(files, t) && k < |files|
    ensures ReadEntryData(Archive(files, t), EntriesOf(files, 0)[k], codec) == Unpacked(files[k].raw, files[k].compression, codec)
  {
    hide Locals, Centrals, ReadEntryData, Eocd, EntryOf, EntriesOf, LocalRecord, LiesAt, IsFile, Unpacked, OffsetOf;
    EntryHasOffset(files, 0, k);
    LocalLiesAtOffset(files, k);
    var i, end := OffsetOf(files, k), Eocd(|files|, |Locals(files)|, t.disks, t.extent, t.comment);
    LiesInFront(Locals(files), Centrals(files, 0) + end, i, LocalRecord(files[k]));
    assert Locals(files) + (Centrals(files, 0) + end) == Archive(files, t);
    LocalIsRead(Archive(files, t), files[k], i, codec);
  }

  /** Any archive written by the standard whose comment hides no second end record is read back: the
      entries in order, and the data of each. */
  lemma ArchiveIsRead(files: seq<File>, t: Trailer, codec: Codec)
    requires IsArchive(files, t)
    requires forall j :: |Locals(files)| + |Centrals(files, 0)| < j ==> !EocdAt(Archive(files, t), j)
    ensures var z := Archive(files, t);
            && Listing(z) == Ok(EntriesOf(files, 0))
            && forall k :: 0 <= k < |files| ==> IsReadAs(files[k], codec, ReadEntryData(z, EntriesOf(files, 0)[k], codec))
  {
    hide Locals, Centrals, Archive, ReadEntryData, Listing, IsFile, EocdAt, Unpacked;
    DirectoryIsRead(files, t);
    forall k | 0 <= k < |files|
      ensures IsReadAs(files[k], codec, ReadEntryData(Archive(files, t), EntriesOf(files, 0)[k], codec))
    {
      FileIsRead(files, t, codec, k);
      UnpackedIsRead(files[k], codec);
    }
  }

  /** An archive with nothing in it: the search never looks at the first 22 bytes of a file, so its
      end record is not found, although section 4.3.6 of the APPNOTE allows it. */
  lemma EmptyArchiveIsRejected(t: Trailer)
    requires |t.disks| == 6 && |t.extent| == 4 && |t.comment| < 0x1_0000
    requires forall j :: 0 < j ==> !EocdAt(Archive([], t), j)
    ensures Listing(Archive([], t)) == Err(InvalidZip)
  {
    hide EocdAt;
    EocdLength(0, 0, t);
    assert |Archive([], t)| == 22 + |t.comment|;
  }

  /** The shortest archive there is, twenty-two bytes, is one of them. */
  lemma ShortestArchiveIsRejected()
    ensures var t := Trailer(Le16(0) + Le16(0) + Le16(0), Le32(0), []);
            |Archive([], t)| == 22 && Listing(Archive([], t)) == Err(InvalidZip)
  {
    var t := Trailer(Le16(0) + Le16(0) + Le16(0), Le32(0), []);
    hide Le16, Le32, Listing;
    EocdLength(0, 0, t);
    EmptyArchiveIsRejected(t);
  }

  // ---------------------------------------------------------------- the writer

  /** The one file in an archive of the logger. */
  function LogFile(name: Data, data: Data, codec: Codec): File {
    var raw := codec.deflate(data);
    var crc := Le32(codec.crc(data));
    File(name, 8, raw, name, [], [], [],
         Le16(20) + Le16(0) + Le16(8) + Le16(0) + Le16(0) + crc + Le32(|raw|) + Le32(|data|),
         Le16(20) + Le16(20) + Le16(0),
         Le16(0) + Le16(0) + crc,
         Le32(|data|),
         Le16(0) + Le16(0) + Le32(0))
  }

  function LogTrailer(name: Data): Trailer {
    Trailer(Le16(0) + Le16(0) + Le16(1), Le32(46 + |name|), [])
  }

  method AppendLocalRecord(name: Data, data: Data, codec: Codec, crc: Data, compressed: Data) returns (zip: Data)
    requires crc == Le32(codec.crc(data)) && compressed == codec.deflate(data)
    ensures zip == LocalRecord(LogFile(name, data, codec))
  {
    hide Le16, Le32, LocalRecord, LogFile;
    zip := LOCAL_SIGNATURE;
    zip := zip + Le16(20);
    zip := zip + Le16(0);
    zip := zip + Le16(8);
    zip := zip + Le16(0);
    zip := zip + Le16(0);
    zip := zip + crc;
    zip := zip + Le32(|compressed|);
    zip := zip + Le32(|data|);
    zip := zip + Le16(|name|);
    zip := zip + Le16(0);
    zip := zip + name;
    zip := zip + compressed;
    LocalRecordOf(LogFile(name, data, codec), zip, crc, compressed, name, data, codec);
  }

  method AppendCentralRecord(name: Data, data: Data, codec: Codec, crc: Data, compressed: Data) returns (cd: Data)
    requires crc == Le32(codec.crc(data)) && compressed == codec.deflate(data)
    ensures cd == CentralRecord(LogFile(name, data, codec), 0)
  {
    hide Le16, Le32, CentralRecord, LogFile;
    cd := CENTRAL_SIGNATURE;
    cd := cd + Le16(20);
    cd := cd + Le16(20);
    cd := cd + Le16(0);
    cd := cd + Le16(8);
    cd := cd + Le16(0);
    cd := cd + Le16(0);
    cd := cd + crc;
    cd := cd + Le32(|compressed|);
    cd := cd + Le32(|data|);
    cd := cd + Le16(|name|);
    cd := cd + Le16(0);
    cd := cd + Le16(0);
    cd := cd + Le16(0);
    cd := cd + Le16(0);
    cd := cd + Le32(0);
    cd := cd + Le32(0);
    cd := cd + name;
    CentralRecordOf(LogFile(name, data, codec), cd, crc, compressed, name, data, codec);
  }

  /** `create_zip_archive`; the length casts truncate, as `as u16` and `as u32` do. */
  method CreateZipArchive(name: Data, data: Data, codec: Codec) returns (zip: Data)
    ensures zip == Archive([LogFile(name, data, codec)], LogTrailer(name))
  {
    hide Le16, Le32, LocalRecord, CentralRecord, LogFile, Locals, Centrals;
    var crc := Le32(codec.crc(data));
    var compressed := codec.deflate(data);
    ghost var f := LogFile(name, data, codec);
    RecordLengths(name, data, codec);
    OneFile(f);

    zip := AppendLocalRecord(name, data, codec, crc, compressed);
    var centralDirOffset := |zip| % 0x1_0000_0000;
    var cd := AppendCentralRecord(name, data, codec, crc, compressed);
    zip := zip + cd;
    var centralDirSize := (|zip| % 0x1_0000_0000 - centralDirOffset) % 0x1_0000_0000;

    var end := EOCD_SIGNATURE;
    end := end + Le16(0);
    end := end + Le16(0);
    end := end + Le16(1);
    end := end + Le16(1);
    end := end + Le32(centralDirSize);
    end := end + Le32(centralDirOffset);
    end := end + Le16(0);
    Difference(|LocalRecord(f)|, 46 + |name|);
    Le32Truncates(46 + |name|);
    Le32Truncates(|LocalRecord(f)|);
    EndRecordOf(name, |LocalRecord(f)|, end);
    zip := zip + end;
  }

  /** The truncated difference of truncated lengths is the truncated length between them. */
  lemma Difference(offset: nat, size: nat)
    ensures ((offset + size) % 0x1_0000_0000 - offset % 0x1_0000_0000) % 0x1_0000_0000 == size % 0x1_0000_0000
  {
    var q, r := size / 0x1_0000_0000, offset / 0x1_0000_0000;
    assert offset + size == 0x1_0000_0000 * (q + r) + size % 0x1_0000_0000 + offset % 0x1_0000_0000;
  }

  lemma LowByte(k: nat, x: nat)
    ensures (0x100 * k + x) % 0x100 == x % 0x100
  {
  }

  lemma Quotients(q: nat, r: nat)
    ensures var n := 0x1_0000_0000 * q + r;
            && n / 0x100 == 0x100 * (0x1_0000 * q) + r / 0x100
            && n / 0x1_0000 == 0x100 * (0x100 * q) + r / 0x1_0000
            && n / 0x100_0000 == 0x100 * q + r / 0x100_0000
  {
  }

  lemma Le32Truncates(n: nat)
    ensures Le32(n % 0x1_0000_0000) == Le32(n)
  {
    var q, r := n / 0x1_0000_0000, n % 0x1_0000_0000;
    Quotients(q, r);
    LowByte(0x100_0000 * q, r);
    LowByte(0x1_0000 * q, r / 0x100);
    LowByte(0x100 * q, r / 0x1_0000);
    LowByte(q, r / 0x100_0000);
    assert 0x100 * (0x100_0000 * q) + r == n;
  }

  lemma RecordLengths(name: Data, data: Data, codec: Codec)
    ensures |LocalRecord(LogFile(name, data, codec))| == 30 + |name| + |codec.deflate(data)|
    ensures |CentralRecord(LogFile(name, data, codec), 0)| == 46 + |name|
  {
    hide Le16, Le32;
  }

  lemma EndRecordOf(name: Data, offset: nat, end: Data)
    requires end == EOCD_SIGNATURE + Le16(0) + Le16(0) + Le16(1) + Le16(1) + Le32(46 + |name|) + Le32(offset) + Le16(0)
    ensures end == Eocd(1, offset, LogTrailer(name).disks, LogTrailer(name).extent, LogTrailer(name).comment)
  {
    hide Le16, Le32;
  }

  lemma OneFile(f: File)
    ensures Locals([f]) == LocalRecord(f) && Centrals([f], 0) == CentralRecord(f, 0)
    ensures EntriesOf([f], 0) == [EntryOf(f, 0)]
  {
    hide LocalRecord, CentralRecord;
    assert [f][..0] == [] && [f][1..] == [];
    assert Centrals([f], 0) == CentralRecord(f, 0) + [];
    assert Locals([f]) == [] + LocalRecord(f);
  }

  lemma LocalRecordOf(f: File, zip: Data, crc: Data, raw: Data, name: Data, data: Data, codec: Codec)
    requires f == LogFile(name, data, codec) && raw == codec.deflate(data) && crc == Le32(codec.crc(data))
    requires zip == LOCAL_SIGNATURE + Le16(20) + Le16(0) + Le16(8) + Le16(0) + Le16(0) + crc + Le32(|raw|) + Le32(|data|)
                    + Le16(|name|) + Le16(0) + name + raw
    ensures zip == LocalRecord(f)
  {
    hide Le16, Le32;
  }

  lemma CentralRecordOf(f: File, cd: Data, crc: Data, raw: Data, name: Data, data: Data, codec: Codec)
    requires f == LogFile(name, data, codec) && raw == codec.deflate(data) && crc == Le32(codec.crc(data))
    requires cd == CENTRAL_SIGNATURE + Le16(20) + Le16(20) + Le16(0) + Le16(8) + Le16(0) + Le16(0) + crc
                   + Le32(|raw|) + Le32(|data|) + Le16(|name|) + Le16(0) + Le16(0) + Le16(0) + Le16(0) + Le32(0) + Le32(0) + name
    ensures cd == CentralRecord(f, 0)
  {
    hide Le16, Le32;
  }

  /** What the logger archives, the installer's reader gives back: exactly one entry with the name it
      was given, and its data, unless they exceed the limit on one entry. */
  lemma LogArchiveRoundTrip(name: Data, data: Data, codec: Codec)
    requires Lossless(codec)
    requires |name| < 0x1_0000 && 30 + |name| + |codec.deflate(data)| < 0x1_0000_0000
    ensures var z := Archive([LogFile(name, data, codec)], LogTrailer(name));
            && Listing(z).Ok? && |Listing(z).value| == 1 && Listing(z).value[0].name == name
            && ReadEntryData(z, Listing(z).value[0], codec) == if |data| <= MAX_ENTRY_UNCOMPRESSED then Ok(data) else Err(InvalidZip)
  {
    hide Locals, Centrals, Le16, Le32, ReadEntryData, Listing, Eocd;
    var f, t := LogFile(name, data, codec), LogTrailer(name);
    var z := Archive([f], t);
    OneFile(f);
    assert |LocalRecord(f)| == 30 + |name| + |f.raw|;
    EocdLength(1, |Locals([f])|, t);
    assert forall j :: |Locals([f])| + |Centrals([f], 0)| < j ==> !EocdAt(z, j);
    ArchiveIsRead([f], t, codec);
    assert codec.inflate(f.raw) == Some(data);
  }

  lemma EocdLength(count: nat, cdOffset: nat, t: Trailer)
    requires |t.disks| == 6 && |t.extent| == 4
    ensures |Eocd(count, cdOffset, t.disks, t.extent, t.comment)| == 22 + |t.comment|
  {
  }
}
