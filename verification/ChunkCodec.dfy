/** Chunked transfer coding: the writer, the gateway's lenient readers and the strict grammar of
    section 7.1 of RFC 9112. */
module ChunkCodec {
  import opened Bytes
  import opened Sockets

  const CRLF := "\r\n"

  // ---------------------------------------------------------------- hexadecimal numbers

  /** Upper-case digits without leading zeros: `format!("{:X}", n)`. */
  function Hex(n: nat): (r: string)
    ensures r != [] && forall i :: 0 <= i < |r| ==> IsHexDigit(r[i])
  {
    if n < 16 then [HexDigit(n)] else Hex(n / 16) + [HexDigit(n % 16)]
  }

  function HexDigit(d: nat): (c: char)
    requires d < 16
    ensures IsHexDigit(c) && HexValue(c) == d
  {
    if d < 10 then '0' + (d as char) else 'A' + ((d - 10) as char)
  }

  predicate IsHexDigit(c: char) {
    IsDigit(c) || 'a' <= c <= 'f' || 'A' <= c <= 'F'
  }

  function HexValue(c: char): (d: nat)
    requires IsHexDigit(c)
    ensures d < 16
  {
    if IsDigit(c) then c as int - '0' as int
    else if 'a' <= c then c as int - 'a' as int + 10
    else c as int - 'A' as int + 10
  }

  predicate AllHex(s: string) {
    forall i :: 0 <= i < |s| ==> IsHexDigit(s[i])
  }

  function HexNumber(s: string): nat
    requires AllHex(s)
  {
    if s == [] then 0 else HexNumber(s[..|s| - 1]) * 16 + HexValue(s[|s| - 1])
  }

  lemma {:induction false} HexRoundTrip(n: nat)
    ensures HexNumber(Hex(n)) == n
  {
    if n >= 16 {
      HexRoundTrip(n / 16);
      assert Hex(n)[..|Hex(n)| - 1] == Hex(n / 16);
    } else {
      assert Hex(n)[..|Hex(n)| - 1] == [];
    }
  }

  /** `usize::from_str_radix(_, 16)`: an optional plus sign, at least one digit, no overflow. */
  function ParseUsizeHex(s: string): (r: Option<nat>)
    ensures r.Some? ==> r.value <= USIZE_MAX
  {
    var digits := if s != [] && s[0] == '+' then s[1..] else s;
    if digits != [] && AllHex(digits) && HexNumber(digits) <= USIZE_MAX then Some(HexNumber(digits)) else None
  }

  // ---------------------------------------------------------------- the gateway's grammar

  datatype Fault = UnexpectedEof | InvalidData | TooLarge | Refused | Panic

  type Outcome<T> = Result<T, Fault>

  /** One step of the gateway's chunk grammar on the whole stream. */
  datatype Chunk = Last(rest: string) | Data(body: string, rest: string) | Bad(fault: Fault)

  /** What is in front of the first semicolon. */
  function BeforeSemicolon(line: string): string {
    match FindChar(line, ';', 0) case Some(k) => line[..k] case None => line
  }

  /** The chunk size at the front of a size line: chunk extensions cut off, blanks trimmed. */
  function SizeOf(line: string): Option<nat> {
    ParseUsizeHex(Trim(BeforeSemicolon(line)))
  }

  /** The size line of `s`: its value and what follows, if `s` has a complete valid one. */
  function SizeLine(s: string): (r: Outcome<(nat, string)>)
    ensures r.Ok? ==> |r.value.1| + 2 <= |s| && r.value.0 <= USIZE_MAX
  {
    match Find(s, CRLF, 0)
    case None => Err(UnexpectedEof)
    case Some(end) =>
      match SizeOf(s[..end])
      case None => Err(InvalidData)
      case Some(size) => Ok((size, s[end + 2..]))
  }

  /** Size and line end, added as a release build adds them. */
  function Framed(size: nat): nat
    requires size <= USIZE_MAX
  {
    if size + 2 > USIZE_MAX then size + 2 - USIZE_MAX - 1 else size + 2
  }

  /** The first chunk of `s`. The two bytes after the data are dropped unseen. When the sum of size
      and line end wraps around, too little is waited for and taking the data panics. */
  function FirstChunk(s: string): (r: Chunk)
    ensures r.Data? ==> |r.rest| < |s|
  {
    match SizeLine(s)
    case Err(fault) => Bad(fault)
    case Ok((size, rest)) =>
      if size == 0 then Last(rest)
      else if |rest| < Framed(size) then Bad(UnexpectedEof)
      else if size + 2 > USIZE_MAX then Bad(Panic)
      else Data(rest[..size], rest[size + 2..])
  }

  /** The body a chunked stream stands for, and what follows its last size line. */
  function Decode(s: string): (r: Outcome<(string, string)>)
    decreases |s|
  {
    match FirstChunk(s)
    case Bad(fault) => Err(fault)
    case Last(rest) => Ok(([], rest))
    case Data(body, rest) =>
      match Decode(rest)
      case Err(fault) => Err(fault)
      case Ok((more, left)) => Ok((body + more, left))
  }

  /** The first size line is settled by any prefix that contains it. */
  lemma SizeLineInPrefix(buffered: string, more: string)
    requires Find(buffered, CRLF, 0).Some?
    ensures match SizeLine(buffered)
            case Ok((size, rest)) => SizeLine(buffered + more) == Ok((size, rest + more))
            case Err(fault) => SizeLine(buffered + more) == Err(fault)
  {
    FindInPrefix(buffered, more, CRLF, 0);
    var end := Find(buffered, CRLF, 0).value;
    assert (buffered + more)[..end] == buffered[..end];
    assert (buffered + more)[end + 2..] == buffered[end + 2..] + more;
  }

  // ---------------------------------------------------------------- the strict grammar

  predicate IsBws(c: char) {
    c == ' ' || c == '\t'
  }

  /** `tchar` of section 5.6.2 of RFC 9110. */
  predicate IsTokenChar(c: char) {
    IsAlphanumeric(c) || c in "!#$%&'*+-.^_`|~"
  }

  /** Blanks, visible characters and `obs-text`. */
  predicate IsFieldChar(c: char) {
    IsBws(c) || 0x21 <= c as int <= 0x7E || 0x80 <= c as int <= 0xFF
  }

  /** The first position at or after `from` that holds no blank: the end of `BWS`. */
  function BlanksEnd(s: string, from: nat): (k: nat)
    requires from <= |s|
    ensures from <= k <= |s| && (forall i :: from <= i < k ==> IsBws(s[i]))
    ensures k < |s| ==> !IsBws(s[k])
    decreases |s| - from
  {
    if from < |s| && IsBws(s[from]) then BlanksEnd(s, from + 1) else from
  }

  function TokenEnd(s: string, from: nat): (k: nat)
    requires from <= |s|
    ensures from <= k <= |s|
    decreases |s| - from
  {
    if from < |s| && IsTokenChar(s[from]) then TokenEnd(s, from + 1) else from
  }

  function HexEnd(s: string, from: nat): (k: nat)
    requires from <= |s|
    ensures from <= k <= |s| && (forall i :: from <= i < k ==> IsHexDigit(s[i]))
    ensures k < |s| ==> !IsHexDigit(s[k])
    decreases |s| - from
  {
    if from < |s| && IsHexDigit(s[from]) then HexEnd(s, from + 1) else from
  }

  /** Behind the closing quote of a `quoted-string` whose opening quote is in front of `from`. */
  function QuotedEnd(s: string, from: nat): (r: Option<nat>)
    ensures r.Some? ==> from < r.value <= |s|
    decreases |s| - from
  {
    if from >= |s| || !IsFieldChar(s[from]) then None
    else if s[from] == '"' then Some(from + 1)
    else if s[from] == '\\' then
      if from + 1 < |s| && IsFieldChar(s[from + 1]) then QuotedEnd(s, from + 2) else None
    else QuotedEnd(s, from + 1)
  }

  /** Behind a `chunk-ext-val`: a token or a quoted string. */
  function ValueEnd(s: string, from: nat): (r: Option<nat>)
    requires from <= |s|
    ensures r.Some? ==> from < r.value <= |s|
  {
    if from < |s| && s[from] == '"' then QuotedEnd(s, from + 1)
    else if TokenEnd(s, from) > from then Some(TokenEnd(s, from))
    else None
  }

  /** `chunk-ext` of section 7.1.1: `*( BWS ";" BWS chunk-ext-name [ BWS "=" BWS chunk-ext-val ] )`. */
  predicate IsChunkExt(s: string)
    decreases |s|
  {
    s == "" ||
    var semicolon := BlanksEnd(s, 0);
    semicolon < |s| && s[semicolon] == ';' &&
    var name := BlanksEnd(s, semicolon + 1);
    var end := TokenEnd(s, name);
    end > name &&
    var equals := BlanksEnd(s, end);
    if equals < |s| && s[equals] == '=' then
      match ValueEnd(s, BlanksEnd(s, equals + 1)) case None => false case Some(k) => IsChunkExt(s[k..])
    else IsChunkExt(s[end..])
  }

  /** `1*HEXDIG [ chunk-ext ] CRLF` at the front of `s`, and what follows it. */
  function RfcSizeLine(s: string): (r: Option<(nat, string)>)
    ensures r.Some? ==> |r.value.1| + 3 <= |s|
  {
    match Find(s, CRLF, 0)
    case None => None
    case Some(end) =>
      var line := s[..end];
      var k := HexEnd(line, 0);
      if k > 0 && IsChunkExt(line[k..]) then Some((HexNumber(line[..k]), s[end + 2..])) else None
  }

  /** `field-name ":" OWS field-value OWS` */
  predicate IsFieldLine(line: string) {
    match FindChar(line, ':', 0)
    case None => false
    case Some(k) =>
      && k > 0 && (forall i :: 0 <= i < k ==> IsTokenChar(line[i]))
      && (forall i :: k < i < |line| ==> IsFieldChar(line[i]))
  }

  /** `trailer-section CRLF` at the front of `s`: its field lines, and what follows the empty line. */
  function RfcTrailers(s: string): (r: Option<(string, string)>)
    ensures r.Some? ==> s == r.value.0 + CRLF + r.value.1
    decreases |s|
  {
    match Find(s, CRLF, 0)
    case None => None
    case Some(end) =>
      assert s == s[..end] + CRLF + s[end + 2..];
      if end == 0 then Some(("", s[2..]))
      else if !IsFieldLine(s[..end]) then None
      else
        match RfcTrailers(s[end + 2..])
        case None => None
        case Some((fields, rest)) =>
          assert s == s[..end] + CRLF + (fields + CRLF + rest) == (s[..end] + CRLF + fields) + CRLF + rest;
          Some((s[..end] + CRLF + fields, rest))
  }

  /** A decoded body, its trailer fields and what follows it on the connection. */
  datatype Message = Message(body: string, trailers: string, rest: string)

  /** `chunked-body` of section 7.1 of RFC 9112: chunks `1*HEXDIG [ chunk-ext ] CRLF chunk-data CRLF`,
      then `1*"0" [ chunk-ext ] CRLF`, the trailer section and CRLF. */
  function Rfc9112Decode(s: string): (r: Option<Message>)
    decreases |s|
  {
    match RfcSizeLine(s)
    case None => None
    case Some((size, rest)) =>
      if size == 0 then
        match RfcTrailers(rest)
        case None => None
        case Some((fields, left)) => Some(Message([], fields, left))
      else if !At(rest, CRLF, size) then None
      else
        match Rfc9112Decode(rest[size + 2..])
        case None => None
        case Some(m) => Some(Message(rest[..size] + m.body, m.trailers, m.rest))
  }

  /** An extension starts with a semicolon, behind blanks only. */
  lemma ExtensionStart(ext: string) returns (k: nat)
    requires IsChunkExt(ext) && ext != ""
    ensures k < |ext| && ext[k] == ';' && forall i :: 0 <= i < k ==> IsBws(ext[i])
  {
    hide TokenEnd, ValueEnd;
    k := BlanksEnd(ext, 0);
  }

  lemma BeforeExtension(digits: string, ext: string) returns (blanks: string)
    requires AllHex(digits) && IsChunkExt(ext)
    ensures BeforeSemicolon(digits + ext) == digits + blanks && forall i :: 0 <= i < |blanks| ==> IsBws(blanks[i])
  {
    hide IsChunkExt;
    var line := digits + ext;
    assert forall i :: 0 <= i < |digits| ==> line[i] == digits[i] && line[i] != ';';
    if ext == "" {
      blanks := "";
      assert FindChar(line, ';', 0) == None;
    } else {
      var k := ExtensionStart(ext);
      blanks := ext[..k];
      assert forall i :: 0 <= i < k ==> line[|digits| + i] == ext[i] && line[|digits| + i] != ';';
      assert line[|digits| + k] == ';';
      assert FindChar(line, ';', 0) == Some(|digits| + k);
    }
  }

  /** Blanks behind the digits and any chunk extension are cut off. */
  lemma SizeBeforeExtension(digits: string, ext: string)
    requires digits != [] && AllHex(digits) && HexNumber(digits) <= USIZE_MAX && IsChunkExt(ext)
    ensures SizeOf(digits + ext) == Some(HexNumber(digits))
  {
    hide HexNumber, TrimEnd, IsChunkExt, FindChar;
    var blanks := BeforeExtension(digits, ext);
    TrimAround("", digits, blanks);
    assert "" + digits + blanks == digits + blanks;
    assert digits[0] != '+';
  }

  /** What is read as a size: hexadecimal digits, of either case, perhaps behind a plus sign, with blanks
      around and anything behind a semicolon. A number that is no `usize` is refused, and so is anything
      that is no number. */
  lemma LooseSize(front: string, plus: string, core: string, back: string, ext: string)
    requires AllBlank(front) && AllBlank(back) && plus in {"", "+"} && (ext == "" || ext[0] == ';')
    requires (forall i :: 0 <= i < |core| ==> IsInk(core[i]) && core[i] != ';') && core != "" && core[0] != '+'
    ensures SizeOf(front + plus + core + back + ext)
            == if AllHex(core) && HexNumber(core) <= USIZE_MAX then Some(HexNumber(core)) else None
  {
    NoSemicolon(front, plus, core, back);
    SemicolonIsCut(front + plus + core + back, ext);
    NumberIsTrimmed(front, plus, core, back);
    SignIsRead(plus, core);
    hide BeforeSemicolon, HexNumber, AllHex, Trim, ParseUsizeHex;
  }

  lemma NumberIsTrimmed(front: string, plus: string, core: string, back: string)
    requires AllBlank(front) && AllBlank(back) && plus in {"", "+"} && core != "" && IsInk(core[0]) && IsInk(core[|core| - 1])
    ensures Trim(front + plus + core + back) == plus + core
  {
    hide Trim;
    var number := plus + core;
    assert number[0] == (if plus == "" then core[0] else '+') && number[|number| - 1] == core[|core| - 1];
    TrimAround(front, number, back);
    assert front + number + back == front + plus + core + back;
  }

  lemma SignIsRead(plus: string, core: string)
    requires plus in {"", "+"} && core != "" && core[0] != '+'
    ensures ParseUsizeHex(plus + core) == if AllHex(core) && HexNumber(core) <= USIZE_MAX then Some(HexNumber(core)) else None
  {
    hide HexNumber, AllHex;
    if plus == "+" {
      assert (plus + core)[1..] == core;
    } else {
      assert plus + core == core;
    }
  }

  lemma SemicolonIsCut(line: string, ext: string)
    requires (forall i :: 0 <= i < |line| ==> line[i] != ';') && (ext == "" || ext[0] == ';')
    ensures BeforeSemicolon(line + ext) == line
  {
    var s := line + ext;
    assert forall i :: 0 <= i < |line| ==> s[i] == line[i];
    if ext == "" {
      assert s == line && FindChar(s, ';', 0) == None;
    } else {
      assert s[|line|] == ';';
      assert FindChar(s, ';', 0) == Some(|line|);
      assert s[..|line|] == line;
    }
  }

  lemma NoSemicolon(front: string, plus: string, core: string, back: string)
    requires AllBlank(front) && AllBlank(back) && plus in {"", "+"}
    requires forall i :: 0 <= i < |core| ==> core[i] != ';'
    ensures var line := front + plus + core + back; forall i :: 0 <= i < |line| ==> line[i] != ';'
  {
    assert forall i :: 0 <= i < |front| ==> IsBlank(front[i]) && front[i] != ';';
    assert forall i :: 0 <= i < |back| ==> IsBlank(back[i]) && back[i] != ';';
  }

  lemma StrictSizeLine(s: string)
    requires RfcSizeLine(s).Some? && RfcSizeLine(s).value.0 <= USIZE_MAX
    ensures SizeLine(s) == Ok(RfcSizeLine(s).value)
  {
    hide Find, SizeOf, IsChunkExt, HexEnd, HexNumber;
    var line := s[..Find(s, CRLF, 0).value];
    var k := HexEnd(line, 0);
    assert line == line[..k] + line[k..];
    SizeBeforeExtension(line[..k], line[k..]);
  }

  /** Whatever the grammar of the standard accepts, the gateway's reader decodes to the same body. It
      leaves the trailer section and its empty line unread. */
  lemma {:induction false} StrictImpliesLenient(s: string)
    requires Rfc9112Decode(s).Some? && |s| < USIZE_MAX
    ensures var m := Rfc9112Decode(s).value; Decode(s) == Ok((m.body, m.trailers + CRLF + m.rest))
    decreases |s|
  {
    hide SizeLine, RfcSizeLine, RfcTrailers;
    StrictSizeLine(s);
    var (size, rest) := RfcSizeLine(s).value;
    if size != 0 {
      StrictImpliesLenient(rest[size + 2..]);
    }
  }

  // ---------------------------------------------------------------- what is accepted, and what panics

  /** The stream behind its first `k` chunks; nothing if it has fewer. */
  function Left(s: string, k: nat): string
    decreases k
  {
    if k == 0 then s
    else match FirstChunk(s) case Data(_, rest) => Left(rest, k - 1) case _ => ""
  }

  /** How many bytes of data the first `k` chunks have. */
  function Taken(s: string, k: nat): nat
    decreases k
  {
    if k == 0 then 0
    else match FirstChunk(s) case Data(body, rest) => |body| + Taken(rest, k - 1) case _ => 0
  }

  /** The size of the first chunk wraps around when the line end is added, and the few bytes that are
      then waited for are there. */
  predicate Oversized(s: string) {
    match SizeLine(s)
    case Err(_) => false
    case Ok((size, rest)) => size >= USIZE_MAX - 1 && |rest| >= size - (USIZE_MAX - 1)
  }

  lemma OversizedPanics(s: string)
    ensures FirstChunk(s) == Bad(Panic) <==> Oversized(s)
  {
    hide Find, SizeOf;
  }

  lemma NothingIsNotOversized()
    ensures !Oversized("")
  {
  }

  lemma DataIsShorter(s: string)
    ensures FirstChunk(s).Data? ==> |FirstChunk(s).rest| < |s|
  {
  }

  /** The reader panics exactly on the streams that have an oversized chunk behind some others. */
  lemma {:induction false} PanicsExactly(s: string)
    ensures Decode(s) == Err(Panic) <==> exists k: nat :: Oversized(Left(s, k))
    decreases |s|
  {
    hide FirstChunk, Oversized, Decode, Left;
    OversizedPanics(s);
    NothingIsNotOversized();
    LeftOfOne(s);
    match FirstChunk(s)
    case Bad(_) =>
    case Last(_) =>
    case Data(body, rest) =>
      DecodeStep(s);
      PanicsExactly(rest);
      if k: nat :| Oversized(Left(s, k)) {
        LeftStep(s, k - 1);
      }
      if k: nat :| Oversized(Left(rest, k)) {
        LeftStep(s, k);
      }
  }

  /** Without a first chunk of data there is only the stream itself. */
  lemma LeftOfOne(s: string)
    ensures Left(s, 0) == s && Taken(s, 0) == 0
    ensures !FirstChunk(s).Data? ==> forall k: nat :: k > 0 ==> Left(s, k) == ""
    ensures FirstChunk(s).Bad? ==> Decode(s) == Err(FirstChunk(s).fault)
    ensures FirstChunk(s).Last? ==> Decode(s) == Ok(("", FirstChunk(s).rest))
  {
    hide FirstChunk;
  }

  lemma LeftStep(s: string, k: nat)
    requires FirstChunk(s).Data?
    ensures Left(s, k + 1) == Left(FirstChunk(s).rest, k)
    ensures Taken(s, k + 1) == |FirstChunk(s).body| + Taken(FirstChunk(s).rest, k)
  {
    hide FirstChunk;
  }

  lemma DecodeStep(s: string)
    requires FirstChunk(s).Data?
    ensures |FirstChunk(s).rest| < |s|
    ensures Decode(s) == match Decode(FirstChunk(s).rest)
                         case Err(fault) => Err(fault)
                         case Ok((more, left)) => Ok((FirstChunk(s).body + more, left))
  {
    hide FirstChunk;
    DataIsShorter(s);
  }

  /** One size line of sixteen digits, followed by one byte, is enough. */
  lemma LargestSizePanics()
    ensures Decode(Hex(USIZE_MAX) + CRLF + "a") == Err(Panic)
    ensures Hex(USIZE_MAX) == "FFFFFFFFFFFFFFFF"
  {
    var s := Hex(USIZE_MAX) + CRLF + "a";
    HexOfLargest();
    hide Decode, SizeLine, Hex;
    PlainSizeLine(USIZE_MAX, "a");
    assert Oversized(Left(s, 0));
    PanicsExactly(s);
  }

  lemma HexOfLargest()
    ensures Hex(USIZE_MAX) == "FFFFFFFFFFFFFFFF"
  {
    hide Hex;
    assert Hex(15) == "F" by { HexOfF(); }
    HexMore(15, 0xFF);
    HexMore(0xFF, 0xFFF);
    HexMore(0xFFF, 0xFFFF);
    HexMore(0xFFFF, 0xF_FFFF);
    HexMore(0xF_FFFF, 0xFF_FFFF);
    HexMore(0xFF_FFFF, 0xFFF_FFFF);
    HexMore(0xFFF_FFFF, 0xFFFF_FFFF);
    HexMore(0xFFFF_FFFF, 0xF_FFFF_FFFF);
    HexMore(0xF_FFFF_FFFF, 0xFF_FFFF_FFFF);
    HexMore(0xFF_FFFF_FFFF, 0xFFF_FFFF_FFFF);
    HexMore(0xFFF_FFFF_FFFF, 0xFFFF_FFFF_FFFF);
    HexMore(0xFFFF_FFFF_FFFF, 0xF_FFFF_FFFF_FFFF);
    HexMore(0xF_FFFF_FFFF_FFFF, 0xFF_FFFF_FFFF_FFFF);
    HexMore(0xFF_FFFF_FFFF_FFFF, 0xFFF_FFFF_FFFF_FFFF);
    HexMore(0xFFF_FFFF_FFFF_FFFF, USIZE_MAX);
  }

  lemma HexOfF()
    ensures Hex(15) == "F"
  {
  }

  lemma HexMore(n: nat, more: nat)
    requires n > 0 && more == 16 * n + 15
    ensures Hex(more) == Hex(n) + "F"
  {
    assert more / 16 == n && more % 16 == 15;
  }

  /** How many chunks with data `s` starts with. */
  function Chunks(s: string): nat
    decreases |s|
  {
    match FirstChunk(s) case Data(_, rest) => 1 + Chunks(rest) case _ => 0
  }

  /** At the front of `s` the standard would agree: a plain size line, and behind it a chunk with its
      line end or the trailer section of the last chunk. */
  predicate IsStrict(s: string) {
    match RfcSizeLine(s)
    case None => false
    case Some((size, rest)) => if size == 0 then RfcTrailers(rest).Some? else At(rest, CRLF, size)
  }

  ghost predicate AllStrict(s: string) {
    forall k: nat :: k <= Chunks(s) ==> IsStrict(Left(s, k))
  }

  /** What the reader accepts beyond the standard: it decodes a stream that the grammar refuses exactly
      when some size line, some chunk's end or the trailer section is not as the grammar has it. */
  lemma {:induction false} AcceptsExactly(s: string)
    requires |s| < USIZE_MAX
    ensures Rfc9112Decode(s).Some? <==> Decode(s).Ok? && AllStrict(s)
    decreases |s|
  {
    hide FirstChunk, IsStrict, Rfc9112Decode, Decode, Left;
    LeftOfOne(s);
    if !IsStrict(s) {
      NotStrict(s);
      assert !IsStrict(Left(s, 0));
    } else {
      StrictStep(s);
      if FirstChunk(s).Data? {
        var rest := FirstChunk(s).rest;
        DecodeStep(s);
        AcceptsExactly(rest);
        forall k: nat
          ensures Left(s, k + 1) == Left(rest, k)
        {
          LeftStep(s, k);
        }
        if AllStrict(rest) {
          forall k: nat | k <= Chunks(s)
            ensures IsStrict(Left(s, k))
          {
            if k > 0 {
              assert Left(s, k - 1 + 1) == Left(rest, k - 1);
            }
          }
        }
        if AllStrict(s) {
          forall k: nat | k <= Chunks(rest)
            ensures IsStrict(Left(rest, k))
          {
            assert IsStrict(Left(s, k + 1));
          }
        }
      }
    }
  }

  lemma NotStrict(s: string)
    requires !IsStrict(s)
    ensures Rfc9112Decode(s).None?
  {
    hide RfcSizeLine, RfcTrailers;
  }

  /** Where the standard agrees, the reader takes the same chunk. */
  lemma StrictStep(s: string)
    requires IsStrict(s) && |s| < USIZE_MAX
    ensures match FirstChunk(s)
            case Bad(_) => false
            case Last(_) => Rfc9112Decode(s).Some? && Decode(s).Ok?
            case Data(_, rest) => (Rfc9112Decode(s).Some? <==> Rfc9112Decode(rest).Some?) && (Decode(s).Ok? <==> Decode(rest).Ok?)
  {
    hide RfcSizeLine, RfcTrailers, SizeLine;
    StrictSizeLine(s);
  }

  /** Two bytes behind a chunk that are no line end are skipped by the reader, and refused by the
      standard. */
  lemma WrongEndIsSkipped(body: string, end: string, tail: string)
    requires body != "" && |body| + 2 <= USIZE_MAX && |end| == 2 && end != CRLF
    ensures var s := Hex(|body|) + CRLF + (body + end + tail);
            Rfc9112Decode(s) == None && FirstChunk(s) == Data(body, tail)
  {
    hide Hex, RfcSizeLine, SizeLine, RfcTrailers, Rfc9112Decode, FirstChunk;
    var rest := body + end + tail;
    var s := Hex(|body|) + CRLF + rest;
    PlainSizeLine(|body|, rest);
    assert rest[|body|..|body| + 2] == end && rest[..|body|] == body && rest[|body| + 2..] == tail;
    NotStrict(s);
    FirstChunkIs(s);
  }

  lemma PlainSizeLine(n: nat, rest: string)
    requires n <= USIZE_MAX
    ensures RfcSizeLine(Hex(n) + CRLF + rest) == Some((n, rest)) && SizeLine(Hex(n) + CRLF + rest) == Ok((n, rest))
  {
    hide Hex, RfcSizeLine, SizeLine;
    RfcReadsSize(n, rest);
    StrictSizeLine(Hex(n) + CRLF + rest);
  }

  lemma TerminatorDecodes()
    ensures Decode(TERMINATOR) == Ok(("", CRLF))
  {
    hide Decode, Rfc9112Decode;
    RfcReadsTerminator("");
    assert TERMINATOR + "" == TERMINATOR && "" + CRLF + "" == CRLF;
    StrictImpliesLenient(TERMINATOR);
  }

  /** For example the letters XX. */
  lemma WrongEndIsAccepted()
    ensures var s := "1" + CRLF + "aXX" + TERMINATOR;
            Decode(s) == Ok(("a", CRLF)) && Rfc9112Decode(s) == None
  {
    assert Hex(1) == "1";
    hide Hex, Decode, Rfc9112Decode, FirstChunk;
    assert Hex(1) + CRLF + ("a" + "XX" + TERMINATOR) == "1" + CRLF + "aXX" + TERMINATOR;
    WrongEndIsSkipped("a", "XX", TERMINATOR);
    DecodeStep("1" + CRLF + "aXX" + TERMINATOR);
    TerminatorDecodes();
    assert "a" + "" == "a";
  }

  // ---------------------------------------------------------------- the writer

  /** What `write_chunk` sends for a body: nothing at all for an empty one. */
  function Frame(body: string): string {
    if body == [] then [] else Hex(|body|) + CRLF + body + CRLF
  }

  lemma FrameOfNothing()
    ensures Frame([]) == []
  {
  }

  function Frames(bodies: seq<string>): string {
    if bodies == [] then [] else Frame(bodies[0]) + Frames(bodies[1..])
  }

  const TERMINATOR := "0\r\n\r\n"

  lemma FindAfterHex(n: nat, tail: string)
    ensures Find(Hex(n) + CRLF + tail, CRLF, 0) == Some(|Hex(n)|)
  {
    var s := Hex(n) + CRLF + tail;
    var k := |Hex(n)|;
    assert s[k..k + 2] == CRLF;
    forall j | 0 <= j < k
      ensures !At(s, CRLF, j)
    {
      assert s[j] == Hex(n)[j];
      assert s[j..j + 2][0] == s[j];
    }
    FindIs(s, CRLF, 0, k);
  }

  lemma RfcReadsSize(n: nat, tail: string)
    ensures RfcSizeLine(Hex(n) + CRLF + tail) == Some((n, tail))
  {
    hide Find, HexEnd, Hex, HexNumber;
    FindAfterHex(n, tail);
    HexRoundTrip(n);
    assert (Hex(n) + CRLF + tail)[..|Hex(n)|] == Hex(n);
    assert (Hex(n) + CRLF + tail)[|Hex(n)| + 2..] == tail;
    assert HexEnd(Hex(n), 0) == |Hex(n)| && Hex(n)[..|Hex(n)|] == Hex(n) && Hex(n)[|Hex(n)|..] == "";
  }

  lemma RfcReadsFrame(body: string, tail: string)
    requires body != []
    ensures Rfc9112Decode(Frame(body) + tail)
            == match Rfc9112Decode(tail)
               case None => None
               case Some(m) => Some(Message(body + m.body, m.trailers, m.rest))
  {
    hide RfcSizeLine, Hex;
    var n := |body|;
    var rest := body + CRLF + tail;
    RfcReadsSize(n, rest);
    assert Frame(body) + tail == Hex(n) + CRLF + rest;
    assert rest[n..n + 2] == CRLF;
    assert rest[..n] == body && rest[n + 2..] == tail;
  }

  /** Writer against the standard's grammar: the frames of any bodies, closed by the terminator and
      followed by anything, decode to the concatenated bodies with nothing of the rest consumed. */
  lemma {:induction false} FramesRoundTrip(bodies: seq<string>, tail: string)
    ensures Rfc9112Decode(Frames(bodies) + TERMINATOR + tail) == Some(Message(Flatten(bodies), "", tail))
    decreases |bodies|
  {
    hide Rfc9112Decode, Frame;
    if bodies == [] {
      RfcReadsTerminator(tail);
      assert Frames(bodies) + TERMINATOR + tail == TERMINATOR + tail;
    } else {
      FramesRoundTrip(bodies[1..], tail);
      var later := Frames(bodies[1..]) + TERMINATOR + tail;
      assert Frames(bodies) + TERMINATOR + tail == Frame(bodies[0]) + later;
      if bodies[0] == [] {
        FrameOfNothing();
        assert Frame(bodies[0]) + later == later;
        assert Flatten(bodies) == Flatten(bodies[1..]);
      } else {
        RfcReadsFrame(bodies[0], later);
      }
    }
  }

  /** Writer against reader: the gateway's own decoder returns what was framed. */
  lemma ReaderUndoesWriter(bodies: seq<string>)
    requires |Frames(bodies) + TERMINATOR| < USIZE_MAX
    ensures Decode(Frames(bodies) + TERMINATOR) == Ok((Flatten(bodies), CRLF))
  {
    hide Frames, Decode, Rfc9112Decode;
    FramesRoundTrip(bodies, "");
    assert Frames(bodies) + TERMINATOR + "" == Frames(bodies) + TERMINATOR;
    StrictImpliesLenient(Frames(bodies) + TERMINATOR);
    assert "" + CRLF + "" == CRLF;
  }

  lemma RfcReadsTerminator(tail: string)
    ensures Rfc9112Decode(TERMINATOR + tail) == Some(Message([], "", tail))
  {
    hide RfcSizeLine, Find;
    RfcReadsSize(0, CRLF + tail);
    assert Hex(0) == "0";
    assert TERMINATOR + tail == Hex(0) + CRLF + (CRLF + tail);
    assert (CRLF + tail)[0..2] == CRLF && (CRLF + tail)[2..] == tail;
    FindIs(CRLF + tail, CRLF, 0, 0);
  }

  // ---------------------------------------------------------------- the readers

  /** `read_more`: one read, which must not come back empty. */
  method ReadMore(stream: Socket, buffer: string) returns (ok: bool, buffered: string)
    requires stream.Valid()
    modifies stream
    ensures stream.Valid() && buffered + stream.Pending() == buffer + old(stream.Pending())
    ensures ok <==> old(stream.segments) != []
    ensures ok ==> |stream.segments| < old(|stream.segments|) && buffer <= buffered
    ensures !ok ==> buffered == buffer && stream.segments == [] && stream.Pending() == ""
  {
    var chunk := stream.Read();
    ok := chunk != [];
    buffered := buffer + chunk;
  }

  /** `parse_chunk_size`: takes the size line off the buffer. */
  method ParseChunkSize(buffer: string) returns (r: Outcome<nat>, buffered: string)
    requires Find(buffer, CRLF, 0).Some?
    ensures match SizeLine(buffer)
            case Ok((size, rest)) => r == Ok(size) && buffered == rest
            case Err(fault) => r == Err(fault) && buffered == buffer
  {
    var end := Find(buffer, CRLF, 0).value;
    match SizeOf(buffer[..end])
    case None => return Err(InvalidData), buffer;
    case Some(size) => return Ok(size), buffer[end + 2..];
  }

  lemma NoFirstChunk(s: string)
    requires Find(s, CRLF, 0).None?
    ensures FirstChunk(s) == Bad(UnexpectedEof)
  {
    hide Find, SizeOf;
  }

  lemma FirstChunkIs(s: string)
    ensures FirstChunk(s) ==
            match SizeLine(s)
            case Err(fault) => Bad(fault)
            case Ok((size, rest)) =>
              if size == 0 then Last(rest)
              else if |rest| < Framed(size) then Bad(UnexpectedEof)
              else if size + 2 > USIZE_MAX then Bad(Panic)
              else Data(rest[..size], rest[size + 2..])
  {
    hide SizeLine;
  }

  /** `read_one_chunk` follows the chunk grammar of the whole stream, however the stream is cut
      into reads. */
  method ReadOneChunk(stream: Socket, buffer: string) returns (r: Outcome<Option<string>>, buffered: string)
    requires stream.Valid()
    modifies stream
    ensures stream.Valid() && |stream.segments| <= old(|stream.segments|)
    ensures match FirstChunk(buffer + old(stream.Pending()))
            case Bad(fault) => r == Err(fault)
            case Last(rest) => r == Ok(None) && buffered + stream.Pending() == rest
            case Data(body, rest) => r == Ok(Some(body)) && buffered + stream.Pending() == rest
  {
    hide Find, SizeOf, SizeLine, FirstChunk, Flatten;
    buffered := buffer;
    ghost var whole := buffer + stream.Pending();
    while Find(buffered, CRLF, 0).None?
      invariant stream.Valid() && buffered + stream.Pending() == whole
      invariant |stream.segments| <= old(|stream.segments|)
      decreases |stream.segments|
    {
      var ok;
      ok, buffered := ReadMore(stream, buffered);
      if !ok {
        assert buffered + [] == buffered;
        NoFirstChunk(whole);
        return Err(UnexpectedEof), buffered;
      }
    }
    SizeLineInPrefix(buffered, stream.Pending());
    FirstChunkIs(whole);
    var parsed;
    parsed, buffered := ParseChunkSize(buffered);
    if parsed.Err? {
      return Err(parsed.error), buffered;
    }
    var size := parsed.value;
    if size == 0 {
      return Ok(None), buffered;
    }
    ghost var rest := buffered + stream.Pending();
    while |buffered| < Framed(size)
      invariant stream.Valid() && buffered + stream.Pending() == rest
      invariant |stream.segments| <= old(|stream.segments|)
      decreases |stream.segments|
    {
      var ok;
      ok, buffered := ReadMore(stream, buffered);
      if !ok {
        return Err(UnexpectedEof), buffered;
      }
    }
    if size + 2 > USIZE_MAX {
      return Err(Panic), buffered;
    }
    assert rest[..size] == buffered[..size];
    assert rest[size + 2..] == buffered[size + 2..] + stream.Pending();
    return Ok(Some(buffered[..size])), buffered[size + 2..];
  }
}
