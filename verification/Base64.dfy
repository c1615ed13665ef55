/** The installer's base64 decoder against the encoding of section 4 of RFC 4648. */
module Base64 {
  import opened Bytes

  /** A six-bit value. */
  type sextet = x: int | 0 <= x < 64

  // ---------------------------------------------------------------- the alphabet

  function EncodeChar(d: sextet): (c: char)
    ensures c != '='
    ensures DecodeChar(c) == Some(d)
  {
    if d < 26 then 'A' + (d as char)
    else if d < 52 then 'a' + ((d - 26) as char)
    else if d < 62 then '0' + ((d - 52) as char)
    else if d == 62 then '+'
    else '/'
  }

  /** The position of `c` in the alphabet table. */
  function DecodeChar(c: char): Option<sextet> {
    if 'A' <= c <= 'Z' then Some(c as int - 'A' as int)
    else if 'a' <= c <= 'z' then Some(c as int - 'a' as int + 26)
    else if '0' <= c <= '9' then Some(c as int - '0' as int + 52)
    else if c == '+' then Some(62)
    else if c == '/' then Some(63)
    else None
  }

  // ---------------------------------------------------------------- the standard's encoder

  /** Three bytes as one 24-bit number. */
  function Packed(a: int, b: int, c: int): int {
    a * 0x1_0000 + b * 0x100 + c
  }

  /** Four six-bit values as one 24-bit number. */
  function Joined(w: int, x: int, y: int, z: int): int {
    w * 0x4_0000 + x * 0x1000 + y * 64 + z
  }

  lemma TripleBounds(a: byte, b: byte, c: byte)
    ensures 0 <= Packed(a, b, c) < 0x100_0000
    ensures 0 <= Packed(a, b, c) / 0x4_0000 < 64
  {
  }

  /** Three bytes as four characters. */
  function EncodeGroup(a: byte, b: byte, c: byte): (s: string)
    ensures |s| == 4
  {
    var triple := Packed(a, b, c);
    TripleBounds(a, b, c);
    [EncodeChar(triple / 0x4_0000), EncodeChar(triple / 0x1000 % 64), EncodeChar(triple / 64 % 64), EncodeChar(triple % 64)]
  }

  /** The characters for the last one or two bytes, without padding. */
  function EncodeTail(data: seq<byte>): (s: string)
    requires |data| < 3
  {
    if |data| == 0 then ""
    else if |data| == 1 then EncodeGroup(data[0], 0, 0)[..2]
    else EncodeGroup(data[0], data[1], 0)[..3]
  }

  /** The encoding, with or without the padding characters at its end. */
  function Encode(data: seq<byte>, padded: bool): string {
    if |data| >= 3 then EncodeGroup(data[0], data[1], data[2]) + Encode(data[3..], padded)
    else EncodeTail(data) + if padded && data != [] then Padding(4 - |EncodeTail(data)|) else ""
  }

  function Padding(n: nat): (s: string)
    ensures |s| == n && forall i :: 0 <= i < n ==> s[i] == '='
  {
    seq(n, i => '=')
  }

  // ---------------------------------------------------------------- the decoder

  datatype Error = InvalidCharacter(c: char)

  /** `u8::is_ascii_whitespace`: no vertical tab. */
  predicate IsBlank(c: char) {
    c == ' ' || c == '\t' || c == '\n' || c == '\r' || c as int == 12
  }

  function WithoutBlanks(s: string): string {
    if s == "" then "" else (if IsBlank(s[0]) then "" else [s[0]]) + WithoutBlanks(s[1..])
  }

  /** How many padding characters make `n` a multiple of four. */
  function Missing(n: nat): (k: nat)
    ensures k < 4 && (n + k) % 4 == 0
  {
    if n % 4 == 0 then 0 else 4 - n % 4
  }

  /** Padding to a multiple of four. */
  function PaddedToFour(s: string): (r: string)
    ensures |r| % 4 == 0 && s <= r && |r| < |s| + 4
  {
    s + Padding(Missing(|s|))
  }

  /** The values of four characters, padding counting as zero, and how many were padding. */
  function GroupValues(s: string): Result<(seq<sextet>, nat), Error> {
    if s == "" then Ok(([], 0))
    else
      match GroupValues(s[..|s| - 1])
      case Err(error) => Err(error)
      case Ok((values, pad)) =>
        var c := s[|s| - 1];
        if c == '=' then Ok((values + [0], pad + 1))
        else match DecodeChar(c) case Some(d) => Ok((values + [d], pad)) case None => Err(InvalidCharacter(c))
  }

  /** The bytes of one group of four values. */
  function GroupBytes(b: seq<sextet>, pad: nat): (r: seq<byte>)
    requires |b| == 4
  {
    var triple := Joined(b[0], b[1], b[2], b[3]);
    [triple / 0x1_0000 % 0x100] + (if pad < 2 then [triple / 0x100 % 0x100] else []) + (if pad < 1 then [triple % 0x100] else [])
  }

  lemma {:induction false} GroupValuesLength(s: string)
    ensures GroupValues(s).Ok? ==> |GroupValues(s).value.0| == |s|
    decreases |s|
  {
    if s != "" {
      GroupValuesLength(s[..|s| - 1]);
    }
  }

  function DecodeGroup(s: string): Result<seq<byte>, Error>
    requires |s| == 4
  {
    GroupValuesLength(s);
    match GroupValues(s) case Err(error) => Err(error) case Ok((values, pad)) => Ok(GroupBytes(values, pad))
  }

  /** `chunks_exact(4)`: whole groups, decoded in order. */
  function DecodeGroups(s: string): Result<seq<byte>, Error>
    decreases |s|
  {
    if |s| < 4 then Ok([])
    else
      match DecodeGroup(s[..4])
      case Err(error) => Err(error)
      case Ok(bytes) =>
        match DecodeGroups(s[4..])
        case Err(error) => Err(error)
        case Ok(more) => Ok(bytes + more)
  }

  function Decoded(input: string): Result<seq<byte>, Error> {
    DecodeGroups(PaddedToFour(WithoutBlanks(input)))
  }

  /** One group, character by character. */
  method ReadGroup(chunk: string) returns (r: Result<seq<byte>, Error>)
    requires |chunk| == 4
    ensures r == DecodeGroup(chunk)
  {
    hide DecodeChar;
    var b: seq<sextet> := [];
    var pad := 0;
    assert chunk[..0] == "";
    for i := 0 to 4
      invariant |b| == i && GroupValues(chunk[..i]) == Ok((b, pad))
    {
      var byte := chunk[i];
      assert chunk[..i + 1][..i] == chunk[..i];
      if byte == '=' {
        b := b + [0];
        pad := pad + 1;
      } else {
        var pos := DecodeChar(byte);
        if pos.None? {
          ErrorStays(chunk, i + 1);
          return Err(InvalidCharacter(byte));
        }
        b := b + [pos.value];
      }
    }
    assert chunk[..4] == chunk;
    return Ok(GroupBytes(b, pad));
  }

  lemma {:induction false} ErrorStays(s: string, n: nat)
    requires n <= |s| && GroupValues(s[..n]).Err?
    ensures GroupValues(s) == GroupValues(s[..n])
    decreases |s|
  {
    if n < |s| {
      assert s[..|s| - 1][..n] == s[..n];
      ErrorStays(s[..|s| - 1], n);
    } else {
      assert s[..n] == s;
    }
  }

  lemma FilterStep(s: string, i: nat)
    requires i < |s|
    ensures WithoutBlanks(s[i..]) == (if IsBlank(s[i]) then "" else [s[i]]) + WithoutBlanks(s[i + 1..])
  {
    assert s[i..][1..] == s[i + 1..];
  }

  /** The filter of `decode_base64`. */
  method FilterBlanks(input: string) returns (clean: string)
    ensures clean == WithoutBlanks(input)
  {
    hide WithoutBlanks, IsBlank;
    clean := "";
    assert input[0..] == input && "" + WithoutBlanks(input) == WithoutBlanks(input);
    for i := 0 to |input|
      invariant clean + WithoutBlanks(input[i..]) == WithoutBlanks(input)
    {
      FilterStep(input, i);
      if !IsBlank(input[i]) {
        assert clean + ([input[i]] + WithoutBlanks(input[i + 1..])) == clean + [input[i]] + WithoutBlanks(input[i + 1..]);
        clean := clean + [input[i]];
      } else {
        assert "" + WithoutBlanks(input[i + 1..]) == WithoutBlanks(input[i + 1..]);
      }
    }
    NoBlanksInNothing();
    assert input[|input|..] == "" && clean + "" == clean;
  }

  lemma NoBlanksInNothing()
    ensures WithoutBlanks("") == ""
  {
  }

  lemma MissingIsLeast(n: nat, k: nat)
    requires k <= Missing(n)
    ensures (n + k) % 4 == 0 <==> k == Missing(n)
  {
  }

  /** The padding loop of `decode_base64`. */
  method PadToFour(bare: string) returns (clean: string)
    ensures clean == PaddedToFour(bare)
  {
    hide Missing;
    clean := bare;
    ghost var added := 0;
    MissingIsLeast(|bare|, 0);
    while |clean| % 4 != 0
      invariant added <= Missing(|bare|) && clean == bare + Padding(added)
      invariant |clean| % 4 == 0 <==> added == Missing(|bare|)
      decreases Missing(|bare|) - added
    {
      clean := clean + "=";
      added := added + 1;
      MissingIsLeast(|bare|, added);
      assert Padding(added) == Padding(added - 1) + "=";
    }
  }

  lemma DecodeGroupsStep(s: string, i: nat, out: seq<byte>)
    requires i + 4 <= |s|
    ensures match DecodeGroup(s[i..i + 4])
            case Err(error) => DecodeGroups(s[i..]) == Err(error)
            case Ok(bytes) =>
              Behind(out, DecodeGroups(s[i..])) == Behind(out + bytes, DecodeGroups(s[i + 4..]))
  {
    hide DecodeGroup;
    assert s[i..][..4] == s[i..i + 4] && s[i..][4..] == s[i + 4..];
    var bytes, later := DecodeGroup(s[i..i + 4]), DecodeGroups(s[i + 4..]);
    if bytes.Ok? && later.Ok? {
      assert out + (bytes.value + later.value) == out + bytes.value + later.value;
    }
  }

  /** `decode_base64` */
  method DecodeBase64(input: string) returns (r: Result<seq<byte>, Error>)
    ensures r == Decoded(input)
  {
    hide DecodeGroup, DecodeGroups, WithoutBlanks, PaddedToFour;
    var bare := FilterBlanks(input);
    var clean := PadToFour(bare);
    var out: seq<byte> := [];
    var i := 0;
    NothingBehind(DecodeGroups(clean));
    assert clean[0..] == clean;
    while i + 4 <= |clean|
      invariant i <= |clean|
      invariant DecodeGroups(clean) == Behind(out, DecodeGroups(clean[i..]))
    {
      DecodeGroupsStep(clean, i, out);
      var bytes := ReadGroup(clean[i..i + 4]);
      if bytes.Err? {
        return Err(bytes.error);
      }
      out := out + bytes.value;
      i := i + 4;
    }
    NoGroups(clean[i..]);
    assert out + [] == out;
    return Ok(out);
  }

  lemma NoGroups(s: string)
    requires |s| < 4
    ensures DecodeGroups(s) == Ok([])
  {
  }

  // ---------------------------------------------------------------- round trip

  lemma FourValues(a: char, b: char, c: char, d: char)
    ensures GroupValues([a, b, c, d]) ==
      match GroupValues([a, b, c])
      case Err(error) => Err(error)
      case Ok((values, pad)) =>
        if d == '=' then Ok((values + [0], pad + 1))
        else match DecodeChar(d) case Some(x) => Ok((values + [x], pad)) case None => Err(InvalidCharacter(d))
  {
    assert [a, b, c, d][..3] == [a, b, c];
  }

  lemma OneValue(x: sextet)
    ensures GroupValues([EncodeChar(x)]) == Ok(([x], 0))
  {
    hide EncodeChar, DecodeChar;
    var a := EncodeChar(x);
    var none: seq<sextet> := [];
    assert [a][..0] == "" && GroupValues("") == Ok((none, 0)) && none + [x] == [x];
  }

  lemma TwoValues(x: sextet, y: sextet)
    ensures GroupValues([EncodeChar(x), EncodeChar(y)]) == Ok(([x, y], 0))
  {
    hide EncodeChar, DecodeChar;
    OneValue(x);
    assert [EncodeChar(x), EncodeChar(y)][..1] == [EncodeChar(x)];
    assert [x] + [y] == [x, y];
  }

  lemma ThreeValues(x: sextet, y: sextet, c: char)
    ensures GroupValues([EncodeChar(x), EncodeChar(y), c]) ==
      if c == '=' then Ok(([x, y, 0], 1))
      else match DecodeChar(c) case Some(z) => Ok(([x, y, z], 0)) case None => Err(InvalidCharacter(c))
  {
    hide EncodeChar, DecodeChar;
    TwoValues(x, y);
    assert [EncodeChar(x), EncodeChar(y), c][..2] == [EncodeChar(x), EncodeChar(y)];
    assert [x, y] + [0] == [x, y, 0];
    if DecodeChar(c).Some? {
      assert [x, y] + [DecodeChar(c).value] == [x, y, DecodeChar(c).value];
    }
  }

  lemma DivTwice(t: nat)
    ensures t / 64 / 64 == t / 0x1000 && t / 0x1000 / 64 == t / 0x4_0000
  {
  }

  /** Cutting into six-bit values and joining them again. */
  lemma CutAndJoin(t: nat)
    requires t < 0x100_0000
    ensures Joined(t / 0x4_0000, t / 0x1000 % 64, t / 64 % 64, t % 64) == t
  {
    DivTwice(t);
    var q, r := t / 64, t / 0x1000;
    assert t == q * 64 + t % 64 && q == r * 64 + q % 64 && r == r / 64 * 64 + r % 64;
  }

  lemma Unpacked(a: byte, b: byte, c: byte)
    ensures var t := Packed(a, b, c); t / 0x1_0000 % 0x100 == a && t / 0x100 % 0x100 == b && t % 0x100 == c
  {
    var t := Packed(a, b, c);
    assert t / 0x100 == a * 0x100 + b;
    assert t / 0x1_0000 == a;
  }

  /** The bytes of a group whose values were cut from three bytes. */
  lemma BytesOfGroup(a: byte, b: byte, c: byte, values: seq<sextet>, pad: nat)
    requires var t := Packed(a, b, c); values == [t / 0x4_0000, t / 0x1000 % 64, t / 64 % 64, t % 64]
    ensures GroupBytes(values, pad) == [a] + (if pad < 2 then [b] else []) + (if pad < 1 then [c] else [])
  {
    hide Packed, Joined;
    TripleBounds(a, b, c);
    CutAndJoin(Packed(a, b, c));
    Unpacked(a, b, c);
  }

  lemma FullGroup(a: byte, b: byte, c: byte)
    ensures DecodeGroup(EncodeGroup(a, b, c)) == Ok([a, b, c])
  {
    hide EncodeChar, DecodeChar, GroupValues, Packed, GroupBytes;
    TripleBounds(a, b, c);
    var t := Packed(a, b, c);
    var w, x, y, z: sextet := t / 0x4_0000, t / 0x1000 % 64, t / 64 % 64, t % 64;
    ThreeValues(w, x, EncodeChar(y));
    FourValues(EncodeChar(w), EncodeChar(x), EncodeChar(y), EncodeChar(z));
    assert [w, x, y] + [z] == [w, x, y, z];
    BytesOfGroup(a, b, c, [w, x, y, z], 0);
    assert [a] + [b] + [c] == [a, b, c];
  }

  lemma TwoByteGroup(a: byte, b: byte)
    ensures DecodeGroup(EncodeGroup(a, b, 0)[..3] + "=") == Ok([a, b])
  {
    hide EncodeChar, DecodeChar, GroupValues, Packed, GroupBytes;
    TripleBounds(a, b, 0);
    PackedEndsInZeros(a, b);
    var t := Packed(a, b, 0);
    var w, x, y: sextet := t / 0x4_0000, t / 0x1000 % 64, t / 64 % 64;
    ThreeValues(w, x, EncodeChar(y));
    FourValues(EncodeChar(w), EncodeChar(x), EncodeChar(y), '=');
    var s := EncodeGroup(a, b, 0)[..3] + "=";
    assert s == [EncodeChar(w), EncodeChar(x), EncodeChar(y), '='];
    assert [w, x, y] + [0] == [w, x, y, 0];
    BytesOfGroup(a, b, 0, [w, x, y, 0], 1);
    assert [a] + [b] + [] == [a, b];
  }

  lemma PackedEndsInZeros(a: byte, b: byte)
    ensures Packed(a, b, 0) % 64 == 0 && Packed(a, 0, 0) / 64 % 64 == 0
  {
    assert Packed(a, b, 0) == 64 * (a * 0x400 + b * 4) && Packed(a, 0, 0) == 64 * (64 * (a * 16));
    MultipleOf64(a * 0x400 + b * 4);
    MultipleOf64(64 * (a * 16));
    MultipleOf64(a * 16);
  }

  lemma MultipleOf64(k: int)
    ensures 64 * k % 64 == 0 && 64 * k / 64 == k
  {
  }

  lemma OneByteGroup(a: byte)
    ensures DecodeGroup(EncodeGroup(a, 0, 0)[..2] + "==") == Ok([a])
  {
    hide EncodeChar, DecodeChar, GroupValues, Packed, GroupBytes;
    TripleBounds(a, 0, 0);
    PackedEndsInZeros(a, 0);
    var t := Packed(a, 0, 0);
    var w, x: sextet := t / 0x4_0000, t / 0x1000 % 64;
    ThreeValues(w, x, '=');
    FourValues(EncodeChar(w), EncodeChar(x), '=', '=');
    var s := EncodeGroup(a, 0, 0)[..2] + "==";
    assert s == [EncodeChar(w), EncodeChar(x), '=', '='];
    assert [w, x, 0] + [0] == [w, x, 0, 0];
    BytesOfGroup(a, 0, 0, [w, x, 0, 0], 2);
    assert [a] + [] + [] == [a];
  }

  lemma MissingRepeats(n: nat)
    ensures Missing(n + 4) == Missing(n)
  {
  }

  /** Padding an encoding to a multiple of four gives the padded encoding in either case. */
  lemma {:induction false} EncodeIsPadded(data: seq<byte>, padded: bool)
    ensures PaddedToFour(Encode(data, padded)) == Encode(data, true)
    decreases |data|
  {
    hide EncodeGroup, Padding;
    if |data| >= 3 {
      EncodeIsPadded(data[3..], padded);
      hide Missing;
      MissingRepeats(|Encode(data[3..], padded)|);
      var head := EncodeGroup(data[0], data[1], data[2]);
      assert Encode(data, padded) == head + Encode(data[3..], padded);
    } else {
      ShortIsPadded(data, padded);
    }
  }

  lemma ShortIsPadded(data: seq<byte>, padded: bool)
    requires |data| < 3
    ensures PaddedToFour(Encode(data, padded)) == Encode(data, true)
  {
    hide EncodeGroup;
    var t := EncodeTail(data);
    if padded && data != [] {
      assert t + Padding(4 - |t|) + Padding(0) == t + Padding(4 - |t|);
    } else if data != [] {
      assert t + "" == t;
      assert Missing(|t|) == 4 - |t|;
    } else {
      assert Encode(data, padded) == "" && Encode(data, true) == "";
    }
  }

  lemma OneGroup(s: string)
    requires |s| == 4
    ensures DecodeGroups(s) == DecodeGroup(s)
  {
    hide DecodeGroup;
    assert s[..4] == s && s[4..] == "";
    NoGroups(s[4..]);
    if DecodeGroup(s).Ok? {
      assert DecodeGroup(s).value + [] == DecodeGroup(s).value;
    }
  }

  lemma {:induction false} PaddedRoundTrip(data: seq<byte>)
    ensures DecodeGroups(Encode(data, true)) == Ok(data)
    decreases |data|
  {
    hide EncodeGroup, DecodeGroup;
    var s := Encode(data, true);
    if |data| >= 3 {
      FullGroup(data[0], data[1], data[2]);
      PaddedRoundTrip(data[3..]);
      assert s[..4] == EncodeGroup(data[0], data[1], data[2]) && s[4..] == Encode(data[3..], true);
      assert data == [data[0], data[1], data[2]] + data[3..];
    } else if |data| == 2 {
      TwoByteGroup(data[0], data[1]);
      assert s == EncodeGroup(data[0], data[1], 0)[..3] + "=";
      OneGroup(s);
      assert data == [data[0], data[1]];
    } else if |data| == 1 {
      OneByteGroup(data[0]);
      assert s == EncodeGroup(data[0], 0, 0)[..2] + "==";
      OneGroup(s);
      assert data == [data[0]];
    }
  }

  lemma {:induction false} WithoutBlanksConcat(a: string, b: string)
    ensures WithoutBlanks(a + b) == WithoutBlanks(a) + WithoutBlanks(b)
    decreases |a|
  {
    if a == "" {
      assert a + b == b;
    } else {
      assert (a + b)[1..] == a[1..] + b;
      WithoutBlanksConcat(a[1..], b);
    }
  }

  /** The result depends on the input only through its characters that are not blank: blanks can be
      put in anywhere, any number of them. */
  lemma BlanksDoNotMatter(a: string, b: string)
    requires WithoutBlanks(a) == WithoutBlanks(b)
    ensures Decoded(a) == Decoded(b)
  {
  }

  lemma InsertedBlank(a: string, blank: char, b: string)
    requires IsBlank(blank)
    ensures Decoded(a + [blank] + b) == Decoded(a + b)
  {
    WithoutBlanksConcat(a + [blank], b);
    WithoutBlanksConcat(a, [blank]);
    WithoutBlanksConcat(a, b);
    assert [blank][1..] == "";
    assert WithoutBlanks([blank]) == "";
    BlanksDoNotMatter(a + [blank] + b, a + b);
  }

  lemma {:induction false} NoBlanksToRemove(s: string)
    requires forall i :: 0 <= i < |s| ==> !IsBlank(s[i])
    ensures WithoutBlanks(s) == s
    decreases |s|
  {
    if s != "" {
      NoBlanksToRemove(s[1..]);
    }
  }

  lemma {:induction false} EncodingHasNoBlanks(data: seq<byte>, padded: bool)
    ensures forall i :: 0 <= i < |Encode(data, padded)| ==> !IsBlank(Encode(data, padded)[i])
    decreases |data|
  {
    if |data| >= 3 {
      EncodingHasNoBlanks(data[3..], padded);
    }
  }

  /** Decoding inverts the standard's encoding of every byte sequence, padded or not, with blanks
      anywhere in between. */
  lemma DecodeInvertsEncode(data: seq<byte>, padded: bool, input: string)
    requires WithoutBlanks(input) == Encode(data, padded)
    ensures Decoded(input) == Ok(data)
  {
    hide DecodeGroups, Encode, WithoutBlanks;
    EncodeIsPadded(data, padded);
    PaddedRoundTrip(data);
  }

  /** In particular the encoding itself is decoded. */
  lemma DecodeEncoded(data: seq<byte>, padded: bool)
    ensures Decoded(Encode(data, padded)) == Ok(data)
  {
    hide Encode, WithoutBlanks, Decoded;
    EncodingHasNoBlanks(data, padded);
    NoBlanksToRemove(Encode(data, padded));
    DecodeInvertsEncode(data, padded, Encode(data, padded));
  }

  // ---------------------------------------------------------------- what is rejected

  predicate IsForeign(c: char) {
    c != '=' && DecodeChar(c).None?
  }

  predicate HasForeign(s: string) {
    exists i :: 0 <= i < |s| && IsForeign(s[i])
  }

  lemma HasForeignConcat(a: string, b: string)
    ensures HasForeign(a + b) <==> HasForeign(a) || HasForeign(b)
  {
    hide IsForeign;
    if i :| 0 <= i < |a| && IsForeign(a[i]) {
      assert IsForeign((a + b)[i]);
    }
    if i :| 0 <= i < |b| && IsForeign(b[i]) {
      assert IsForeign((a + b)[|a| + i]);
    }
  }

  lemma {:induction false} GroupRejects(s: string)
    ensures GroupValues(s).Err? <==> HasForeign(s)
    decreases |s|
  {
    hide DecodeChar;
    if s != "" {
      var front, c := s[..|s| - 1], s[|s| - 1];
      GroupRejects(front);
      HasForeignConcat(front, [c]);
      assert s == front + [c];
      assert HasForeign([c]) <==> IsForeign([c][0]);
    }
  }

  lemma {:induction false} GroupsReject(s: string)
    requires |s| % 4 == 0
    ensures DecodeGroups(s).Err? <==> HasForeign(s)
    decreases |s|
  {
    hide HasForeign, GroupValues;
    if |s| >= 4 {
      GroupRejects(s[..4]);
      GroupsReject(s[4..]);
      HasForeignConcat(s[..4], s[4..]);
      assert s == s[..4] + s[4..];
    } else {
      NothingIsForeign(s);
    }
  }

  lemma NothingIsForeign(s: string)
    requires |s| % 4 == 0 && |s| < 4
    ensures !HasForeign(s)
  {
  }

  lemma {:induction false} FilterKeepsForeign(s: string)
    ensures HasForeign(WithoutBlanks(s)) <==> exists i :: 0 <= i < |s| && !IsBlank(s[i]) && IsForeign(s[i])
    decreases |s|
  {
    hide IsForeign, IsBlank;
    if s != "" {
      var head, rest := if IsBlank(s[0]) then "" else [s[0]], s[1..];
      FilterKeepsForeign(rest);
      HasForeignConcat(head, WithoutBlanks(rest));
      assert head != "" ==> (HasForeign(head) <==> IsForeign(head[0]));
      if i :| 0 <= i < |s| && !IsBlank(s[i]) && IsForeign(s[i]) {
        assert i > 0 ==> rest[i - 1] == s[i];
      }
      if i :| 0 <= i < |rest| && !IsBlank(rest[i]) && IsForeign(rest[i]) {
        assert s[i + 1] == rest[i];
      }
    }
  }

  /** An input is rejected exactly when it has a character that is neither blank, nor padding, nor in
      the alphabet. Padding in the middle is accepted. */
  lemma RejectsExactly(input: string)
    ensures Decoded(input).Err? <==> exists i :: 0 <= i < |input| && !IsBlank(input[i]) && IsForeign(input[i])
  {
    hide IsForeign, IsBlank, DecodeGroups, HasForeign, WithoutBlanks;
    var bare := WithoutBlanks(input);
    FilterKeepsForeign(input);
    HasForeignConcat(bare, Padding(Missing(|bare|)));
    PaddingIsNotForeign(Missing(|bare|));
    GroupsReject(PaddedToFour(bare));
  }

  lemma PaddingIsNotForeign(n: nat)
    ensures !HasForeign(Padding(n))
  {
  }

  // ---------------------------------------------------------------- which inputs are encodings

  /** The value of a character; zero for padding. */
  function CharValue(c: char): sextet {
    DecodeChar(c).GetOr(0)
  }

  /** Padding stands only at the end, at most twice, and the bits in front of it that stand for no byte
      are zero. */
  predicate IsCanonical(t: string) {
    && |t| % 4 == 0 && !HasForeign(t)
    && (forall i :: 0 <= i < |t| && t[i] == '=' ==> i >= |t| - 2 && (i + 1 < |t| ==> t[i + 1] == '='))
    && (|t| > 0 && t[|t| - 1] == '=' ==>
          if t[|t| - 2] == '=' then CharValue(t[|t| - 3]) % 16 == 0 else CharValue(t[|t| - 2]) % 4 == 0)
  }

  lemma EncodeDecodeChar(c: char)
    requires DecodeChar(c).Some?
    ensures EncodeChar(CharValue(c)) == c
  {
  }

  /** Joining six-bit values and cutting them apart again. */
  lemma JoinAndCut(w: sextet, x: sextet, y: sextet, z: sextet)
    ensures var t := Joined(w, x, y, z);
            0 <= t < 0x100_0000 && t / 0x4_0000 == w && t / 0x1000 % 64 == x && t / 64 % 64 == y && t % 64 == z
  {
    var t := Joined(w, x, y, z);
    assert t / 64 == w * 0x1000 + x * 64 + y && t % 64 == z;
    assert t / 64 / 64 == w * 64 + x && t / 64 / 64 / 64 == w;
    DivTwice(t);
  }

  /** The three bytes of a 24-bit number. */
  lemma ThreeBytes(t: nat)
    requires t < 0x100_0000
    ensures Packed(t / 0x1_0000 % 0x100, t / 0x100 % 0x100, t % 0x100) == t
    ensures t / 0x1_0000 % 0x100 == t / 0x1_0000
  {
    var q := t / 0x100;
    assert t == 0x100 * q + t % 0x100 && q == 0x100 * (q / 0x100) + q % 0x100 && q / 0x100 == t / 0x1_0000;
  }

  /** Four characters of the alphabet are the encoding of the bytes they stand for. */
  lemma GroupIsEncoding(g: string) returns (a: byte, b: byte, c: byte)
    requires |g| == 4 && forall i :: 0 <= i < 4 ==> DecodeChar(g[i]).Some?
    ensures EncodeGroup(a, b, c) == g
    ensures CharValue(g[2]) % 4 == 0 && CharValue(g[3]) == 0 ==> c == 0
    ensures CharValue(g[1]) % 16 == 0 && CharValue(g[2]) == 0 && CharValue(g[3]) == 0 ==> b == 0 && c == 0
  {
    hide EncodeChar, DecodeChar, CharValue, Packed, Joined;
    var w, x, y, z := CharValue(g[0]), CharValue(g[1]), CharValue(g[2]), CharValue(g[3]);
    var t := Joined(w, x, y, z);
    JoinAndCut(w, x, y, z);
    ThreeBytes(t);
    a, b, c := t / 0x1_0000 % 0x100, t / 0x100 % 0x100, t % 0x100;
    UnusedBits(w, x, y, z);
    EncodeDecodeChar(g[0]);
    EncodeDecodeChar(g[1]);
    EncodeDecodeChar(g[2]);
    EncodeDecodeChar(g[3]);
    TripleBounds(a, b, c);
    assert EncodeGroup(a, b, c) == [g[0], g[1], g[2], g[3]];
  }

  lemma UnusedBits(w: sextet, x: sextet, y: sextet, z: sextet)
    ensures y % 4 == 0 && z == 0 ==> Joined(w, x, y, z) % 0x100 == 0
    ensures x % 16 == 0 && y == 0 && z == 0 ==> Joined(w, x, y, z) / 0x100 % 0x100 == 0
  {
    if y % 4 == 0 && z == 0 {
      assert Joined(w, x, y, z) == 0x100 * (w * 0x400 + x * 16 + y / 4);
    }
    if x % 16 == 0 && y == 0 && z == 0 {
      assert Joined(w, x, y, z) == 0x100 * (0x100 * (w * 4 + x / 16));
    }
  }

  /** A last group with padding, read with zeros in its place. */
  lemma LastGroupIsEncoding(t: string) returns (d: seq<byte>)
    requires IsCanonical(t) && |t| == 4 && t[3] == '='
    ensures Encode(d, true) == t
  {
    var g := if t[2] == '=' then [t[0], t[1], 'A', 'A'] else [t[0], t[1], t[2], 'A'];
    assert forall i :: 0 <= i < 4 && t[i] != '=' ==> !IsForeign(t[i]);
    var a, b, c := GroupIsEncoding(g);
    hide EncodeGroup;
    if t[2] == '=' {
      d := [a];
      assert Encode(d, true) == EncodeGroup(a, 0, 0)[..2] + "==";
      assert t == t[..2] + "==";
    } else {
      d := [a, b];
      assert Encode(d, true) == EncodeGroup(a, b, 0)[..3] + "=";
      assert t == t[..3] + "=";
    }
  }

  lemma CanonicalTail(t: string)
    requires IsCanonical(t) && |t| >= 4 && (|t| > 4 || t[3] != '=')
    ensures IsCanonical(t[4..]) && forall i :: 0 <= i < 4 ==> DecodeChar(t[i]).Some?
  {
    hide DecodeChar;
    assert t == t[..4] + t[4..];
    HasForeignConcat(t[..4], t[4..]);
    assert forall i :: 0 <= i < 4 ==> t[i] != '=';
    assert forall i :: 0 <= i < 4 ==> !IsForeign(t[i]);
    var u := t[4..];
    assert forall i :: 0 <= i < |u| ==> u[i] == t[i + 4];
  }

  lemma {:induction false} CanonicalIsEncoding(t: string) returns (d: seq<byte>)
    requires IsCanonical(t)
    ensures Encode(d, true) == t
    decreases |t|
  {
    hide IsCanonical, EncodeGroup;
    if t == "" {
      d := [];
    } else {
      CanonicalIsFours(t);
      if |t| == 4 && t[3] == '=' {
        d := LastGroupIsEncoding(t);
      } else {
        CanonicalTail(t);
        var a, b, c := GroupIsEncoding(t[..4]);
        var later := CanonicalIsEncoding(t[4..]);
        d := [a, b, c] + later;
        assert d[3..] == later && t == t[..4] + t[4..];
      }
    }
  }

  lemma CanonicalIsFours(t: string)
    requires IsCanonical(t) && t != ""
    ensures |t| >= 4
  {
  }

  /** Encodings are canonical. */
  lemma {:induction false} EncodingIsCanonical(data: seq<byte>)
    ensures IsCanonical(Encode(data, true))
    decreases |data|
  {
    hide IsCanonical, EncodeGroup;
    if |data| >= 3 {
      EncodingIsCanonical(data[3..]);
      GroupIsAlphabet(data[0], data[1], data[2]);
      CanonicalBehind(EncodeGroup(data[0], data[1], data[2]), Encode(data[3..], true));
    } else if |data| == 2 {
      assert Encode(data, true) == EncodeGroup(data[0], data[1], 0)[..3] + "=";
      TwoBytesAreCanonical(data[0], data[1]);
    } else if |data| == 1 {
      assert Encode(data, true) == EncodeGroup(data[0], 0, 0)[..2] + "==";
      OneByteIsCanonical(data[0]);
    } else {
      NothingIsCanonical();
    }
  }

  lemma NothingIsCanonical()
    ensures IsCanonical("")
  {
  }

  lemma GroupIsAlphabet(a: byte, b: byte, c: byte)
    ensures forall i :: 0 <= i < 4 ==> DecodeChar(EncodeGroup(a, b, c)[i]).Some? && EncodeGroup(a, b, c)[i] != '='
  {
    hide EncodeChar, DecodeChar;
    TripleBounds(a, b, c);
  }

  lemma CanonicalBehind(g: string, t: string)
    requires |g| == 4 && (forall i :: 0 <= i < 4 ==> DecodeChar(g[i]).Some? && g[i] != '=') && IsCanonical(t)
    ensures IsCanonical(g + t)
  {
    hide DecodeChar;
    HasForeignConcat(g, t);
    var u := g + t;
    assert forall i :: 4 <= i < |u| ==> u[i] == t[i - 4];
    assert forall i :: 0 <= i < 4 ==> u[i] == g[i];
  }

  /** The values of the second and third character of a group. */
  lemma MiddleValues(a: byte, b: byte, c: byte)
    ensures CharValue(EncodeGroup(a, b, c)[1]) == Packed(a, b, c) / 0x1000 % 64
    ensures CharValue(EncodeGroup(a, b, c)[2]) == Packed(a, b, c) / 64 % 64
  {
    hide EncodeChar, DecodeChar, Packed;
    TripleBounds(a, b, c);
  }

  lemma LowBitsAreZero(a: byte, b: byte)
    ensures Packed(a, b, 0) / 64 % 64 % 4 == 0 && Packed(a, 0, 0) / 0x1000 % 64 % 16 == 0
  {
    assert Packed(a, b, 0) == 64 * (4 * (a * 0x100 + b)) && Packed(a, 0, 0) == 64 * (64 * (16 * a));
    MultipleOf64(4 * (a * 0x100 + b));
    MultipleOf64(64 * (16 * a));
    MultipleOf64(16 * a);
    hide Packed;
    DivTwice(Packed(a, 0, 0));
    FourthOf64(a * 0x100 + b);
    QuarterOf64(a);
  }

  lemma FourthOf64(k: nat)
    ensures 4 * k % 64 % 4 == 0
  {
    assert 4 * k == 64 * (k / 16) + 4 * (k % 16);
  }

  lemma QuarterOf64(k: nat)
    ensures 16 * k % 64 % 16 == 0
  {
    assert 16 * k == 64 * (k / 4) + 16 * (k % 4);
  }

  /** A group with padding at its end. */
  lemma PaddedGroupIsCanonical(t: string)
    requires |t| == 4 && DecodeChar(t[0]).Some? && DecodeChar(t[1]).Some? && t[0] != '=' && t[1] != '=' && t[3] == '='
    requires
      || (t[2] == '=' && CharValue(t[1]) % 16 == 0)
      || (t[2] != '=' && DecodeChar(t[2]).Some? && CharValue(t[2]) % 4 == 0)
    ensures IsCanonical(t)
  {
    hide DecodeChar, CharValue;
    assert forall i :: 0 <= i < 4 ==> !IsForeign(t[i]);
  }

  lemma TwoBytesAreCanonical(a: byte, b: byte)
    ensures IsCanonical(EncodeGroup(a, b, 0)[..3] + "=")
  {
    hide EncodeGroup, IsCanonical, DecodeChar, CharValue, Packed;
    GroupIsAlphabet(a, b, 0);
    MiddleValues(a, b, 0);
    LowBitsAreZero(a, b);
    var g, t := EncodeGroup(a, b, 0), EncodeGroup(a, b, 0)[..3] + "=";
    assert t[0] == g[0] && t[1] == g[1] && t[2] == g[2] && t[3] == '=';
    PaddedGroupIsCanonical(t);
  }

  lemma OneByteIsCanonical(a: byte)
    ensures IsCanonical(EncodeGroup(a, 0, 0)[..2] + "==")
  {
    hide EncodeGroup, IsCanonical, DecodeChar, CharValue, Packed;
    GroupIsAlphabet(a, 0, 0);
    MiddleValues(a, 0, 0);
    LowBitsAreZero(a, 0);
    var g, t := EncodeGroup(a, 0, 0), EncodeGroup(a, 0, 0)[..2] + "==";
    assert t[0] == g[0] && t[1] == g[1] && t[2] == '=' && t[3] == '=';
    PaddedGroupIsCanonical(t);
  }

  /** Among the inputs that are accepted, the encodings are exactly those that are canonical once blanks
      are taken out and padding is completed. */
  lemma EncodingsExactly(input: string)
    ensures var t := PaddedToFour(WithoutBlanks(input));
            IsCanonical(t) <==> Decoded(input).Ok? && Encode(Decoded(input).value, true) == t
  {
    hide IsCanonical, Encode, DecodeGroups, WithoutBlanks, PaddedToFour;
    var t := PaddedToFour(WithoutBlanks(input));
    if IsCanonical(t) {
      var d := CanonicalIsEncoding(t);
      PaddedRoundTrip(d);
    }
    if Decoded(input).Ok? && Encode(Decoded(input).value, true) == t {
      EncodingIsCanonical(Decoded(input).value);
    }
  }

  lemma GapGroup()
    ensures GroupBytes([0, 1, 0, 2], 1) == [0, 0x10]
  {
    assert Packed(0, 0x10, 2) == 0x1002;
    hide GroupBytes, Packed;
    BytesOfGroup(0, 0x10, 2, [0, 1, 0, 2], 1);
    assert [0] + [0x10] + [] == [0, 0x10];
  }

  lemma OneBitGroup()
    ensures GroupBytes([0, 1, 0, 0], 2) == [0]
  {
    assert Packed(0, 0x10, 0) == 0x1000;
    hide GroupBytes, Packed;
    BytesOfGroup(0, 0x10, 0, [0, 1, 0, 0], 2);
    assert [0] + [] + [] == [0];
  }

  lemma PaddingTooEarly(t: string, i: nat)
    requires i + 1 < |t| && t[i] == '=' && t[i + 1] != '='
    ensures !IsCanonical(t)
  {
  }

  /** Padding inside is accepted although nothing is encoded so. */
  lemma PaddingInside()
    ensures Decoded("AB=C") == Ok([0, 0x10]) && !IsCanonical("AB=C")
  {
    GapGroup();
    hide Decoded, IsCanonical, GroupBytes;
    assert "AB=C"[2] == '=' && "AB=C"[3] != '=';
    PaddingTooEarly("AB=C", 2);
    DecodedFour('A', 'B', '=', 'C');
    assert ['A', 'B', '=', 'C'] == "AB=C";
  }

  /** So are bits that belong to no byte. */
  lemma BitsBehind()
    ensures Decoded("AB==") == Ok([0]) && !IsCanonical("AB==")
  {
    OneBitGroup();
    hide Decoded, HasForeign, GroupBytes;
    DecodedFour('A', 'B', '=', '=');
    assert ['A', 'B', '=', '='] == "AB==";
    assert "AB=="[3] == '=' && "AB=="[2] == '=' && CharValue("AB=="[1]) == 1;
  }

  lemma GroupOf(a: char, b: char, c: char, d: char)
    requires !IsForeign(a) && !IsForeign(b) && !IsForeign(c) && !IsForeign(d)
    ensures var pad := (if a == '=' then 1 else 0) + (if b == '=' then 1 else 0) + (if c == '=' then 1 else 0) + (if d == '=' then 1 else 0);
            DecodeGroup([a, b, c, d]) == Ok(GroupBytes([CharValue(a), CharValue(b), CharValue(c), CharValue(d)], pad))
  {
    hide DecodeChar, GroupBytes, GroupValues;
    assert "" + [a] == [a] && [a] + [b] == [a, b] && [a, b] + [c] == [a, b, c] && [a, b, c] + [d] == [a, b, c, d];
    NoValues();
    ValueAppended("", a);
    ValueAppended([a], b);
    ValueAppended([a, b], c);
    ValueAppended([a, b, c], d);
    var w, x, y, z := CharValue(a), CharValue(b), CharValue(c), CharValue(d);
    assert [] + [w] == [w] && [w] + [x] == [w, x] && [w, x] + [y] == [w, x, y] && [w, x, y] + [z] == [w, x, y, z];
  }

  lemma NoValues()
    ensures GroupValues("") == Ok(([], 0))
  {
  }

  lemma ValueAppended(s: string, c: char)
    requires !IsForeign(c) && GroupValues(s).Ok?
    ensures GroupValues(s + [c]) == Ok((GroupValues(s).value.0 + [CharValue(c)], GroupValues(s).value.1 + if c == '=' then 1 else 0))
  {
    assert (s + [c])[..|s|] == s;
  }

  lemma DecodedFour(a: char, b: char, c: char, d: char)
    requires !IsBlank(a) && !IsBlank(b) && !IsBlank(c) && !IsBlank(d)
    requires !IsForeign(a) && !IsForeign(b) && !IsForeign(c) && !IsForeign(d)
    ensures var pad := (if a == '=' then 1 else 0) + (if b == '=' then 1 else 0) + (if c == '=' then 1 else 0) + (if d == '=' then 1 else 0);
            Decoded([a, b, c, d]) == Ok(GroupBytes([CharValue(a), CharValue(b), CharValue(c), CharValue(d)], pad))
  {
    hide DecodeChar, IsBlank, GroupBytes, DecodeGroup;
    var s := [a, b, c, d];
    NoBlanksToRemove(s);
    assert s + "" == s;
    OneGroup(s);
    GroupOf(a, b, c, d);
  }
}
