/** Bytes as characters: UTF-8 and white space in terms of the Unicode scalar values a text stands for
    (section 3 of RFC 3629). */
module Unicode {
  import opened Bytes
  import opened Utf8

  predicate IsScalar(c: nat) {
    c <= 0x10FFFF && !(0xD800 <= c <= 0xDFFF)
  }

  function Encoded(c: nat): (s: string)
    requires IsScalar(c)
    ensures 1 <= |s| <= 4
  {
    if c < 0x80 then [c as char]
    else if c < 0x800 then [(0xC0 + c / 0x40) as char, (0x80 + c % 0x40) as char]
    else if c < 0x1_0000 then [(0xE0 + c / 0x1000) as char, (0x80 + c / 0x40 % 0x40) as char, (0x80 + c % 0x40) as char]
    else [(0xF0 + c / 0x4_0000) as char, (0x80 + c / 0x1000 % 0x40) as char, (0x80 + c / 0x40 % 0x40) as char, (0x80 + c % 0x40) as char]
  }

  predicate AreScalars(text: seq<nat>) {
    forall k :: 0 <= k < |text| ==> IsScalar(text[k])
  }

  function EncodedAll(text: seq<nat>): string
    requires AreScalars(text)
  {
    if text == [] then "" else Encoded(text[0]) + EncodedAll(text[1..])
  }

  // ---------------------------------------------------------------- well-formedness

  /** The bytes of an encoding are in the ranges of a well-formed sequence. */
  lemma EncodedBytes(c: nat)
    requires IsScalar(c)
    ensures var e := Encoded(c);
            || (|e| == 1 && e[0] as int < 0x80)
            || (|e| == 2 && 0xC2 <= e[0] as int <= 0xDF && Continuation(e[1]))
            || (|e| == 3 && 0xE0 <= e[0] as int <= 0xEF && SecondOfThree(e[0] as int, e[1] as int) && Continuation(e[2]))
            || (|e| == 4 && 0xF0 <= e[0] as int <= 0xF4 && SecondOfFour(e[0] as int, e[1] as int) && Continuation(e[2]) && Continuation(e[3]))
  {
  }

  lemma SequenceOf(c: nat, rest: string)
    requires IsScalar(c)
    ensures SequenceLen(Encoded(c) + rest) == |Encoded(c)|
  {
    EncodedBytes(c);
    hide Encoded;
    var s := Encoded(c) + rest;
    assert forall i :: 0 <= i < |Encoded(c)| ==> s[i] == Encoded(c)[i];
  }

  /** The scalar value a well-formed sequence stands for. */
  lemma ScalarOf(s: string) returns (c: nat)
    requires s != "" && SequenceLen(s) > 0
    ensures IsScalar(c) && Encoded(c) == s[..SequenceLen(s)]
  {
    var n, a := SequenceLen(s), s[0] as int;
    if n == 1 {
      c := a;
    } else if n == 2 {
      c := (a - 0xC0) * 0x40 + (s[1] as int - 0x80);
    } else if n == 3 {
      c := ThreeBytes(s);
    } else {
      c := FourBytes(s);
    }
  }

  lemma ThreeBytes(s: string) returns (c: nat)
    requires |s| >= 3 && 0xE0 <= s[0] as int <= 0xEF && SecondOfThree(s[0] as int, s[1] as int) && Continuation(s[2])
    ensures IsScalar(c) && Encoded(c) == s[..3]
  {
    c := (s[0] as int - 0xE0) * 0x1000 + (s[1] as int - 0x80) * 0x40 + (s[2] as int - 0x80);
    Digits64(0, s[0] as int - 0xE0, s[1] as int - 0x80, s[2] as int - 0x80);
  }

  lemma FourBytes(s: string) returns (c: nat)
    requires |s| >= 4 && 0xF0 <= s[0] as int <= 0xF4 && SecondOfFour(s[0] as int, s[1] as int) && Continuation(s[2]) && Continuation(s[3])
    ensures IsScalar(c) && Encoded(c) == s[..4]
  {
    c := (s[0] as int - 0xF0) * 0x4_0000 + (s[1] as int - 0x80) * 0x1000 + (s[2] as int - 0x80) * 0x40 + (s[3] as int - 0x80);
    Digits64(s[0] as int - 0xF0, s[1] as int - 0x80, s[2] as int - 0x80, s[3] as int - 0x80);
  }

  /** Four digits to the base 64. */
  lemma Digits64(w: nat, x: nat, y: nat, z: nat)
    requires x < 0x40 && y < 0x40 && z < 0x40
    ensures var c := w * 0x4_0000 + x * 0x1000 + y * 0x40 + z;
            && c / 0x4_0000 == w && c / 0x1000 % 0x40 == x && c / 0x40 % 0x40 == y && c % 0x40 == z
            && (w == 0 ==> c / 0x1000 == x)
  {
    var c := w * 0x4_0000 + x * 0x1000 + y * 0x40 + z;
    assert c / 0x40 == w * 0x1000 + x * 0x40 + y;
    assert c / 0x1000 == w * 0x40 + x;
  }

  lemma {:induction false} EncodedIsValid(text: seq<nat>)
    requires AreScalars(text)
    ensures Valid(EncodedAll(text))
    decreases |text|
  {
    hide Encoded, SequenceLen;
    if text != [] {
      SequenceOf(text[0], EncodedAll(text[1..]));
      EncodedIsValid(text[1..]);
      assert EncodedAll(text)[|Encoded(text[0])|..] == EncodedAll(text[1..]);
    }
  }

  lemma {:induction false} ValidIsEncoded(s: string) returns (text: seq<nat>)
    requires Valid(s)
    ensures AreScalars(text) && EncodedAll(text) == s
    decreases |s|
  {
    hide Encoded, SequenceLen;
    if s == "" {
      text := [];
    } else {
      var c := ScalarOf(s);
      var rest := ValidIsEncoded(s[SequenceLen(s)..]);
      text := [c] + rest;
      assert text[1..] == rest && s == s[..SequenceLen(s)] + s[SequenceLen(s)..];
    }
  }

  /** A byte string is well formed exactly if it is the encoding of some text. */
  lemma ValidExactly(s: string)
    ensures Valid(s) <==> exists text :: AreScalars(text) && s == EncodedAll(text)
  {
    hide Valid, EncodedAll;
    if Valid(s) {
      var text := ValidIsEncoded(s);
    }
    if text :| AreScalars(text) && s == EncodedAll(text) {
      EncodedIsValid(text);
    }
  }

  // ---------------------------------------------------------------- white space

  /** The characters with the property White_Space. */
  predicate IsSpace(c: nat) {
    || 9 <= c <= 13 || c == 0x20 || c == 0x85 || c == 0xA0 || c == 0x1680 || 0x2000 <= c <= 0x200A
    || c == 0x2028 || c == 0x2029 || c == 0x202F || c == 0x205F || c == 0x3000
  }

  lemma SpaceExactly(c: nat, rest: string)
    requires IsScalar(c)
    ensures WhitespaceLen(Encoded(c) + rest, 0) == if IsSpace(c) then |Encoded(c)| else 0
  {
    var s := Encoded(c) + rest;
    assert forall i :: 0 <= i < |Encoded(c)| ==> s[i] == Encoded(c)[i];
  }

  // ---------------------------------------------------------------- trimming

  lemma {:induction false} EncodedConcat(a: seq<nat>, b: seq<nat>)
    requires AreScalars(a) && AreScalars(b)
    ensures AreScalars(a + b) && EncodedAll(a + b) == EncodedAll(a) + EncodedAll(b)
    decreases |a|
  {
    hide Encoded;
    if a == [] {
      assert a + b == b;
    } else {
      EncodedConcat(a[1..], b);
      assert (a + b)[1..] == a[1..] + b;
    }
  }

  predicate AreSpaces(text: seq<nat>) {
    forall k :: 0 <= k < |text| ==> IsSpace(text[k])
  }

  lemma SpaceBehind(front: string, c: nat, rest: string)
    requires IsScalar(c)
    ensures WhitespaceLen(front + Encoded(c) + rest, |front|) == if IsSpace(c) then |Encoded(c)| else 0
  {
    hide Encoded, WhitespaceLen;
    var s := front + Encoded(c) + rest;
    SpaceExactly(c, rest);
    assert s[|front|..] == Encoded(c) + rest;
    SuffixHasSpace(s, |front|);
  }

  lemma SuffixHasSpace(s: string, k: nat)
    requires k < |s|
    ensures WhitespaceLen(s[k..], 0) == WhitespaceLen(s, k)
  {
  }

  /** All spaces in front are skipped. */
  lemma {:induction false} SpacesAreSkipped(front: string, spaces: seq<nat>, rest: string)
    requires AreScalars(spaces) && AreSpaces(spaces) && (rest != "" ==> WhitespaceLen(rest, 0) == 0)
    ensures SkipWhitespace(front + EncodedAll(spaces) + rest, |front|) == |front + EncodedAll(spaces)|
    decreases |spaces|
  {
    hide Encoded, WhitespaceLen;
    var s := front + EncodedAll(spaces) + rest;
    if spaces == [] {
      assert s == front + rest && s[|front|..] == rest;
      if rest != "" {
        SuffixHasSpace(s, |front|);
      }
    } else {
      var c, more := spaces[0], EncodedAll(spaces[1..]);
      assert s == front + Encoded(c) + (more + rest);
      SpaceBehind(front, c, more + rest);
      SpacesAreSkipped(front + Encoded(c), spaces[1..], rest);
      assert s == front + Encoded(c) + more + rest;
    }
  }

  /** The bytes of the spaces. */
  lemma SpaceBytes(c: nat)
    requires IsScalar(c) && IsSpace(c)
    ensures var e := Encoded(c);
            || (|e| == 1 && (9 <= e[0] as int <= 13 || e[0] as int == 32))
            || (|e| == 2 && e[0] as int == 0xC2 && (e[1] as int == 0x85 || e[1] as int == 0xA0))
            || (|e| == 3 && IsWideSpace(e[0] as int, e[1] as int, e[2] as int))
  {
  }

  lemma SpaceIsCut(front: string, e: string)
    requires
      || (|e| == 1 && (9 <= e[0] as int <= 13 || e[0] as int == 32))
      || (|e| == 2 && e[0] as int == 0xC2 && (e[1] as int == 0x85 || e[1] as int == 0xA0))
      || (|e| == 3 && IsWideSpace(e[0] as int, e[1] as int, e[2] as int))
    ensures TrimEnd(front + e) == TrimEnd(front)
  {
    hide TrimEnd;
    var s := front + e;
    assert s[..|s| - |e|] == front;
    assert s[|s| - 1] == e[|e| - 1] && (|e| > 1 ==> s[|s| - 2] == e[|e| - 2]) && (|e| > 2 ==> s[|s| - 3] == e[|e| - 3]);
    TrimOnce(s, |e|);
  }

  /** One step of the trimming. */
  lemma TrimOnce(s: string, n: nat)
    requires 1 <= n <= 3 && n <= |s| && WhitespaceLen(s, |s| - n) == n
    requires (n >= 2 ==> WhitespaceLen(s, |s| - 1) != 1) && (n == 3 ==> WhitespaceLen(s, |s| - 2) != 2)
    ensures TrimEnd(s) == TrimEnd(s[..|s| - n])
  {
    hide WhitespaceLen, TrimEnd;
    if n == 1 {
      TrimOneByte(s);
    } else if n == 2 {
      TrimTwoBytes(s);
    } else {
      TrimThreeBytes(s);
    }
  }

  lemma TrimOneByte(s: string)
    requires |s| >= 1 && WhitespaceLen(s, |s| - 1) == 1
    ensures TrimEnd(s) == TrimEnd(s[..|s| - 1])
  {
    hide WhitespaceLen;
  }

  lemma TrimTwoBytes(s: string)
    requires |s| >= 2 && WhitespaceLen(s, |s| - 1) != 1 && WhitespaceLen(s, |s| - 2) == 2
    ensures TrimEnd(s) == TrimEnd(s[..|s| - 2])
  {
    hide WhitespaceLen;
  }

  lemma TrimThreeBytes(s: string)
    requires |s| >= 3 && WhitespaceLen(s, |s| - 1) != 1 && WhitespaceLen(s, |s| - 2) != 2 && WhitespaceLen(s, |s| - 3) == 3
    ensures TrimEnd(s) == TrimEnd(s[..|s| - 3])
  {
    hide WhitespaceLen;
  }

  /** A space at the end goes. */
  lemma SpaceIsTrimmed(front: string, c: nat)
    requires IsScalar(c) && IsSpace(c)
    ensures TrimEnd(front + Encoded(c)) == TrimEnd(front)
  {
    hide Encoded, TrimEnd;
    SpaceBytes(c);
    SpaceIsCut(front, Encoded(c));
  }

  /** Any other character at the end stays, with everything in front of it. */
  lemma InkStays(front: string, c: nat)
    requires IsScalar(c) && !IsSpace(c)
    ensures TrimEnd(front + Encoded(c)) == front + Encoded(c)
  {
    var s, e := front + Encoded(c), Encoded(c);
    SpaceBehind(front, c, "");
    assert s + "" == s;
    assert forall i :: 0 <= i < |e| ==> s[|front| + i] == e[i];
  }

  lemma EncodedLast(text: seq<nat>)
    requires AreScalars(text) && text != []
    ensures var front, last := text[..|text| - 1], text[|text| - 1];
            EncodedAll(text) == EncodedAll(front) + Encoded(last)
  {
    hide Encoded;
    var front, last := text[..|text| - 1], text[|text| - 1];
    assert text == front + [last];
    EncodedConcat(front, [last]);
    assert EncodedAll([last]) == Encoded(last) + EncodedAll([]);
  }

  lemma {:induction false} SpacesAreTrimmed(core: seq<nat>, spaces: seq<nat>)
    requires AreScalars(core) && AreScalars(spaces) && AreSpaces(spaces)
    requires core != [] && !IsSpace(core[|core| - 1])
    ensures TrimEnd(EncodedAll(core) + EncodedAll(spaces)) == EncodedAll(core)
    decreases |spaces|
  {
    hide Encoded, TrimEnd;
    if spaces == [] {
      EncodedLast(core);
      InkStays(EncodedAll(core[..|core| - 1]), core[|core| - 1]);
      assert EncodedAll(core) + "" == EncodedAll(core);
    } else {
      var less := spaces[..|spaces| - 1];
      EncodedLast(spaces);
      SpacesAreTrimmed(core, less);
      SpaceIsTrimmed(EncodedAll(core) + EncodedAll(less), spaces[|spaces| - 1]);
      assert EncodedAll(core) + EncodedAll(spaces) == EncodedAll(core) + EncodedAll(less) + Encoded(spaces[|spaces| - 1]);
    }
  }

  lemma InkComesFirst(core: seq<nat>, rest: string)
    requires AreScalars(core) && core != [] && !IsSpace(core[0])
    ensures EncodedAll(core) + rest != "" && WhitespaceLen(EncodedAll(core) + rest, 0) == 0
  {
    hide Encoded, WhitespaceLen;
    SpaceExactly(core[0], EncodedAll(core[1..]) + rest);
    assert Encoded(core[0]) + (EncodedAll(core[1..]) + rest) == EncodedAll(core) + rest;
  }

  /** Trimming a text takes the spaces at its ends, and nothing else. */
  lemma TrimExactly(front: seq<nat>, core: seq<nat>, back: seq<nat>)
    requires AreScalars(front) && AreScalars(core) && AreScalars(back) && AreSpaces(front) && AreSpaces(back)
    requires core != [] && !IsSpace(core[0]) && !IsSpace(core[|core| - 1])
    ensures Trim(EncodedAll(front) + EncodedAll(core) + EncodedAll(back)) == EncodedAll(core)
  {
    hide Encoded, TrimEnd, WhitespaceLen, SkipWhitespace, EncodedAll, Trim;
    InkComesFirst(core, EncodedAll(back));
    SpacesAreSkipped("", front, EncodedAll(core) + EncodedAll(back));
    SpacesAreTrimmed(core, back);
    TrimOfParts(EncodedAll(front), EncodedAll(core), EncodedAll(back));
  }

  lemma TrimOfParts(front: string, core: string, back: string)
    requires SkipWhitespace("" + front + (core + back), |""|) == |"" + front| && TrimEnd(core + back) == core
    ensures Trim(front + core + back) == core
  {
    hide TrimEnd, SkipWhitespace;
    assert "" + front + (core + back) == front + core + back && |"" + front| == |front|;
    assert (front + core + back)[|front|..] == core + back;
  }

  lemma OnlySpaces(text: seq<nat>)
    requires AreScalars(text) && AreSpaces(text)
    ensures Trim(EncodedAll(text)) == ""
  {
    hide Encoded, WhitespaceLen, EncodedAll, SkipWhitespace;
    SpacesAreSkipped("", text, "");
    assert "" + EncodedAll(text) + "" == EncodedAll(text) && "" + EncodedAll(text) == EncodedAll(text);
  }
}
