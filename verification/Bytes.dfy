/** Byte-string vocabulary shared by the text-processing modules.

    A byte string is a `string` in which every character stands for one byte (code 0 to 255),
    so that ASCII literals can be written as they are in the gateway. */
module Bytes {

  datatype Option<+T> = None | Some(value: T) {
    /** `unwrap_or` */
    function GetOr(default: T): T {
      match this case Some(v) => v case None => default
    }
  }

  datatype Result<+T, +E> = Ok(value: T) | Err(error: E)

  /** A byte of a binary format. */
  type byte = x: int | 0 <= x < 256

  const USIZE_MAX := 0xFFFF_FFFF_FFFF_FFFF

  function Min(a: nat, b: nat): nat {
    if a <= b then a else b
  }

  predicate Distinct(s: seq<string>) {
    forall i, j :: 0 <= i < j < |s| ==> s[i] != s[j]
  }

  // ---------------------------------------------------------------- results that are put together

  /** `more` with `front` in front of it. */
  function Behind<T, E>(front: seq<T>, more: Result<seq<T>, E>): Result<seq<T>, E> {
    match more case Err(error) => Err(error) case Ok(rest) => Ok(front + rest)
  }

  lemma NothingBehind<T, E>(more: Result<seq<T>, E>)
    ensures Behind([], more) == more
  {
    if more.Ok? {
      assert [] + more.value == more.value;
    }
  }

  lemma BehindTwice<T, E>(a: seq<T>, b: seq<T>, more: Result<seq<T>, E>)
    ensures Behind(a, Behind(b, more)) == Behind(a + b, more)
  {
    if more.Ok? {
      assert a + (b + more.value) == (a + b) + more.value;
    }
  }

  /** ASCII lower-casing of one byte: `u8::to_ascii_lowercase`. */
  function LowerChar(c: char): char {
    if 'A' <= c <= 'Z' then (c as int + 32) as char else c
  }

  function Lower(s: string): (r: string)
    ensures |r| == |s|
    ensures forall i :: 0 <= i < |s| ==> r[i] == LowerChar(s[i])
  {
    seq(|s|, i requires 0 <= i < |s| => LowerChar(s[i]))
  }

  /** `eq_ignore_ascii_case` */
  predicate SameUpToCase(a: string, b: string) {
    Lower(a) == Lower(b)
  }

  /** Comparing with a lower-cased target is comparing with the target. */
  lemma LowerTargetIsEnough(a: string, target: string)
    ensures SameUpToCase(a, Lower(target)) == SameUpToCase(a, target)
  {
    assert Lower(Lower(target)) == Lower(target);
  }

  predicate IsDigit(c: char) {
    '0' <= c <= '9'
  }

  predicate IsAlphanumeric(c: char) {
    IsDigit(c) || 'a' <= c <= 'z' || 'A' <= c <= 'Z'
  }

  function Digit(d: nat): (c: char)
    requires d < 10
    ensures IsDigit(c) && c as int - '0' as int == d
  {
    '0' + (d as char)
  }

  function DigitValue(c: char): (d: nat)
    requires IsDigit(c)
    ensures d < 10 && Digit(d) == c
  {
    c as int - '0' as int
  }

  predicate AllDigits(s: string) {
    forall i :: 0 <= i < |s| ==> IsDigit(s[i])
  }

  function Number(s: string): nat
    requires AllDigits(s)
  {
    if s == "" then 0 else Number(s[..|s| - 1]) * 10 + DigitValue(s[|s| - 1])
  }

  /** `pat` occurs in `s` at position `i`. */
  predicate At(s: string, pat: string, i: nat) {
    i + |pat| <= |s| && s[i..i + |pat|] == pat
  }

  /** `str::find` from a position on: the least occurrence not before `from`. */
  function Find(s: string, pat: string, from: nat): (r: Option<nat>)
    ensures r.Some? ==> from <= r.value && At(s, pat, r.value)
    ensures r.Some? ==> forall j :: from <= j < r.value ==> !At(s, pat, j)
    ensures r.None? ==> forall j :: from <= j ==> !At(s, pat, j)
    decreases |s| - from
  {
    if from + |pat| > |s| then None
    else if At(s, pat, from) then Some(from)
    else Find(s, pat, from + 1)
  }

  /** The first occurrence is the only result `Find` can give. */
  lemma FindIs(s: string, pat: string, from: nat, k: nat)
    requires from <= k && At(s, pat, k)
    requires forall j :: from <= j < k ==> !At(s, pat, j)
    ensures Find(s, pat, from) == Some(k)
  {
  }

  /** More input after the first occurrence does not move it. */
  lemma FindInPrefix(s: string, more: string, pat: string, from: nat)
    requires Find(s, pat, from).Some?
    ensures Find(s + more, pat, from) == Find(s, pat, from)
  {
    var k := Find(s, pat, from).value;
    assert (s + more)[k..k + |pat|] == s[k..k + |pat|];
    forall j | from <= j < k
      ensures !At(s + more, pat, j)
    {
      assert !At(s, pat, j);
      assert (s + more)[j..j + |pat|] == s[j..j + |pat|];
    }
    FindIs(s + more, pat, from, k);
  }

  /** `str::find` for a single character. */
  function FindChar(s: string, c: char, from: nat): (r: Option<nat>)
    ensures r.Some? ==> from <= r.value < |s| && s[r.value] == c
    ensures r.Some? ==> forall j :: from <= j < r.value ==> s[j] != c
    ensures r.None? ==> forall j :: from <= j < |s| ==> s[j] != c
    decreases |s| - from
  {
    if from >= |s| then None
    else if s[from] == c then Some(from)
    else FindChar(s, c, from + 1)
  }

  /** A character that is not a letter is found at the same place after lower-casing. */
  lemma FindCharIgnoresCase(s: string, c: char, from: nat)
    requires !IsAlphanumeric(c)
    ensures FindChar(Lower(s), c, from) == FindChar(s, c, from)
    decreases |s| - from
  {
    if from < |s| && s[from] != c {
      FindCharIgnoresCase(s, c, from + 1);
    }
  }

  /** `char::is_whitespace` on UTF-8 text: how many bytes the whitespace character
      at `i` occupies, or 0 when there is none. */
  function WhitespaceLen(s: string, i: nat): (n: nat)
    requires i < |s|
    ensures i + n <= |s|
  {
    var b := s[i] as int;
    if 9 <= b <= 13 || b == 32 then 1
    else if i + 1 < |s| && b == 0xC2 && (s[i + 1] as int == 0x85 || s[i + 1] as int == 0xA0) then 2
    else if i + 2 < |s| && IsWideSpace(b, s[i + 1] as int, s[i + 2] as int) then 3
    else 0
  }

  /** U+1680, U+2000 to U+200A, U+2028, U+2029, U+202F, U+205F and U+3000. */
  predicate IsWideSpace(a: int, b: int, c: int) {
    || (a == 0xE1 && b == 0x9A && c == 0x80)
    || (a == 0xE2 && b == 0x80 && (0x80 <= c <= 0x8A || c == 0xA8 || c == 0xA9 || c == 0xAF))
    || (a == 0xE2 && b == 0x81 && c == 0x9F)
    || (a == 0xE3 && b == 0x80 && c == 0x80)
  }

  /** `trim_start`, as the position of the first character kept. */
  function SkipWhitespace(s: string, i: nat): (k: nat)
    requires i <= |s|
    ensures i <= k <= |s|
    ensures k < |s| ==> WhitespaceLen(s, k) == 0
    decreases |s| - i
  {
    if i < |s| && WhitespaceLen(s, i) > 0 then SkipWhitespace(s, i + WhitespaceLen(s, i)) else i
  }

  /** `trim_end`: the whitespace characters at the end of `s` removed one by one. */
  function TrimEnd(s: string): (r: string)
    ensures r <= s
    ensures forall i :: |r| <= i < |s| ==> s[i] as int <= 32 || s[i] as int >= 0x80
    decreases |s|
  {
    if |s| >= 1 && WhitespaceLen(s, |s| - 1) == 1 then TrimEnd(s[..|s| - 1])
    else if |s| >= 2 && WhitespaceLen(s, |s| - 2) == 2 then TrimEnd(s[..|s| - 2])
    else if |s| >= 3 && WhitespaceLen(s, |s| - 3) == 3 then TrimEnd(s[..|s| - 3])
    else s
  }

  /** `str::trim` */
  function Trim(s: string): string {
    TrimEnd(s[SkipWhitespace(s, 0)..])
  }

  /** A string without blanks at either end is its own trimming. */
  lemma TrimNothing(s: string)
    requires s != [] ==> WhitespaceLen(s, 0) == 0
    requires s != [] ==> 32 < s[|s| - 1] as int < 0x80
    ensures Trim(s) == s
  {
    assert s[0..] == s;
  }

  lemma SkipWhitespaceIgnoresCase(s: string, i: nat)
    requires i <= |s|
    ensures SkipWhitespace(Lower(s), i) == SkipWhitespace(s, i)
    decreases |s| - i
  {
    if i < |s| {
      assert WhitespaceLen(Lower(s), i) == WhitespaceLen(s, i);
      if WhitespaceLen(s, i) > 0 {
        SkipWhitespaceIgnoresCase(s, i + WhitespaceLen(s, i));
      }
    }
  }

  /** `ends_with` */
  predicate HasSuffix(s: string, suffix: string) {
    |s| >= |suffix| && s[|s| - |suffix|..] == suffix
  }

  /** `strip_suffix` */
  function StripSuffix(s: string, suffix: string): Option<string> {
    if HasSuffix(s, suffix) then Some(s[..|s| - |suffix|]) else None
  }

  /** Drops every trailing copy of `c`: `trim_end_matches(c)`. */
  function TrimEndMatches(s: string, c: char): (r: string)
    ensures r <= s
    ensures r != [] ==> r[|r| - 1] != c
    ensures forall i :: |r| <= i < |s| ==> s[i] == c
    decreases |s|
  {
    if s != [] && s[|s| - 1] == c then TrimEndMatches(s[..|s| - 1], c) else s
  }

  lemma {:induction false} CopiesAreTrimmed(q: string, copies: string, c: char)
    requires forall i :: 0 <= i < |copies| ==> copies[i] == c
    requires q != "" && q[|q| - 1] != c
    ensures TrimEndMatches(q + copies, c) == q
    decreases |copies|
  {
    var s := q + copies;
    if copies != "" {
      assert s[..|s| - 1] == q + copies[..|copies| - 1];
      CopiesAreTrimmed(q, copies[..|copies| - 1], c);
    } else {
      assert s == q;
    }
  }

  /** Tab, line feed, vertical tab, form feed, carriage return and the blank. */
  predicate IsBlank(c: char) {
    9 <= c as int <= 13 || c == ' '
  }

  predicate AllBlank(s: string) {
    forall i :: 0 <= i < |s| ==> IsBlank(s[i])
  }

  /** A printable ASCII character. */
  predicate IsInk(c: char) {
    32 < c as int < 0x7F
  }

  lemma {:induction false} FrontIsSkipped(s: string, i: nat, k: nat)
    requires i <= k < |s| && IsInk(s[k]) && forall j :: i <= j < k ==> IsBlank(s[j])
    ensures SkipWhitespace(s, i) == k
    decreases k - i
  {
    if i < k {
      FrontIsSkipped(s, i + 1, k);
    }
  }

  lemma {:induction false} BackIsTrimmed(core: string, back: string)
    requires core != "" && IsInk(core[|core| - 1]) && AllBlank(back)
    ensures TrimEnd(core + back) == core
    decreases |back|
  {
    var s := core + back;
    if back != "" {
      assert s[..|s| - 1] == core + back[..|back| - 1];
      BackIsTrimmed(core, back[..|back| - 1]);
    } else {
      assert s == core;
    }
  }

  /** Blanks around a text are trimmed. */
  lemma TrimAround(front: string, core: string, back: string)
    requires AllBlank(front) && AllBlank(back) && core != "" && IsInk(core[0]) && IsInk(core[|core| - 1])
    ensures Trim(front + core + back) == core
  {
    var s := front + core + back;
    assert s[|front|] == core[0] && forall j :: 0 <= j < |front| ==> s[j] == front[j];
    FrontIsSkipped(s, 0, |front|);
    assert s[|front|..] == core + back;
    BackIsTrimmed(core, back);
  }
}

/** UTF-8 well-formedness, as `std::str::from_utf8` checks it (RFC 3629, section 4). */
module Utf8 {
  import opened Bytes

  predicate Continuation(c: char) {
    0x80 <= c as int <= 0xBF
  }

  /** The length of the well-formed sequence `s` starts with, or 0. */
  function SequenceLen(s: string): (n: nat)
    requires s != []
    ensures n <= |s|
  {
    var a := s[0] as int;
    if a < 0x80 then 1
    else if |s| >= 2 && 0xC2 <= a <= 0xDF && Continuation(s[1]) then 2
    else if |s| >= 3 && 0xE0 <= a <= 0xEF && SecondOfThree(a, s[1] as int) && Continuation(s[2]) then 3
    else if |s| >= 4 && 0xF0 <= a <= 0xF4 && SecondOfFour(a, s[1] as int) && Continuation(s[2]) && Continuation(s[3]) then 4
    else 0
  }

  predicate SecondOfThree(a: int, b: int) {
    (if a == 0xE0 then 0xA0 else 0x80) <= b <= (if a == 0xED then 0x9F else 0xBF)
  }

  predicate SecondOfFour(a: int, b: int) {
    (if a == 0xF0 then 0x90 else 0x80) <= b <= (if a == 0xF4 then 0x8F else 0xBF)
  }

  predicate Valid(s: string)
    decreases |s|
  {
    s == [] || (SequenceLen(s) > 0 && Valid(s[SequenceLen(s)..]))
  }

  /** Changing the case of ASCII letters keeps a string well-formed or ill-formed. */
  lemma {:induction false} ValidIgnoresCase(a: string, b: string)
    requires SameUpToCase(a, b)
    ensures Valid(a) == Valid(b)
    decreases |a|
  {
    assert |a| == |Lower(a)| == |Lower(b)| == |b|;
    if a != [] {
      assert forall i :: 0 <= i < |a| ==> LowerChar(a[i]) == LowerChar(b[i]) by {
        forall i | 0 <= i < |a| ensures LowerChar(a[i]) == LowerChar(b[i]) {
          assert Lower(a)[i] == Lower(b)[i];
        }
      }
      var n := SequenceLen(a);
      assert SequenceLen(b) == n;
      if n > 0 {
        assert Lower(a[n..]) == Lower(b[n..]);
        ValidIgnoresCase(a[n..], b[n..]);
      }
    }
  }
}

/** Sorting strings. */
module Sorting {
  import opened Bytes

  /** Byte-wise order of strings. */
  predicate StringLess(a: string, b: string)
    decreases |a|
  {
    b != "" && (a == "" || a[0] < b[0] || (a[0] == b[0] && StringLess(a[1..], b[1..])))
  }

  lemma {:induction false} StringLessIrreflexive(a: string)
    ensures !StringLess(a, a)
    decreases |a|
  {
    if a != "" {
      StringLessIrreflexive(a[1..]);
    }
  }

  lemma {:induction false} StringLessTransitive(a: string, b: string, c: string)
    requires StringLess(a, b) && StringLess(b, c)
    ensures StringLess(a, c)
    decreases |a|
  {
    if a != "" && a[0] == b[0] == c[0] {
      StringLessTransitive(a[1..], b[1..], c[1..]);
    }
  }

  lemma {:induction false} StringLessTotal(a: string, b: string)
    ensures a == b || StringLess(a, b) || StringLess(b, a)
    decreases |a|
  {
    if a != "" && b != "" && a[0] == b[0] {
      StringLessTotal(a[1..], b[1..]);
      assert a == [a[0]] + a[1..] && b == [b[0]] + b[1..];
    }
  }

  /** A common beginning and anything behind texts of one length leave their order alone. */
  lemma {:induction false} StringLessWithin(p: string, s: string, t: string, x: string, y: string)
    requires StringLess(s, t) && |s| == |t|
    ensures StringLess(p + s + x, p + t + y)
    decreases |p| + |s|
  {
    var a, b := p + s + x, p + t + y;
    if p != "" {
      StringLessWithin(p[1..], s, t, x, y);
      assert a[1..] == p[1..] + s + x && b[1..] == p[1..] + t + y;
    } else {
      assert a[0] == s[0] && b[0] == t[0];
      if s[0] == t[0] {
        StringLessWithin("", s[1..], t[1..], x, y);
        assert a[1..] == "" + s[1..] + x && b[1..] == "" + t[1..] + y;
      }
    }
  }

  predicate Ascending(list: seq<string>) {
    forall i, j :: 0 <= i < j < |list| ==> StringLess(list[i], list[j])
  }

  /** `s` put at its place in an ascending list. */
  function Placed(s: string, list: seq<string>): (r: seq<string>)
    ensures forall x :: x in r <==> x == s || x in list
  {
    if list == [] then [s]
    else if StringLess(list[0], s) then
      assert forall x :: x in list <==> x == list[0] || x in list[1..];
      [list[0]] + Placed(s, list[1..])
    else [s] + list
  }

  lemma {:induction false} PlacedAscends(s: string, list: seq<string>)
    requires Ascending(list) && s !in list
    ensures Ascending(Placed(s, list))
    decreases |list|
  {
    hide StringLess;
    var r := Placed(s, list);
    if list != [] && StringLess(list[0], s) {
      PlacedAscends(s, list[1..]);
      var rest := Placed(s, list[1..]);
      forall j | 1 <= j < |r|
        ensures StringLess(r[0], r[j])
      {
        assert r[j] == rest[j - 1] && rest[j - 1] in rest;
      }
    } else if list != [] {
      StringLessTotal(s, list[0]);
      assert StringLess(s, list[0]);
      forall j | 0 <= j < |list|
        ensures StringLess(s, list[j])
      {
        if j > 0 {
          StringLessTransitive(s, list[0], list[j]);
        }
      }
    }
  }

  /** `sort` on strings that all differ. */
  method Sort(list: seq<string>) returns (sorted: seq<string>)
    requires Distinct(list)
    ensures Ascending(sorted) && forall s :: s in sorted <==> s in list
  {
    hide StringLess;
    sorted := [];
    for i := 0 to |list|
      invariant Ascending(sorted) && forall s :: s in sorted <==> s in list[..i]
    {
      assert list[i] !in list[..i];
      PlacedAscends(list[i], sorted);
      sorted := Placed(list[i], sorted);
      assert list[..i + 1] == list[..i] + [list[i]];
    }
    assert list[..|list|] == list;
  }
}
