/** What the tool-name rewriter makes of texts as they are written: fields with a name and a value, and
    the values restored. */
module ToolLaws {
  import opened Bytes
  import opened Sockets
  import Utf8
  import opened ToolNames

  // ---------------------------------------------------------------- the printer

  /** One `"name"` field: what stands in front of its key, the blanks around its colon, its value. */
  datatype Field = Field(lead: string, before: string, after: string, value: string)

  predicate HasNoQuote(s: string) {
    forall i :: 0 <= i < |s| ==> s[i] != '"'
  }

  /** The text in front of a key has no quotes, and does not turn the quotes around it into a key. */
  predicate IsField(f: Field) {
    HasNoQuote(f.lead) && Lower(f.lead) != "name" && AllBlank(f.before) && AllBlank(f.after) && HasNoQuote(f.value)
  }

  predicate AreFields(fields: seq<Field>) {
    forall k :: 0 <= k < |fields| ==> IsField(fields[k])
  }

  /** The field up to its value, which `mark` starts. */
  function Head(f: Field, mark: string): string {
    f.lead + "\"name\"" + f.before + ":" + f.after + mark
  }

  function Opening(f: Field): string {
    Head(f, "\"")
  }

  function Rendered(fields: seq<Field>, tail: string): string {
    if fields == [] then tail else Opening(fields[0]) + fields[0].value + "\"" + Rendered(fields[1..], tail)
  }

  function ValuesOf(fields: seq<Field>): (values: seq<string>)
    ensures |values| == |fields|
    ensures forall k :: 0 <= k < |fields| ==> values[k] == fields[k].value
  {
    seq(|fields|, k requires 0 <= k < |fields| => fields[k].value)
  }

  // ---------------------------------------------------------------- what is to be restored

  /** A spelling worth restoring. */
  predicate HasUpper(name: string) {
    exists i :: 0 <= i < |name| && 'A' <= name[i] <= 'Z'
  }

  /** The last of the names that has an upper-case letter and is the value up to case; the value itself
      if there is none. */
  function Spelling(value: string, names: seq<string>): string
    decreases |names|
  {
    if names == [] then value
    else
      var last := names[|names| - 1];
      if HasUpper(last) && SameUpToCase(last, value) then last else Spelling(value, names[..|names| - 1])
  }

  /** The same fields with their values in the spelling of `names`. */
  function Respelled(fields: seq<Field>, names: seq<string>): (r: seq<Field>)
    ensures |r| == |fields|
    ensures forall k :: 0 <= k < |fields| ==> r[k] == fields[k].(value := Spelling(fields[k].value, names))
  {
    seq(|fields|, k requires 0 <= k < |fields| => fields[k].(value := Spelling(fields[k].value, names)))
  }

  // ---------------------------------------------------------------- reading a request

  /** A key, some text without quotes and a quoted value. */
  lemma NameIsFound(lead: string, middle: string, value: string, rest: string)
    requires HasNoQuote(lead) && HasNoQuote(middle) && HasNoQuote(value)
    ensures NextName(lead + KEY + (middle + "\"" + (value + "\"" + rest))) == Some((value, rest))
  {
    hide Find, FindChar, HasNoQuote;
    var afterKey, quoted := middle + "\"" + (value + "\"" + rest), value + "\"" + rest;
    KeyIsFound(lead, afterKey);
    assert (lead + KEY + afterKey)[|lead| + 6..] == afterKey;
    QuoteIsFound(middle, quoted);
    assert afterKey[|middle| + 1..] == quoted;
    QuoteIsFound(value, rest);
    assert quoted[..|value|] == value && quoted[|value| + 1..] == rest;
  }

  /** The first field of a request is found, and the text behind it. */
  lemma FieldIsFound(f: Field, rest: string)
    requires IsField(f)
    ensures NextName(Opening(f) + f.value + "\"" + rest) == Some((f.value, rest))
  {
    var middle, quoted := f.before + ":" + f.after, f.value + "\"" + rest;
    assert HasNoQuote(middle);
    hide NextName, HasNoQuote;
    NameIsFound(f.lead, middle, f.value, rest);
    OpeningRest(f, quoted);
    Assoc(Opening(f) + f.value, "\"", rest);
    Assoc(Opening(f), f.value, "\"" + rest);
    Assoc(f.value, "\"", rest);
  }

  lemma OpeningRest(f: Field, rest: string)
    ensures Opening(f) + rest == f.lead + KEY + (f.before + ":" + f.after + "\"" + rest)
  {
    var front := f.lead + KEY;
    Assoc(front, f.before, ":");
    Assoc(front, f.before + ":", f.after);
    Assoc(front, f.before + ":" + f.after, "\"");
    Assoc(front, f.before + ":" + f.after + "\"", rest);
  }

  lemma QuoteIsFound(front: string, rest: string)
    requires HasNoQuote(front)
    ensures FindChar(front + "\"" + rest, '"', 0) == Some(|front|)
  {
    var s := front + "\"" + rest;
    assert forall i :: 0 <= i < |front| ==> s[i] == front[i];
    assert s[|front|] == '"';
  }

  lemma KeyIsFound(lead: string, rest: string)
    requires HasNoQuote(lead)
    ensures Find(lead + KEY + rest, KEY, 0) == Some(|lead|)
  {
    var s := lead + KEY + rest;
    assert s[|lead|..|lead| + 6] == KEY;
    forall j | 0 <= j < |lead|
      ensures !At(s, KEY, j)
    {
      assert s[j] == lead[j];
      assert j + 6 <= |s| ==> s[j..j + 6][0] == s[j];
    }
    FindIs(s, KEY, 0, |lead|);
  }

  lemma NoFieldIsFound(tail: string)
    requires HasNoQuote(tail)
    ensures NextName(tail) == None
  {
    hide Find;
    if Find(tail, KEY, 0).Some? {
      var k := Find(tail, KEY, 0).value;
      assert tail[k] == tail[k..k + 6][0];
    }
  }

  /** The values worth restoring, in order. */
  function UpperOf(fields: seq<Field>): seq<string> {
    if fields == [] then []
    else (if HasUpper(fields[0].value) then [fields[0].value] else []) + UpperOf(fields[1..])
  }

  lemma {:induction false} RequestIsRead(fields: seq<Field>, tail: string)
    requires AreFields(fields) && HasNoQuote(tail)
    ensures RequestNames(Rendered(fields, tail)) == UpperOf(fields)
    decreases |fields|
  {
    hide NextName, Opening, IsField, HasNoQuote;
    if fields == [] {
      NoFieldIsFound(tail);
    } else {
      var f := fields[0];
      assert IsField(f);
      FieldIsFound(f, Rendered(fields[1..], tail));
      RequestIsRead(fields[1..], tail);
      assert Eligible(f.value) <==> HasUpper(f.value);
    }
  }

  // ---------------------------------------------------------------- one name restored in a body

  /** The value in the spelling of one name. */
  function Renamed(value: string, name: string): (r: string)
    ensures |r| == |value|
  {
    if SameUpToCase(value, name) then SameLength(value, name); name else value
  }

  lemma SameLength(a: string, b: string)
    requires SameUpToCase(a, b)
    ensures |a| == |b|
  {
    assert |Lower(a)| == |Lower(b)|;
  }

  function AllRenamed(fields: seq<Field>, name: string): (r: seq<Field>)
    ensures |r| == |fields|
    ensures forall k :: 0 <= k < |fields| ==> r[k] == fields[k].(value := Renamed(fields[k].value, name))
  {
    seq(|fields|, k requires 0 <= k < |fields| => fields[k].(value := Renamed(fields[k].value, name)))
  }

  lemma KeyInLower(text: string, p: nat)
    requires At(text, KEY, p)
    ensures At(Lower(text), KEY, p) && forall i :: 0 <= i < 6 ==> text[p + i] == KEY[i]
  {
    var key := text[p..p + 6];
    assert forall i :: 0 <= i < 6 ==> text[p + i] == key[i];
    assert Lower(text)[p..p + 6] == KEY;
  }

  lemma KeyHasTwoQuotes(text: string, j: nat)
    requires At(Lower(text), KEY, j)
    ensures j + 5 < |text| && text[j] == '"' && text[j + 5] == '"'
    ensures Lower(text)[j + 1..j + 5] == "name"
  {
    var found := Lower(text)[j..j + 6];
    assert Lower(text)[j] == found[0] && Lower(text)[j + 5] == found[5];
    assert Lower(text)[j + 1..j + 5] == found[1..5];
  }

  /** A key found between `from` and a key at `p` is the word between two values' quotes. */
  lemma KeyBefore(text: string, from: nat, p: nat, j: nat)
    requires from <= j < p && At(text, KEY, p) && forall i :: from < i < p ==> text[i] != '"'
    requires At(Lower(text), KEY, j)
    ensures j == from && text[from] == '"' && Lower(text)[from + 1..p] == "name"
  {
    KeyInLower(text, p);
    KeyHasTwoQuotes(text, j);
    var d := j + 5 - p;
    assert d >= 0 && text[p + d] == KEY[d];
  }

  lemma NextKey(text: string, from: nat, p: nat)
    requires from <= p && At(text, KEY, p) && forall i :: from < i < p ==> text[i] != '"'
    requires from < p && text[from] == '"' ==> Lower(text)[from + 1..p] != "name"
    ensures Find(Lower(text), KEY, from) == Some(p)
  {
    KeyInLower(text, p);
    forall j | from <= j < p
      ensures !At(Lower(text), KEY, j)
    {
      if At(Lower(text), KEY, j) {
        KeyBefore(text, from, p, j);
      }
    }
    FindIs(Lower(text), KEY, from, p);
  }

  /** Nothing is left to find behind the last value. */
  lemma NoMoreKeys(text: string, from: nat)
    requires forall i :: from < i < |text| ==> text[i] != '"'
    ensures Find(Lower(text), KEY, from) == None
  {
    hide Find;
    if Find(Lower(text), KEY, from).Some? {
      KeyHasTwoQuotes(text, Find(Lower(text), KEY, from).value);
    }
  }

  /** The value behind a key is the one between its quotes. */
  lemma ValueIsFound(text: string, from: nat, colon: nat, open: nat, end: nat)
    requires from <= colon < open < end < |text|
    requires text[colon] == ':' && text[open] == '"' && text[end] == '"'
    requires forall i :: from <= i < colon ==> text[i] != ':'
    requires forall i :: colon < i < open ==> IsBlank(text[i])
    requires forall i :: open < i < end ==> text[i] != '"'
    ensures ValueAfter(text, from) == Some(Span(open + 1, end))
  {
    FrontIsSkipped(text, colon + 1, open);
    hide SkipWhitespace;
    assert FindChar(text, ':', from) == Some(colon);
    assert FindChar(text, '"', open + 1) == Some(end);
  }

  /** The parts of the text up to a value. */
  function Parts(f: Field, mark: string): (parts: seq<string>)
    ensures |parts| == 6
  {
    [f.lead, KEY, f.before, ":", f.after, mark]
  }

  lemma HeadIsParts(f: Field, mark: string)
    ensures Head(f, mark) == Flatten(Parts(f, mark))
  {
    hide Flatten;
    FlattenOne(f.lead);
    FlattenAppend([f.lead], KEY);
    FlattenAppend([f.lead, KEY], f.before);
    FlattenAppend([f.lead, KEY, f.before], ":");
    FlattenAppend([f.lead, KEY, f.before, ":"], f.after);
    FlattenAppend([f.lead, KEY, f.before, ":", f.after], mark);
    assert [f.lead] + [KEY] == [f.lead, KEY] && [f.lead, KEY] + [f.before] == [f.lead, KEY, f.before];
    assert [f.lead, KEY, f.before] + [":"] == [f.lead, KEY, f.before, ":"];
    assert [f.lead, KEY, f.before, ":"] + [f.after] == [f.lead, KEY, f.before, ":", f.after];
    assert [f.lead, KEY, f.before, ":", f.after] + [mark] == Parts(f, mark);
  }

  /** How far into the parts part `k` starts. */
  function Offset(parts: seq<string>, k: nat): nat
    requires k <= |parts|
  {
    if k == 0 then 0 else Offset(parts, k - 1) + |parts[k - 1]|
  }

  lemma {:induction false} PartLies(parts: seq<string>, k: nat)
    requires k < |parts|
    ensures At(Flatten(parts), parts[k], Offset(parts, k))
    decreases |parts|
  {
    var front, last := parts[..|parts| - 1], parts[|parts| - 1];
    assert parts == front + [last];
    FlattenAppend(front, last);
    OffsetInFront(parts, front, k);
    if k < |front| {
      PartLies(front, k);
      assert Flatten(parts)[Offset(parts, k)..Offset(parts, k) + |parts[k]|] == Flatten(front)[Offset(parts, k)..Offset(parts, k) + |parts[k]|];
    } else {
      OffsetIsLength(front);
    }
  }

  lemma {:induction false} OffsetInFront(parts: seq<string>, front: seq<string>, k: nat)
    requires front <= parts && k <= |front|
    ensures Offset(parts, k) == Offset(front, k)
    decreases k
  {
    if k > 0 {
      OffsetInFront(parts, front, k - 1);
    }
  }

  lemma {:induction false} OffsetIsLength(parts: seq<string>)
    ensures Offset(parts, |parts|) == |Flatten(parts)|
    decreases |parts|
  {
    if parts != [] {
      var front, last := parts[..|parts| - 1], parts[|parts| - 1];
      OffsetIsLength(front);
      OffsetInFront(parts, front, |front|);
      assert parts == front + [last];
      FlattenAppend(front, last);
    }
  }

  lemma LiesBetween(a: string, b: string, c: string, part: string, i: nat)
    requires At(b, part, i)
    ensures At(a + b + c, part, |a| + i)
  {
    assert (a + b + c)[|a| + i..|a| + i + |part|] == b[i..i + |part|];
  }

  /** The parts of a field lie in the text one behind the other. */
  lemma Layout(front: string, f: Field, mark: string, rest: string, k: nat)
    requires k < 6
    ensures At(front + Head(f, mark) + rest, Parts(f, mark)[k], |front| + Offset(Parts(f, mark), k))
  {
    hide Head, Flatten, Parts, At;
    HeadIsParts(f, mark);
    PartLies(Parts(f, mark), k);
    LiesBetween(front, Head(f, mark), rest, Parts(f, mark)[k], Offset(Parts(f, mark), k));
  }

  lemma Offsets(f: Field, mark: string)
    ensures var parts := Parts(f, mark);
            && Offset(parts, 0) == 0 && Offset(parts, 1) == |f.lead| && Offset(parts, 2) == |f.lead| + 6
            && Offset(parts, 3) == |f.lead| + 6 + |f.before| && Offset(parts, 4) == |f.lead| + 7 + |f.before|
            && Offset(parts, 5) == |f.lead| + 7 + |f.before| + |f.after|
            && |Head(f, mark)| == |f.lead| + 7 + |f.before| + |f.after| + |mark|
  {
    var parts := Parts(f, mark);
    assert Offset(parts, 1) == Offset(parts, 0) + |parts[0]|;
    assert Offset(parts, 2) == Offset(parts, 1) + |parts[1]|;
    assert Offset(parts, 3) == Offset(parts, 2) + |parts[2]|;
    assert Offset(parts, 4) == Offset(parts, 3) + |parts[3]|;
    assert Offset(parts, 5) == Offset(parts, 4) + |parts[4]|;
  }

  lemma CharsOf(text: string, part: string, i: nat)
    requires At(text, part, i)
    ensures forall j :: i <= j < i + |part| ==> text[j] == part[j - i]
  {
    assert forall j :: i <= j < i + |part| ==> text[j] == text[i..i + |part|][j - i];
  }

  predicate IsKey(f: Field) {
    HasNoQuote(f.lead) && Lower(f.lead) != "name" && AllBlank(f.before) && AllBlank(f.after)
  }

  /** The key of the next field is found from the end of `front` on. */
  lemma KeyOfField(front: string, quote: string, f: Field, mark: string, rest: string)
    requires (quote == "" || quote == "\"") && IsKey(f)
    ensures Find(Lower(front + quote + Head(f, mark) + rest), KEY, |front|) == Some(|front + quote| + |f.lead|)
  {
    hide Find, Head, At, Lower, Offset;
    var text, base := front + quote + Head(f, mark) + rest, |front + quote|;
    Offsets(f, mark);
    Layout(front + quote, f, mark, rest, 0);
    Layout(front + quote, f, mark, rest, 1);
    CharsOf(text, f.lead, base);
    LowerOfPart(text, f.lead, base);
    NextKey(text, |front|, base + |f.lead|);
  }

  lemma ValueLies(head: string, value: string, later: string)
    ensures var text := head + (value + "\"" + later);
            && (forall i :: |head| <= i < |head| + |value| ==> text[i] == value[i - |head|])
            && |head| + |value| < |text| && text[|head| + |value|] == '"'
  {
  }

  lemma BlanksInField(front: string, f: Field, mark: string, rest: string)
    requires IsKey(f) && |mark| == 1
    ensures var text, base := front + Head(f, mark) + rest, |front| + |f.lead| + 6;
            && base + |f.before| + |f.after| + 2 == |front + Head(f, mark)| <= |text|
            && (forall i :: base <= i < base + |f.before| ==> text[i] != ':')
            && (forall i :: base + |f.before| < i <= base + |f.before| + |f.after| ==> IsBlank(text[i]))
  {
    hide Head, At, Offset, Lower;
    var text, base := front + Head(f, mark) + rest, |front| + |f.lead| + 6;
    Offsets(f, mark);
    Layout(front, f, mark, rest, 2);
    Layout(front, f, mark, rest, 4);
    CharsOf(text, f.before, base);
    CharsOf(text, f.after, base + |f.before| + 1);
  }

  lemma MarksInField(front: string, f: Field, mark: string, rest: string)
    requires |mark| == 1
    ensures var text, base := front + Head(f, mark) + rest, |front| + |f.lead| + 6;
            && base + |f.before| + |f.after| + 2 == |front + Head(f, mark)| <= |text|
            && text[base + |f.before|] == ':' && text[base + |f.before| + |f.after| + 1] == mark[0]
  {
    hide Head, At, Offset, Lower;
    var text, base := front + Head(f, mark) + rest, |front| + |f.lead| + 6;
    Offsets(f, mark);
    Layout(front, f, mark, rest, 3);
    Layout(front, f, mark, rest, 5);
    CharsOf(text, ":", base + |f.before|);
    CharsOf(text, mark, base + |f.before| + |f.after| + 1);
  }

  /** And its value behind the key. */
  lemma ValueOfField(front: string, f: Field, later: string)
    requires IsField(f)
    ensures var head, text := front + Opening(f), front + Opening(f) + (f.value + "\"" + later);
            ValueAfter(text, |front| + |f.lead| + 6) == Some(Span(|head|, |head| + |f.value|))
  {
    hide Head, ValueAfter, Lower, IsBlank;
    var rest, base, head := f.value + "\"" + later, |front| + |f.lead| + 6, |front + Opening(f)|;
    BlanksInField(front, f, "\"", rest);
    MarksInField(front, f, "\"", rest);
    ValueLies(front + Opening(f), f.value, later);
    ValueIsFound(front + Opening(f) + rest, base, base + |f.before|, head - 1, head + |f.value|);
  }

  lemma FieldHasKey(f: Field)
    requires IsField(f)
    ensures IsKey(f)
  {
  }

  /** The scan from the end of `front`, or from a quote in front of the field, visits its value. */
  lemma NextIsFirst(front: string, quote: string, f: Field, later: string)
    requires (quote == "" || quote == "\"") && IsField(f)
    ensures var head, text := front + quote + Opening(f), front + quote + Opening(f) + (f.value + "\"" + later);
            NextValue(Lower(text), |front|) == Some(Span(|head|, |head| + |f.value|))
  {
    hide Find, ValueAfter, Head, NextValue, Lower, IsField, IsKey, At, HasNoQuote;
    FieldHasKey(f);
    KeyOfField(front, quote, f, "\"", f.value + "\"" + later);
    ValueOfField(front + quote, f, later);
    NextValueInPlace(front + quote + Opening(f) + (f.value + "\"" + later), |front|);
  }

  lemma LowerOfPart(text: string, part: string, i: nat)
    requires At(text, part, i)
    ensures Lower(text)[i..i + |part|] == Lower(part)
  {
    CharsOf(text, part, i);
  }

  /** One field passed over. */
  lemma PassOverField(front: string, quote: string, f: Field, later: string, name: string)
    requires (quote == "" || quote == "\"") && IsField(f)
    ensures var head := front + quote + Opening(f);
            PassFrom(head + f.value + "\"" + later, name, |front|)
            == if SameUpToCase(f.value, name) then PassFrom(head + name + "\"" + later, name, |head + name|)
               else PassFrom(head + f.value + "\"" + later, name, |head + f.value + "\""|)
  {
    hide PassFrom, NextValue, Opening, IsField, SameUpToCase;
    var head := front + quote + Opening(f);
    var text := head + f.value + "\"" + later;
    NextIsFirst(front, quote, f, later);
    assert head + (f.value + "\"" + later) == text;
    var start, end := |head|, |head| + |f.value|;
    assert text[start..end] == f.value && text[..start] == head && text[end..] == "\"" + later;
    if SameUpToCase(f.value, name) {
      PassHits(text, name, |front|, start, end);
      assert text[..start] + name + text[end..] == head + name + "\"" + later;
    } else {
      PassSkips(text, name, |front|, start, end);
    }
  }

  lemma SameOpening(f: Field, value: string)
    ensures Opening(f.(value := value)) == Opening(f)
  {
  }

  lemma RenderedFirst(f: Field, later: seq<Field>, tail: string)
    ensures Rendered([f] + later, tail) == Opening(f) + f.value + "\"" + Rendered(later, tail)
  {
    assert ([f] + later)[1..] == later;
  }

  /** Where the scan of a body ends: there is no quote any more, or there is a name that is no string,
      behind which anything may follow. */
  datatype Tail = Plain(text: string) | Stop(field: Field, first: char, rest: string)

  predicate IsTail(tail: Tail) {
    match tail
    case Plain(text) => HasNoQuote(text)
    case Stop(field, first, _) => IsKey(field) && IsInk(first) && first != '"'
  }

  function TailText(tail: Tail): string {
    match tail
    case Plain(text) => text
    case Stop(field, first, rest) => Head(field, [first]) + rest
  }

  lemma NoValueFound(text: string, from: nat, colon: nat, open: nat)
    requires from <= colon < open < |text| && text[colon] == ':' && IsInk(text[open]) && text[open] != '"'
    requires forall i :: from <= i < colon ==> text[i] != ':'
    requires forall i :: colon < i < open ==> IsBlank(text[i])
    ensures ValueAfter(text, from) == None
  {
    FrontIsSkipped(text, colon + 1, open);
    hide SkipWhitespace;
    assert FindChar(text, ':', from) == Some(colon);
  }

  lemma NoValueInStop(front: string, f: Field, first: char, rest: string)
    requires IsKey(f) && IsInk(first) && first != '"'
    ensures ValueAfter(front + Head(f, [first]) + rest, |front| + |f.lead| + 6) == None
  {
    hide Head, ValueAfter, Lower, IsBlank;
    var base := |front| + |f.lead| + 6;
    BlanksInField(front, f, [first], rest);
    MarksInField(front, f, [first], rest);
    NoValueFound(front + Head(f, [first]) + rest, base, base + |f.before|, |front + Head(f, [first])| - 1);
  }

  lemma StopIsPassed(front: string, quote: string, f: Field, first: char, rest: string, name: string)
    requires (quote == "" || quote == "\"") && IsKey(f) && IsInk(first) && first != '"'
    ensures var text := front + quote + (Head(f, [first]) + rest); PassFrom(text, name, |front|) == text
  {
    hide Find, PassFrom, ValueAfter, NextValue, Head, IsKey, Lower;
    var text := front + quote + (Head(f, [first]) + rest);
    Assoc(front + quote, Head(f, [first]), rest);
    KeyOfField(front, quote, f, [first], rest);
    NoValueInStop(front + quote, f, first, rest);
    NextValueInPlace(text, |front|);
    PassEnds(text, name, |front|);
  }

  lemma TailIsPassed(front: string, quote: string, tail: Tail, name: string)
    requires (quote == "" || quote == "\"") && IsTail(tail)
    ensures PassFrom(front + quote + TailText(tail), name, |front|) == front + quote + TailText(tail)
  {
    match tail
    case Plain(text) => NoFieldPassed(front, quote, text, name);
    case Stop(field, first, rest) => StopIsPassed(front, quote, field, first, rest, name);
  }

  lemma NoFieldPassed(front: string, quote: string, tail: string, name: string)
    requires (quote == "" || quote == "\"") && HasNoQuote(tail)
    ensures PassFrom(front + quote + tail, name, |front|) == front + quote + tail
  {
    hide Find, PassFrom, ValueAfter, NextValue;
    var text := front + quote + tail;
    assert forall i :: |front + quote| <= i < |text| ==> text[i] == tail[i - |front + quote|];
    NoMoreKeys(text, |front|);
    NextValueInPlace(text, |front|);
    PassEnds(text, name, |front|);
  }

  /** One pass over rendered fields, from the end of `front` on. */
  lemma {:induction false} PassOverFields(front: string, quote: string, fields: seq<Field>, tail: Tail, name: string)
    requires (quote == "" || quote == "\"") && AreFields(fields) && IsTail(tail)
    ensures PassFrom(front + quote + Rendered(fields, TailText(tail)), name, |front|)
            == front + quote + Rendered(AllRenamed(fields, name), TailText(tail))
    decreases |fields|
  {
    hide PassFrom, IsField, HasNoQuote, Opening, SameUpToCase, Rendered, AllRenamed, IsTail, TailText;
    if fields == [] {
      NothingRendered(TailText(tail));
      TailIsPassed(front, quote, tail, name);
    } else {
      var f, later, head := fields[0], Rendered(fields[1..], TailText(tail)), front + quote + Opening(fields[0]);
      var f', later' := f.(value := Renamed(f.value, name)), AllRenamed(fields[1..], name);
      assert fields == [f] + fields[1..] && AllRenamed(fields, name) == [f'] + later';
      RenderedFirst(f, fields[1..], TailText(tail));
      RenderedFirst(f', later', TailText(tail));
      SameOpening(f, f'.value);
      assert IsField(f);
      PassOverField(front, quote, f, later, name);
      Regroup(front, quote, Opening(f), f.value, later);
      Regroup(front, quote, Opening(f), f'.value, Rendered(later', TailText(tail)));
      if SameUpToCase(f.value, name) {
        PassOverFields(head + name, "\"", fields[1..], tail, name);
      } else {
        PassOverFields(head + f.value + "\"", "", fields[1..], tail, name);
        assert head + f.value + "\"" + "" == head + f.value + "\"";
      }
    }
  }

  lemma Regroup(front: string, quote: string, opening: string, value: string, later: string)
    ensures front + quote + (opening + value + "\"" + later) == front + quote + opening + value + "\"" + later
  {
    Assoc(front + quote, opening + value + "\"", later);
    Assoc(front + quote, opening + value, "\"");
    Assoc(front + quote, opening, value);
  }

  lemma Assoc(a: string, b: string, c: string)
    ensures a + b + c == a + (b + c)
  {
  }

  lemma NothingRendered(tail: string)
    ensures Rendered([], tail) == tail
  {
  }

  // ---------------------------------------------------------------- all names restored

  lemma {:induction false} SpellingKeepsCase(value: string, names: seq<string>)
    ensures SameUpToCase(Spelling(value, names), value)
    decreases |names|
  {
    hide HasUpper;
    if names != [] {
      SpellingKeepsCase(value, names[..|names| - 1]);
    }
  }

  lemma {:induction false} SpellingConcat(value: string, a: seq<string>, b: seq<string>)
    ensures Spelling(value, a + b) == Spelling(Spelling(value, a), b)
    decreases |b|
  {
    hide HasUpper;
    SpellingKeepsCase(value, a);
    if b == [] {
      assert a + b == a;
    } else {
      assert (a + b)[..|a + b| - 1] == a + b[..|b| - 1] && (a + b)[|a + b| - 1] == b[|b| - 1];
      SpellingConcat(value, a, b[..|b| - 1]);
    }
  }

  lemma SpellingOne(value: string, name: string)
    ensures Spelling(value, [name]) == if HasUpper(name) && SameUpToCase(name, value) then name else value
  {
    hide HasUpper;
    assert [name][..0] == [];
  }

  /** Only names with an upper-case letter matter. */
  lemma {:induction false} UpperIsEnough(value: string, fields: seq<Field>)
    ensures Spelling(value, UpperOf(fields)) == Spelling(value, ValuesOf(fields))
    decreases |fields|
  {
    hide HasUpper, Spelling;
    if fields == [] {
      assert UpperOf(fields) == ValuesOf(fields);
    } else {
      var first, rest := fields[0].value, fields[1..];
      assert ValuesOf(fields) == [first] + ValuesOf(rest);
      SpellingConcat(value, [first], ValuesOf(rest));
      SpellingOne(value, first);
      UpperIsEnough(Spelling(value, [first]), rest);
      if HasUpper(first) {
        SpellingConcat(value, [first], UpperOf(rest));
      } else {
        assert UpperOf(fields) == UpperOf(rest);
      }
    }
  }

  lemma {:induction false} UpperAreUpper(fields: seq<Field>)
    requires AreFields(fields)
    ensures forall name :: name in UpperOf(fields) ==> HasUpper(name) && HasNoQuote(name)
    decreases |fields|
  {
    hide HasUpper;
    if fields != [] {
      assert IsField(fields[0]);
      UpperAreUpper(fields[1..]);
    }
  }

  lemma RenamedAreFields(fields: seq<Field>, name: string)
    requires AreFields(fields) && HasNoQuote(name)
    ensures AreFields(AllRenamed(fields, name))
  {
    hide HasNoQuote, SameUpToCase;
    var r := AllRenamed(fields, name);
    forall k | 0 <= k < |r|
      ensures IsField(r[k])
    {
      assert IsField(fields[k]);
    }
  }

  lemma {:induction false} FieldsAreRestored(fields: seq<Field>, tail: Tail, names: seq<string>)
    requires AreFields(fields) && IsTail(tail)
    requires forall name :: name in names ==> HasUpper(name) && HasNoQuote(name)
    ensures Restore(Rendered(fields, TailText(tail)), names) == Rendered(Respelled(fields, names), TailText(tail))
    decreases |names|
  {
    hide PassFrom, HasUpper, HasNoQuote, SameUpToCase, Rendered, AreFields, Spelling;
    var text := Rendered(fields, TailText(tail));
    if names == [] {
      NothingRespelled(fields);
    } else {
      var name, later := names[0], names[1..];
      PassOverFields("", "", fields, tail, name);
      assert "" + "" + text == text;
      assert "" + "" + Rendered(AllRenamed(fields, name), TailText(tail)) == Rendered(AllRenamed(fields, name), TailText(tail));
      RenamedAreFields(fields, name);
      FieldsAreRestored(AllRenamed(fields, name), tail, later);
      RespelledTwice(fields, names);
    }
  }

  lemma NothingRespelled(fields: seq<Field>)
    ensures Respelled(fields, []) == fields
  {
  }

  lemma RespelledTwice(fields: seq<Field>, names: seq<string>)
    requires names != [] && HasUpper(names[0])
    ensures Respelled(AllRenamed(fields, names[0]), names[1..]) == Respelled(fields, names)
  {
    hide HasUpper, Spelling, SameUpToCase;
    var a, b := Respelled(AllRenamed(fields, names[0]), names[1..]), Respelled(fields, names);
    forall k | 0 <= k < |fields|
      ensures a[k] == b[k]
    {
      RenamedIsSpelling(fields[k].value, names[0]);
      SpellingConcat(fields[k].value, [names[0]], names[1..]);
      assert names == [names[0]] + names[1..];
    }
  }

  lemma RenamedIsSpelling(value: string, name: string)
    requires HasUpper(name)
    ensures Renamed(value, name) == Spelling(value, [name])
  {
    SpellingOne(value, name);
  }

  /** The rewriter on rendered texts: every value gets the spelling of the last name of the request that
      has an upper-case letter and is the value up to case, and everything else stays. The scan of the
      body ends at a name that is no string: whatever follows it is left alone. */
  lemma RenderedIsRespelled(body: seq<Field>, tail: Tail, request: seq<Field>, end: string)
    requires AreFields(body) && IsTail(tail) && AreFields(request) && HasNoQuote(end)
    requires Utf8.Valid(Rendered(body, TailText(tail))) && Utf8.Valid(Rendered(request, end))
    ensures Rewritten(Rendered(body, TailText(tail)), Rendered(request, end)) == Rendered(Respelled(body, ValuesOf(request)), TailText(tail))
  {
    hide Rendered, Restore, AreFields, HasNoQuote, Utf8.Valid, HasUpper, Spelling;
    RequestIsRead(request, end);
    UpperAreUpper(request);
    FieldsAreRestored(body, tail, UpperOf(request));
    var a, b := Respelled(body, UpperOf(request)), Respelled(body, ValuesOf(request));
    forall k | 0 <= k < |body|
      ensures a[k] == b[k]
    {
      UpperIsEnough(body[k].value, request);
    }
    assert a == b;
  }

  /** The same of the code's two loops. */
  method RewriteRendered(body: seq<Field>, tail: Tail, request: seq<Field>, end: string) returns (output: string)
    requires AreFields(body) && IsTail(tail) && AreFields(request) && HasNoQuote(end)
    requires Utf8.Valid(Rendered(body, TailText(tail))) && Utf8.Valid(Rendered(request, end))
    ensures output == Rendered(Respelled(body, ValuesOf(request)), TailText(tail))
  {
    hide Rendered, Rewritten, Utf8.Valid, AreFields, HasNoQuote;
    RenderedIsRespelled(body, tail, request, end);
    output := RewriteToolNames(Rendered(body, TailText(tail)), Rendered(request, end));
  }
}
