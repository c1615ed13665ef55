/** The tool-name rewriter: every JSON `"name"` value of a response that equals, up to ASCII
    case, a name of the request is given back the request's spelling. */
module ToolNames {
  import opened Bytes
  import Utf8

  const KEY := "\"name\""

  /** Only names with an upper-case letter are worth restoring. */
  predicate Eligible(name: string) {
    name != [] && exists i :: 0 <= i < |name| && 'A' <= name[i] <= 'Z'
  }

  /** The quoted value after the first `"name"` key, and the text behind its closing quote. */
  function NextName(rest: string): (r: Option<(string, string)>)
    ensures r.Some? ==> |r.value.1| < |rest|
  {
    match Find(rest, KEY, 0)
    case None => None
    case Some(index) =>
      var afterKey := rest[index + 6..];
      match FindChar(afterKey, '"', 0)
      case None => None
      case Some(open) =>
        var value := afterKey[open + 1..];
        match FindChar(value, '"', 0)
        case None => None
        case Some(close) => Some((value[..close], value[close + 1..]))
  }

  /** The eligible quoted values that follow each `"name"` key of the request, in order. */
  function RequestNames(rest: string): (names: seq<string>)
    ensures forall name :: name in names ==> Eligible(name)
    decreases |rest|
  {
    match NextName(rest)
    case None => []
    case Some((original, more)) =>
      (if Eligible(original) then [original] else []) + RequestNames(more)
  }

  datatype Span = Span(start: nat, end: nat)

  /** The string value that follows the first colon at or after `from`, if it comes first. */
  function ValueAfter(text: string, from: nat): (r: Option<Span>)
    ensures r.Some? ==> from < r.value.start <= r.value.end < |text|
    ensures r.Some? ==> text[r.value.start - 1] == '"' && text[r.value.end] == '"'
    ensures r.Some? ==> forall i :: r.value.start <= i < r.value.end ==> text[i] != '"'
  {
    match FindChar(text, ':', from)
    case None => None
    case Some(colon) =>
      var open := SkipWhitespace(text, colon + 1);
      if open >= |text| || text[open] != '"' then None
      else
        match FindChar(text, '"', open + 1)
        case None => None
        case Some(end) => Some(Span(open + 1, end))
  }

  lemma ValueAfterIgnoresCase(text: string, from: nat)
    ensures ValueAfter(Lower(text), from) == ValueAfter(text, from)
  {
    hide FindChar, SkipWhitespace, WhitespaceLen;
    FindCharIgnoresCase(text, ':', from);
    match FindChar(text, ':', from)
    case None =>
    case Some(colon) =>
      SkipWhitespaceIgnoresCase(text, colon + 1);
      var open := SkipWhitespace(text, colon + 1);
      assert open < |text| ==> (Lower(text)[open] == '"' <==> text[open] == '"');
      FindCharIgnoresCase(text, '"', open + 1);
  }

  /** The string value of the first `"name"` key at or after `cursor` in a lower-cased text. */
  function NextValue(lo: string, cursor: nat): (r: Option<Span>)
    ensures r.Some? ==> cursor + 6 <= r.value.start <= r.value.end < |lo|
    ensures r.Some? ==> lo[r.value.start - 1] == '"' && lo[r.value.end] == '"'
    ensures r.Some? ==> forall i :: r.value.start <= i < r.value.end ==> lo[i] != '"'
  {
    match Find(lo, KEY, cursor)
    case None => None
    case Some(name) => ValueAfter(lo, name + 6)
  }

  /** Where the values equal to `target` start, among the values the scan visits. */
  function Matches(lo: string, target: string, cursor: nat): (starts: seq<nat>)
    decreases |lo| - cursor
  {
    match NextValue(lo, cursor)
    case None => []
    case Some(span) =>
      if lo[span.start..span.end] == target then [span.start] + Matches(lo, target, span.end)
      else Matches(lo, target, span.end + 1)
  }

  /** Values of `width` bytes at `starts` lie within a text of `length` bytes. */
  predicate Fits(starts: seq<nat>, width: nat, length: nat) {
    forall k :: 0 <= k < |starts| ==> starts[k] + width <= length
  }

  /** Values of `width` bytes at `starts` come in increasing order without touching. */
  predicate Apart(starts: seq<nat>, width: nat) {
    forall a, b :: 0 <= a < b < |starts| ==> starts[a] + width < starts[b]
  }

  function Overwrite(text: string, name: string, s: nat): (r: string)
    requires s + |name| <= |text|
    ensures |r| == |text|
    ensures forall i :: 0 <= i < |text| ==> r[i] == if s <= i < s + |name| then name[i - s] else text[i]
  {
    text[..s] + name + text[s + |name|..]
  }

  /** `name` written over `text` at each of `starts`. */
  function Stamp(text: string, name: string, starts: seq<nat>): (r: string)
    requires Fits(starts, |name|, |text|)
    ensures |r| == |text|
    decreases |starts|
  {
    if starts == [] then text else Stamp(Overwrite(text, name, starts[0]), name, starts[1..])
  }

  /** `s` is where the scan for `target` replaces a value that contains position `i`. */
  predicate Covers(lo: string, target: string, s: nat, i: nat) {
    s in Matches(lo, target, 0) && s <= i < s + |target|
  }

  /** A matching value is a whole quoted value: `target` between two quotes, none inside. */
  lemma {:induction false} MatchIsQuoted(lo: string, target: string, cursor: nat, s: nat)
    requires s in Matches(lo, target, cursor)
    ensures cursor + 6 <= s && s + |target| < |lo| && lo[s..s + |target|] == target
    ensures lo[s - 1] == '"' && lo[s + |target|] == '"'
    ensures forall i :: s <= i < s + |target| ==> lo[i] != '"'
    decreases |lo| - cursor
  {
    hide NextValue;
    var span := NextValue(lo, cursor).value;
    if lo[span.start..span.end] == target {
      if s != span.start {
        MatchIsQuoted(lo, target, span.end, s);
      }
    } else {
      MatchIsQuoted(lo, target, span.end + 1, s);
    }
  }

  lemma MatchesFit(lo: string, target: string, cursor: nat)
    ensures Fits(Matches(lo, target, cursor), |target|, |lo|)
  {
    var starts := Matches(lo, target, cursor);
    forall k | 0 <= k < |starts|
      ensures starts[k] + |target| <= |lo|
    {
      MatchIsQuoted(lo, target, cursor, starts[k]);
    }
  }

  /** Two replaced values that share a byte are the same value, for the same lower-case name. */
  lemma OverlappingMatchesCoincide(lo: string, t1: string, s1: nat, t2: string, s2: nat, i: nat)
    requires Covers(lo, t1, s1, i) && Covers(lo, t2, s2, i)
    ensures s1 == s2 && t1 == t2
  {
    hide Matches;
    MatchIsQuoted(lo, t1, 0, s1);
    MatchIsQuoted(lo, t2, 0, s2);
    assert !(s1 < s2) && !(s2 < s1);
    assert lo[s1 + |t1|] == '"' && lo[s1 + |t2|] == '"';
    assert !(|t1| < |t2|) && !(|t2| < |t1|);
  }

  /** Matches come in increasing order without overlap. */
  lemma {:induction false} MatchesAreApart(lo: string, target: string, cursor: nat)
    ensures Apart(Matches(lo, target, cursor), |target|)
    decreases |lo| - cursor
  {
    hide NextValue;
    match NextValue(lo, cursor)
    case None =>
    case Some(span) =>
      if lo[span.start..span.end] == target {
        var later := Matches(lo, target, span.end);
        MatchesAreApart(lo, target, span.end);
        forall k | 0 <= k < |later|
          ensures span.end < later[k]
        {
          MatchIsQuoted(lo, target, span.end, later[k]);
        }
        assert Matches(lo, target, cursor) == [span.start] + later;
      } else {
        MatchesAreApart(lo, target, span.end + 1);
      }
  }

  /** Stamping leaves a byte outside every stamped value alone. */
  lemma {:induction false} StampOutside(text: string, name: string, starts: seq<nat>, i: nat)
    requires Fits(starts, |name|, |text|) && i < |text|
    requires forall k :: 0 <= k < |starts| ==> !(starts[k] <= i < starts[k] + |name|)
    ensures Stamp(text, name, starts)[i] == text[i]
    decreases |starts|
  {
    if starts != [] {
      StampOutside(Overwrite(text, name, starts[0]), name, starts[1..], i);
    }
  }

  /** Stamping leaves `name` in every stamped value. */
  lemma {:induction false} StampInside(text: string, name: string, starts: seq<nat>, k: nat, i: nat)
    requires Fits(starts, |name|, |text|) && Apart(starts, |name|)
    requires k < |starts| && starts[k] <= i < starts[k] + |name|
    ensures Stamp(text, name, starts)[i] == name[i - starts[k]]
    decreases |starts|
  {
    var next := Overwrite(text, name, starts[0]);
    if k == 0 {
      StampOutside(next, name, starts[1..], i);
    } else {
      StampInside(next, name, starts[1..], k - 1, i);
    }
  }

  /** Stamping a name over spans that already hold it up to case changes letter case only. */
  lemma {:induction false} StampKeepsLower(text: string, name: string, starts: seq<nat>)
    requires Fits(starts, |name|, |text|)
    requires forall k :: 0 <= k < |starts| ==> At(Lower(text), Lower(name), starts[k])
    ensures Lower(Stamp(text, name, starts)) == Lower(text)
    decreases |starts|
  {
    if starts != [] {
      OverwriteKeepsLower(text, name, starts[0]);
      StampKeepsLower(Overwrite(text, name, starts[0]), name, starts[1..]);
    }
  }

  lemma OverwriteKeepsLower(text: string, name: string, s: nat)
    requires At(Lower(text), Lower(name), s)
    ensures Lower(Overwrite(text, name, s)) == Lower(text)
  {
    var lo := Lower(text);
    forall i | 0 <= i < |text|
      ensures Lower(Overwrite(text, name, s))[i] == lo[i]
    {
      if s <= i < s + |name| {
        assert lo[s..s + |name|][i - s] == Lower(name)[i - s];
      }
    }
  }

  /** The text with `name` restored in every value the scan visits from `cursor` on. */
  function PassFrom(text: string, name: string, cursor: nat): (r: string)
    ensures |r| == |text|
    ensures SameUpToCase(r, text)
  {
    MatchesFit(Lower(text), Lower(name), cursor);
    PassKeepsCase(text, name, cursor);
    Stamp(text, name, Matches(Lower(text), Lower(name), cursor))
  }

  /** One name restored throughout `text`. */
  function Pass(text: string, name: string): (r: string)
    ensures |r| == |text|
    ensures SameUpToCase(r, text)
  {
    PassFrom(text, name, 0)
  }

  lemma PassKeepsCase(text: string, name: string, cursor: nat)
    requires Fits(Matches(Lower(text), Lower(name), cursor), |name|, |text|)
    ensures Lower(Stamp(text, name, Matches(Lower(text), Lower(name), cursor))) == Lower(text)
  {
    hide NextValue;
    var starts := Matches(Lower(text), Lower(name), cursor);
    forall k | 0 <= k < |starts|
      ensures At(Lower(text), Lower(name), starts[k])
    {
      MatchIsQuoted(Lower(text), Lower(name), cursor, starts[k]);
    }
    StampKeepsLower(text, name, starts);
  }

  /** All `names` restored one after the other. */
  function Restore(text: string, names: seq<string>): (r: string)
    ensures |r| == |text|
    decreases |names|
  {
    if names == [] then text else Restore(Pass(text, names[0]), names[1..])
  }

  /** Only the case of ASCII letters changes. */
  lemma {:induction false} RestoreKeepsLower(text: string, names: seq<string>)
    ensures SameUpToCase(Restore(text, names), text)
    decreases |names|
  {
    if names != [] {
      RestoreKeepsLower(Pass(text, names[0]), names[1..]);
    }
  }

  lemma PassInside(text: string, name: string, s: nat, i: nat)
    requires i < |text| && Covers(Lower(text), Lower(name), s, i)
    ensures Pass(text, name)[i] == name[i - s]
  {
    var starts := Matches(Lower(text), Lower(name), 0);
    MatchesFit(Lower(text), Lower(name), 0);
    MatchesAreApart(Lower(text), Lower(name), 0);
    var k :| 0 <= k < |starts| && starts[k] == s;
    StampInside(text, name, starts, k, i);
  }

  lemma PassOutside(text: string, name: string, i: nat)
    requires i < |text| && forall s :: !Covers(Lower(text), Lower(name), s, i)
    ensures Pass(text, name)[i] == text[i]
  {
    var starts := Matches(Lower(text), Lower(name), 0);
    MatchesFit(Lower(text), Lower(name), 0);
    forall k | 0 <= k < |starts|
      ensures !(starts[k] <= i < starts[k] + |name|)
    {
      assert !Covers(Lower(text), Lower(name), starts[k], i);
    }
    StampOutside(text, name, starts, i);
  }

  /** A byte inside no replaced value is left alone. */
  lemma {:induction false} RestoreLeavesTheRest(text: string, names: seq<string>, i: nat)
    requires i < |text|
    requires forall name, s :: name in names ==> !Covers(Lower(text), Lower(name), s, i)
    ensures Restore(text, names)[i] == text[i]
    decreases |names|
  {
    if names != [] {
      assert names[0] in names;
      PassOutside(text, names[0], i);
      RestoreLeavesTheRest(Pass(text, names[0]), names[1..], i);
    }
  }

  /** Among the names with one lower-case form, the last decides every value visited for it. */
  lemma {:induction false} LastNameWins(text: string, names: seq<string>, k: nat, s: nat, i: nat)
    requires i < |text| && k < |names| && Covers(Lower(text), Lower(names[k]), s, i)
    requires forall later :: k < later < |names| ==> Lower(names[later]) != Lower(names[k])
    ensures Restore(text, names)[i] == names[k][i - s]
    decreases |names|
  {
    hide Pass, Matches;
    var next := Pass(text, names[0]);
    if k == 0 {
      PassInside(text, names[0], s, i);
      forall name, r | name in names[1..]
        ensures !Covers(Lower(text), Lower(name), r, i)
      {
        var j :| 0 <= j < |names[1..]| && names[1..][j] == name;
        assert names[j + 1] == name;
        if Covers(Lower(text), Lower(name), r, i) {
          OverlappingMatchesCoincide(Lower(text), Lower(names[0]), s, Lower(name), r, i);
        }
      }
      RestoreLeavesTheRest(next, names[1..], i);
    } else {
      assert names[1..][k - 1] == names[k];
      LastNameWins(next, names[1..], k - 1, s, i);
    }
  }

  /** The last name with the lower-case form of `names[k]`. */
  lemma {:induction false} LastWithForm(names: seq<string>, k: nat) returns (last: nat)
    requires k < |names|
    ensures k <= last < |names| && Lower(names[last]) == Lower(names[k])
    ensures forall later :: last < later < |names| ==> Lower(names[later]) != Lower(names[k])
    decreases |names| - k
  {
    if later :| k < later < |names| && Lower(names[later]) == Lower(names[k]) {
      last := LastWithForm(names, later);
    } else {
      last := k;
    }
  }

  /** Restoring the same names twice changes nothing more. */
  lemma RestoreIsIdempotent(text: string, names: seq<string>)
    ensures Restore(Restore(text, names), names) == Restore(text, names)
  {
    var once := Restore(text, names);
    RestoreKeepsLower(text, names);
    forall i | 0 <= i < |text|
      ensures Restore(once, names)[i] == once[i]
    {
      if name, s :| name in names && Covers(Lower(text), Lower(name), s, i) {
        var k :| 0 <= k < |names| && names[k] == name;
        var last := LastWithForm(names, k);
        LastNameWins(text, names, last, s, i);
        LastNameWins(once, names, last, s, i);
      } else {
        RestoreLeavesTheRest(once, names, i);
      }
    }
  }

  /** The rewriter's result for a response body and the request that caused it. */
  function Rewritten(body: string, request: string): (r: string)
    ensures |r| == |body|
  {
    if Utf8.Valid(body) && Utf8.Valid(request) then Restore(body, RequestNames(request)) else body
  }

  lemma RewrittenKeepsLower(body: string, request: string)
    ensures SameUpToCase(Rewritten(body, request), body)
  {
    RestoreKeepsLower(body, RequestNames(request));
  }

  /** Rewriting an already rewritten body with the same request changes nothing. */
  lemma RewrittenIsIdempotent(body: string, request: string)
    ensures Rewritten(Rewritten(body, request), request) == Rewritten(body, request)
  {
    RewrittenKeepsLower(body, request);
    Utf8.ValidIgnoresCase(Rewritten(body, request), body);
    RestoreIsIdempotent(body, RequestNames(request));
  }

  /** The last of the `names` with its lower-case form is `names[k]`, and the scan replaces a value at `s`
      around position `i` for it. */
  ghost predicate Decides(lo: string, names: seq<string>, k: nat, s: nat, i: nat)
    requires k < |names|
  {
    && Covers(lo, Lower(names[k]), s, i)
    && forall later :: k < later < |names| ==> Lower(names[later]) != Lower(names[k])
  }

  /** A byte no name decides is left alone. */
  lemma UndecidedByteStays(text: string, names: seq<string>, i: nat)
    requires i < |text|
    requires forall k, s :: 0 <= k < |names| ==> !Decides(Lower(text), names, k, s, i)
    ensures Restore(text, names)[i] == text[i]
  {
    forall name, s | name in names
      ensures !Covers(Lower(text), Lower(name), s, i)
    {
      var k :| 0 <= k < |names| && names[k] == name;
      var last := LastWithForm(names, k);
      assert !Decides(Lower(text), names, last, s, i);
    }
    RestoreLeavesTheRest(text, names, i);
  }

  /** Which values are replaced depends on the text only up to case, and every byte of the result
      is settled: it is the byte of the deciding name, or the byte of the text when there is none. */
  lemma RestoreAt(text: string, names: seq<string>, i: nat)
    requires i < |text|
    ensures forall k, s :: 0 <= k < |names| && Decides(Lower(text), names, k, s, i) ==>
              Restore(text, names)[i] == names[k][i - s]
    ensures (forall k, s :: 0 <= k < |names| ==> !Decides(Lower(text), names, k, s, i)) ==>
              Restore(text, names)[i] == text[i]
  {
    forall k, s | 0 <= k < |names| && Decides(Lower(text), names, k, s, i)
      ensures Restore(text, names)[i] == names[k][i - s]
    {
      LastNameWins(text, names, k, s, i);
    }
    if forall k, s :: 0 <= k < |names| ==> !Decides(Lower(text), names, k, s, i) {
      UndecidedByteStays(text, names, i);
    }
  }

  /** The scan has reached the end: nothing more to restore. */
  lemma PassEnds(text: string, name: string, cursor: nat)
    requires NextValue(Lower(text), cursor) == None
    ensures PassFrom(text, name, cursor) == text
  {
    hide NextValue;
  }

  /** A value that differs is skipped together with its closing quote. */
  lemma PassSkips(text: string, name: string, cursor: nat, start: nat, end: nat)
    requires NextValue(Lower(text), cursor) == Some(Span(start, end))
    requires !SameUpToCase(text[start..end], name)
    ensures PassFrom(text, name, cursor) == PassFrom(text, name, end + 1)
  {
    hide NextValue, Stamp;
    assert Lower(text[start..end]) == Lower(text)[start..end];
  }

  /** A value that agrees is overwritten and the scan resumes at its closing quote. */
  lemma PassHits(text: string, name: string, cursor: nat, start: nat, end: nat)
    requires NextValue(Lower(text), cursor) == Some(Span(start, end))
    requires SameUpToCase(text[start..end], name)
    ensures end == start + |name|
    ensures |text[..start] + name + text[end..]| == |text|
    ensures PassFrom(text[..start] + name + text[end..], name, end) == PassFrom(text, name, cursor)
  {
    hide NextValue;
    var lo, target := Lower(text), Lower(name);
    assert Lower(text[start..end]) == lo[start..end];
    assert |Lower(text[start..end])| == |target|;
    OverwriteKeepsLower(text, name, start);
    MatchesFit(lo, target, cursor);
    var later := Matches(lo, target, end);
    assert Matches(lo, target, cursor) == [start] + later;
    assert ([start] + later)[1..] == later;
    assert Overwrite(text, name, start) == text[..start] + name + text[end..];
  }

  /** Looking for the value in the text itself finds what looking in its lower-casing finds. */
  lemma NextValueInPlace(text: string, cursor: nat)
    ensures match Find(Lower(text), KEY, cursor)
            case None => NextValue(Lower(text), cursor) == None
            case Some(index) => NextValue(Lower(text), cursor) == ValueAfter(text, index + 6)
  {
    hide Find, FindChar, ValueAfter;
    if Find(Lower(text), KEY, cursor).Some? {
      ValueAfterIgnoresCase(text, Find(Lower(text), KEY, cursor).value + 6);
    }
  }

  /** The inner scan: restores `name` in `text`, editing it in place from left to right. */
  method RestoreOne(text: string, name: string) returns (output: string)
    requires Eligible(name)
    ensures output == PassFrom(text, name, 0)
  {
    hide *;
    output := text;
    var cursor := 0;
    while true
      invariant cursor <= |output| == |text|
      invariant PassFrom(output, name, cursor) == PassFrom(text, name, 0)
      decreases |text| - cursor
    {
      NextValueInPlace(output, cursor);
      var index := Find(Lower(output), KEY, cursor);
      if index.None? {
        PassEnds(output, name, cursor);
        break;
      }
      var value := ValueAfter(output, index.value + 6);
      if value.None? {
        PassEnds(output, name, cursor);
        break;
      }
      var Span(start, end) := value.value;
      if SameUpToCase(output[start..end], Lower(name)) {
        LowerTargetIsEnough(output[start..end], name);
        PassHits(output, name, cursor, start, end);
        output := output[..start] + name + output[end..];
        cursor := start + |name|;
      } else {
        LowerTargetIsEnough(output[start..end], name);
        PassSkips(output, name, cursor, start, end);
        cursor := end + 1;
      }
    }
  }

  lemma RequestNamesStep(text: string, rest: string, original: string, more: string)
    requires NextName(rest) == Some((original, more))
    ensures Restore(text, RequestNames(rest))
            == Restore(if Eligible(original) then Pass(text, original) else text, RequestNames(more))
  {
    hide NextName, Pass, Eligible;
    if Eligible(original) {
      assert RequestNames(rest)[1..] == RequestNames(more);
    } else {
      assert RequestNames(rest) == RequestNames(more);
    }
  }

  lemma RequestNamesEnd(text: string, rest: string)
    requires NextName(rest) == None
    ensures Restore(text, RequestNames(rest)) == text
  {
    hide NextName;
  }

  /** `rewrite_tool_names`: the outer scan over the request. */
  method RewriteToolNames(body: string, request: string) returns (output: string)
    ensures output == Rewritten(body, request)
  {
    hide NextName, RequestNames, Eligible, Restore, Utf8.Valid;
    if !Utf8.Valid(body) || !Utf8.Valid(request) {
      return body;
    }
    output := body;
    var rest := request;
    while true
      invariant Restore(output, RequestNames(rest)) == Restore(body, RequestNames(request))
      decreases |rest|
    {
      var next := NextName(rest);
      if next.None? {
        RequestNamesEnd(output, rest);
        break;
      }
      var (original, more) := next.value;
      RequestNamesStep(output, rest, original, more);
      rest := more;
      if Eligible(original) {
        output := RestoreOne(output, original);
      }
    }
  }
}
