/** What a Server-Sent Events stream means as a whole (section 9.2.6 of the WHATWG HTML standard,
    data fields only, with the gateway's size limit). */
module SseSpec {
  import opened Bytes
  import Utf8

  const MAX_EVENT_BYTES := 1024 * 1024

  datatype Error = EventTooLarge | InvalidUtf8

  // ---------------------------------------------------------------- lines

  predicate IsTerminator(c: char) {
    c == '\n' || c == '\r'
  }

  /** Complete lines, and the unfinished text behind them. A carriage return at the very end stays
      with the unfinished text: a line feed may still follow and belong to it. */
  datatype Lines = Lines(complete: seq<string>, tail: string)

  /** The first line end at or after `from`. */
  function LineEnd(s: string, from: nat): (k: nat)
    requires from <= |s|
    ensures from <= k <= |s|
    ensures forall i :: from <= i < k ==> !IsTerminator(s[i])
    ensures k < |s| ==> IsTerminator(s[k])
    decreases |s| - from
  {
    if from == |s| || IsTerminator(s[from]) then from else LineEnd(s, from + 1)
  }

  /** Lines end at LF, CR LF or CR. */
  function Split(s: string): (r: Lines)
    decreases |s|
  {
    var k := LineEnd(s, 0);
    if k == |s| || (s[k] == '\r' && k + 1 == |s|) then Lines([], s)
    else
      var width := if s[k] == '\r' && s[k + 1] == '\n' then 2 else 1;
      var rest := Split(s[k + width..]);
      Lines([s[..k]] + rest.complete, rest.tail)
  }

  predicate PendingCr(tail: string) {
    tail != "" && tail[|tail| - 1] == '\r'
  }

  /** The unfinished text without a trailing carriage return. */
  function Partial(tail: string): string {
    if PendingCr(tail) then tail[..|tail| - 1] else tail
  }

  /** How one more byte changes the lines. */
  function SplitMore(p: Lines, b: char): Lines {
    if PendingCr(p.tail) && b == '\n' then Lines(p.complete + [Partial(p.tail)], "")
    else
      var q := if PendingCr(p.tail) then Lines(p.complete + [Partial(p.tail)], "") else p;
      if b == '\n' then Lines(q.complete + [q.tail], "") else Lines(q.complete, q.tail + [b])
  }

  lemma LineEndIs(s: string, from: nat, k: nat)
    requires from <= k <= |s|
    requires forall i :: from <= i < k ==> !IsTerminator(s[i])
    requires k < |s| ==> IsTerminator(s[k])
    ensures LineEnd(s, from) == k
  {
  }

  /** Text without a line end, but for a carriage return in last place, is all unfinished. */
  lemma SplitUnfinished(s: string)
    requires forall i :: 0 <= i < |s| - 1 ==> !IsTerminator(s[i])
    requires s != "" ==> s[|s| - 1] != '\n'
    ensures Split(s) == Lines([], s)
  {
    if s != "" && s[|s| - 1] == '\r' {
      LineEndIs(s, 0, |s| - 1);
    } else {
      LineEndIs(s, 0, |s|);
    }
  }

  /** A first line and its end are split off. */
  lemma SplitFirst(line: string, end: string, rest: string)
    requires forall i :: 0 <= i < |line| ==> !IsTerminator(line[i])
    requires end == "\n" || end == "\r\n" || (end == "\r" && rest != "" && rest[0] != '\n')
    ensures Split(line + end + rest) == Lines([line] + Split(rest).complete, Split(rest).tail)
  {
    var s := line + end + rest;
    assert forall i :: 0 <= i < |line| ==> s[i] == line[i];
    assert s[|line|] == end[0];
    LineEndIs(s, 0, |line|);
    assert s[..|line|] == line;
    assert s[|line| + |end|..] == rest;
    if end == "\r\n" {
      assert s[|line| + 1] == '\n';
    } else if end == "\r" {
      assert s[|line| + 1] == rest[0];
    }
  }

  lemma {:induction false} SplitOneMore(s: string, b: char)
    ensures Split(s + [b]) == SplitMore(Split(s), b)
    decreases |s|
  {
    hide Split, SplitMore;
    var k := LineEnd(s, 0);
    if k == |s| || (s[k] == '\r' && k + 1 == |s|) {
      SplitUnfinished(s);
      SplitOneMoreUnfinished(s, b);
    } else {
      var width := if s[k] == '\r' && s[k + 1] == '\n' then 2 else 1;
      var line, end, rest := s[..k], s[k..k + width], s[k + width..];
      assert s == line + end + rest;
      assert s + [b] == line + end + (rest + [b]);
      SplitFirst(line, end, rest);
      SplitFirst(line, end, rest + [b]);
      SplitOneMore(rest, b);
      SplitMoreBehind(line, Split(rest), b);
    }
  }

  lemma SplitMoreBehind(line: string, p: Lines, b: char)
    ensures SplitMore(Lines([line] + p.complete, p.tail), b)
            == Lines([line] + SplitMore(p, b).complete, SplitMore(p, b).tail)
  {
    assert forall last: string :: [line] + p.complete + [last] == [line] + (p.complete + [last]);
    assert forall x: string, y: string :: [line] + p.complete + [x] + [y] == [line] + (p.complete + [x] + [y]);
  }

  /** How a byte changes the lines when no carriage return is pending. */
  lemma NewByte(p: Lines, b: char)
    requires !PendingCr(p.tail)
    ensures Partial(p.tail) == p.tail
    ensures b == '\n' ==> SplitMore(p, b) == Lines(p.complete + [p.tail], "") && Partial("") == "" && !PendingCr("")
    ensures b != '\n' ==> SplitMore(p, b) == Lines(p.complete, p.tail + [b])
    ensures b == '\r' ==> PendingCr(p.tail + [b]) && Partial(p.tail + [b]) == p.tail
    ensures b != '\r' ==> !PendingCr(p.tail + [b]) && Partial(p.tail + [b]) == p.tail + [b]
  {
  }

  lemma SplitAfterCr(line: string, b: char)
    requires forall i :: 0 <= i < |line| ==> !IsTerminator(line[i])
    ensures Split(line + "\r" + [b]) == SplitMore(Lines([], line + "\r"), b)
  {
    hide Split;
    assert (line + "\r")[..|line|] == line;
    SplitUnfinished("");
    if b == '\n' {
      assert line + "\r" + [b] == line + "\r\n" + "";
      SplitFirst(line, "\r\n", "");
    } else {
      SplitFirst(line, "\r", [b]);
      SplitUnfinished([b]);
      assert "" + [b] == [b];
    }
  }

  lemma SplitOneMoreUnfinished(s: string, b: char)
    requires forall i :: 0 <= i < |s| - 1 ==> !IsTerminator(s[i])
    requires s != "" ==> s[|s| - 1] != '\n'
    ensures Split(s + [b]) == SplitMore(Lines([], s), b)
  {
    hide Split, SplitMore;
    SplitUnfinished("");
    if PendingCr(s) {
      assert s == s[..|s| - 1] + "\r";
      SplitAfterCr(s[..|s| - 1], b);
    } else if b == '\n' {
      assert s + [b] == s + "\n" + "";
      SplitFirst(s, "\n", "");
      NewByte(Lines([], s), b);
    } else {
      SplitUnfinished(s + [b]);
      NewByte(Lines([], s), b);
    }
  }

  // ---------------------------------------------------------------- events

  /** What the complete lines have produced: the events, the data values of the event in progress,
      and the bytes that event has used, each line end counting as one. */
  datatype Doc = Doc(events: seq<string>, values: seq<string>, used: nat)

  const BLANK := Doc([], [], 0)

  /** The value of a `data` field, unless the line is something else. */
  function DataValue(line: string): (r: Option<string>)
    ensures r.Some? ==> |r.value| < |line|
  {
    match FindChar(line, ':', 0)
    case None => if line == "data" then Some("") else None
    case Some(k) =>
      if line[..k] != "data" then None
      else if k + 1 < |line| && line[k + 1] == ' ' then Some(line[k + 2..])
      else Some(line[k + 1..])
  }

  /** The LF-join of `values`. */
  function Join(values: seq<string>): string {
    if values == [] then "" else if |values| == 1 then values[0] else values[0] + "\n" + Join(values[1..])
  }

  function Dispatch(doc: Doc): seq<string> {
    doc.events + if doc.values == [] then [] else [Join(doc.values)]
  }

  /** One complete line. */
  function Absorb(doc: Doc, line: string): (r: Result<Doc, Error>)
    ensures r.Ok? ==> doc.events <= r.value.events
  {
    if doc.used + |line| + 1 > MAX_EVENT_BYTES then Err(EventTooLarge)
    else if line == "" then Ok(Doc(Dispatch(doc), [], 0))
    else if !Utf8.Valid(line) then Err(InvalidUtf8)
    else
      var values := match DataValue(line) case Some(value) => doc.values + [value] case None => doc.values;
      Ok(Doc(doc.events, values, doc.used + |line| + 1))
  }

  function AbsorbAll(lines: seq<string>): Result<Doc, Error>
    decreases |lines|
  {
    if lines == [] then Ok(BLANK)
    else
      match AbsorbAll(lines[..|lines| - 1])
      case Err(error) => Err(error)
      case Ok(doc) => Absorb(doc, lines[|lines| - 1])
  }

  lemma AbsorbAllMore(lines: seq<string>, last: string)
    ensures AbsorbAll(lines + [last])
            == match AbsorbAll(lines) case Err(error) => Err(error) case Ok(doc) => Absorb(doc, last)
  {
    assert (lines + [last])[..|lines|] == lines;
  }

  /** Lines and unfinished text together: the text counts against the size of its event as well. */
  function Evaluate(p: Lines): Result<Doc, Error> {
    match AbsorbAll(p.complete)
    case Err(error) => Err(error)
    case Ok(doc) => if doc.used + |Partial(p.tail)| > MAX_EVENT_BYTES then Err(EventTooLarge) else Ok(doc)
  }

  /** The meaning of a byte stream that may still go on. */
  function Whole(s: string): Result<Doc, Error> {
    Evaluate(Split(s))
  }

  /** The lines of a stream that has ended: a carriage return at the very end completes its line,
      other unfinished text is dropped. */
  function Ended(p: Lines): Lines {
    if PendingCr(p.tail) then Lines(p.complete + [Partial(p.tail)], "") else p
  }

  /** The events of a stream that has ended. */
  function Finished(s: string): Result<seq<string>, Error> {
    match Evaluate(Ended(Split(s)))
    case Err(error) => Err(error)
    case Ok(doc) => Ok(doc.events)
  }

  lemma BrokenStaysOneMore(s: string, b: char)
    ensures Whole(s).Err? ==> Whole(s + [b]) == Whole(s)
    ensures Whole(s).Ok? && Whole(s + [b]).Ok? ==> Whole(s).value.events <= Whole(s + [b]).value.events
  {
    hide Split, AbsorbAll, Absorb;
    var p := Split(s);
    SplitOneMore(s, b);
    EvaluateMore(p, b);
  }

  /** The text before a byte that is still missing has no effect on an error already made. */
  lemma EvaluateMore(p: Lines, b: char)
    ensures Evaluate(p).Err? ==> Evaluate(SplitMore(p, b)) == Evaluate(p)
    ensures Evaluate(p).Ok? && Evaluate(SplitMore(p, b)).Ok? ==> Evaluate(p).value.events <= Evaluate(SplitMore(p, b)).value.events
  {
    hide AbsorbAll;
    var line := Partial(p.tail);
    AbsorbAllMore(p.complete, line);
    AbsorbAllMore(p.complete + [line], "");
  }

  /** An error cannot be undone by more input, and events come out in order. */
  lemma {:induction false} MoreInput(s: string, more: string)
    ensures Whole(s).Err? ==> Whole(s + more) == Whole(s)
    ensures Whole(s).Ok? && Whole(s + more).Ok? ==> Whole(s).value.events <= Whole(s + more).value.events
    decreases |more|
  {
    hide Whole;
    if more == "" {
      assert s + more == s;
    } else {
      BrokenStaysOneMore(s, more[0]);
      MoreInput(s + [more[0]], more[1..]);
      assert s + [more[0]] + more[1..] == s + more;
    }
  }
}

/** The incremental decoder. */
module SseDecoder {
  import opened Bytes
  import opened Sockets
  import Utf8
  import opened SseSpec

  /** Every value followed by a newline: what the decoder accumulates before a dispatch. */
  function Accumulated(values: seq<string>): (r: string)
    ensures values == [] <==> r == ""
    ensures r != "" ==> r[|r| - 1] == '\n'
    decreases |values|
  {
    if values == [] then "" else Accumulated(values[..|values| - 1]) + values[|values| - 1] + "\n"
  }

  lemma AccumulatedNothing()
    ensures Accumulated([]) == ""
  {
  }

  lemma AccumulatedMore(values: seq<string>, value: string)
    ensures Accumulated(values + [value]) == Accumulated(values) + value + "\n"
  {
    assert (values + [value])[..|values|] == values;
  }

  lemma {:induction false} AccumulatedFirst(values: seq<string>)
    requires values != []
    ensures Accumulated(values) == values[0] + "\n" + Accumulated(values[1..])
    decreases |values|
  {
    if |values| > 1 {
      var front := values[..|values| - 1];
      var last := values[|values| - 1];
      AccumulatedFirst(front);
      assert values[1..][..|values[1..]| - 1] == front[1..];
      assert values[1..][|values[1..]| - 1] == last;
      assert Accumulated(values[1..]) == Accumulated(front[1..]) + last + "\n";
    } else {
      assert values[1..] == [] && values[..0] == [];
    }
  }

  /** Popping the last newline leaves the LF-join. */
  lemma {:induction false} AccumulatedIsJoin(values: seq<string>)
    requires values != []
    ensures Accumulated(values) == Join(values) + "\n"
    decreases |values|
  {
    AccumulatedFirst(values);
    if |values| > 1 {
      AccumulatedIsJoin(values[1..]);
      assert Accumulated(values) == values[0] + "\n" + (Join(values[1..]) + "\n");
    } else {
      assert values[1..] == [];
    }
  }

  /** The events that came after the `known` ones. */
  function Since(known: seq<string>, events: seq<string>): seq<string> {
    if |known| <= |events| then events[|known|..] else []
  }

  lemma SinceSelf(events: seq<string>)
    ensures Since(events, events) == []
  {
  }

  lemma SinceDispatch(doc: Doc, events: seq<string>)
    ensures events + Since(doc.events, Dispatch(doc)) == if doc.values == [] then events else events + [Join(doc.values)]
  {
    hide Join;
    assert doc.events + [] == doc.events && events + [] == events;
  }

  lemma SinceTwice(a: seq<string>, b: seq<string>, c: seq<string>)
    requires a <= b <= c
    ensures Since(a, b) + Since(b, c) == Since(a, c)
  {
  }

  /** What one feed gives a decoder that has seen `seen`: the events the chunk completes, or the
      error of the stream so far. */
  function FeedOnce(seen: string, chunk: string): Result<seq<string>, Error>
    requires Whole(seen).Ok?
  {
    match Whole(seen + chunk)
    case Err(error) => Err(error)
    case Ok(doc) => Ok(Since(Whole(seen).value.events, doc.events))
  }

  class Decoder {
    var line: string
    var data: string
    var eventBytes: nat
    var sawData: bool
    var pendingCr: bool

    /** The bytes since the decoder was last fresh, and their lines. */
    ghost var seen: string
    ghost var lines: Lines

    /** The decoder is a function of the bytes since it was last fresh. */
    ghost predicate Ready()
      reads this
    {
      Valid() && lines == Split(seen)
    }

    /** The fields are exactly what the lines so far stand for. */
    ghost predicate Valid()
      reads this
    {
      && Evaluate(lines).Ok?
      && var doc := Evaluate(lines).value;
      && line == Partial(lines.tail) && pendingCr == PendingCr(lines.tail)
      && data == Accumulated(doc.values) && sawData == (doc.values != [])
      && eventBytes == doc.used
      && Bounded()
    }

    /** The size limits, and what `pop` will find. */
    ghost predicate Bounded()
      reads this
    {
      && eventBytes + |line| <= MAX_EVENT_BYTES && |data| <= eventBytes
      && (sawData <==> data != "") && (data != "" ==> data[|data| - 1] == '\n')
    }

    ghost predicate Fresh()
      reads this
    {
      line == "" && data == "" && eventBytes == 0 && !sawData && !pendingCr && lines == Lines([], "") && seen == ""
    }

    lemma FreshIsReady()
      requires Fresh()
      ensures Ready()
    {
      SplitUnfinished("");
    }

    constructor ()
      ensures Fresh() && Ready()
    {
      line, data, eventBytes, sawData, pendingCr := "", "", 0, false, false;
      lines, seen := Lines([], ""), "";
      new;
      FreshIsReady();
    }

    method ResetEvent()
      modifies this
      ensures eventBytes == 0 && !sawData && data == ""
      ensures line == old(line) && pendingCr == old(pendingCr) && lines == old(lines) && seen == old(seen)
    {
      eventBytes := 0;
      sawData := false;
      data := "";
    }

    method ResetCurrent()
      modifies this
      ensures Fresh()
    {
      line := "";
      pendingCr := false;
      ResetEvent();
      lines, seen := Lines([], ""), "";
    }

    method CheckSize(size: nat) returns (ok: bool)
      modifies this
      ensures ok <==> size <= MAX_EVENT_BYTES
      ensures ok ==> unchanged(this)
      ensures !ok ==> Fresh()
    {
      if size > MAX_EVENT_BYTES {
        ResetCurrent();
        return false;
      }
      return true;
    }

    /** The line in the buffer is complete: `before` is what was decoded up to it. The caller has
        already taken the line's own end off the input, so the ghost lines are set here. */
    method ProcessLine(events: seq<string>, ghost before: Doc) returns (r: Result<seq<string>, Error>)
      requires data == Accumulated(before.values) && sawData == (before.values != []) && eventBytes == before.used
      requires Bounded()
      requires AbsorbAll(lines.complete) == Ok(before) && line == Partial(lines.tail) && !pendingCr
      modifies this
      ensures match Absorb(before, old(line))
              case Err(error) => r == Err(error) && Fresh()
              case Ok(doc) => r == Ok(events + Since(before.events, doc.events)) && Valid()
                              && lines == Lines(old(lines.complete) + [old(line)], "") && seen == old(seen)
    {
      hide AbsorbAll, DataValue, Utf8.Valid, Accumulated, Join;
      AccumulatedNothing();
      var line' := line;
      line := "";
      AbsorbAllMore(lines.complete, line');
      lines := Lines(lines.complete + [line'], "");
      var ok := CheckSize(eventBytes + |line'| + 1);
      if !ok {
        return Err(EventTooLarge);
      }
      eventBytes := eventBytes + |line'| + 1;
      if line' == "" {
        r := Ok(events);
        if sawData {
          AccumulatedIsJoin(before.values);
          assert data[..|data| - 1] == Join(before.values);
          r := Ok(events + [data[..|data| - 1]]);
        }
        SinceDispatch(before, events);
        ResetEvent();
        return r;
      }
      if !Utf8.Valid(line') {
        ResetCurrent();
        return Err(InvalidUtf8);
      }
      var value := DataValue(line');
      if value.Some? {
        AccumulatedMore(before.values, value.value);
        data := data + value.value + "\n";
        sawData := true;
      }
      SinceSelf(before.events);
      assert events + [] == events;
      return Ok(events);
    }

    /** One byte of input when no carriage return is pending. */
    method AcceptByte(byte: char, events: seq<string>) returns (r: Result<seq<string>, Error>)
      requires Valid() && !pendingCr
      modifies this
      ensures match Evaluate(SplitMore(old(lines), byte))
              case Err(error) => r == Err(error) && Fresh()
              case Ok(doc) => r == Ok(events + Since(old(Evaluate(lines)).value.events, doc.events)) && Valid()
                              && lines == SplitMore(old(lines), byte) && seen == old(seen)
    {
      hide AbsorbAll, Absorb, Accumulated, SplitMore, Partial, PendingCr;
      NewByte(lines, byte);
      AbsorbAllMore(lines.complete, line);
      SinceSelf(Evaluate(lines).value.events);
      assert events + [] == events;
      match byte
      case '\n' =>
        r := ProcessLine(events, Evaluate(lines).value);
      case '\r' =>
        pendingCr := true;
        lines := Lines(lines.complete, lines.tail + ['\r']);
        r := Ok(events);
      case _ =>
        line := line + [byte];
        lines := Lines(lines.complete, lines.tail + [byte]);
        var ok := CheckSize(eventBytes + |line|);
        if !ok {
          return Err(EventTooLarge);
        }
        r := Ok(events);
    }

    /** One byte of input. */
    method FeedByte(byte: char, events: seq<string>) returns (r: Result<seq<string>, Error>)
      requires Valid()
      modifies this
      ensures match Evaluate(SplitMore(old(lines), byte))
              case Err(error) => r == Err(error) && Fresh()
              case Ok(doc) => r == Ok(events + Since(old(Evaluate(lines)).value.events, doc.events)) && Valid()
                              && lines == SplitMore(old(lines), byte) && seen == old(seen)
    {
      hide AbsorbAll, Absorb, Accumulated;
      var events' := events;
      if pendingCr {
        ghost var p, text, before := lines, line, Evaluate(lines).value;
        AbsorbAllMore(p.complete, text);
        EvaluateMore(Lines(p.complete + [text], ""), byte);
        pendingCr := false;
        r := ProcessLine(events, before);
        if r.Err? || byte == '\n' {
          return r;
        }
        events' := r.value;
        ghost var after := Evaluate(SplitMore(lines, byte));
        if after.Ok? {
          ghost var middle := Evaluate(lines).value.events;
          SinceTwice(before.events, middle, after.value.events);
          assert events + Since(before.events, middle) + Since(middle, after.value.events)
              == events + (Since(before.events, middle) + Since(middle, after.value.events));
        }
        r := AcceptByte(byte, events');
        return r;
      }
      r := AcceptByte(byte, events');
    }

    /** `feed`: the events that `chunk` completes, or the first error; the decoder is fresh after
        an error. Everything is settled by the bytes since the decoder was last fresh. */
    method Feed(chunk: string) returns (r: Result<seq<string>, Error>)
      requires Ready()
      modifies this
      ensures Ready() && r == FeedOnce(old(seen), chunk)
      ensures if r.Ok? then seen == old(seen) + chunk else Fresh()
    {
      hide Evaluate, Split, SplitMore, Partial, PendingCr, Accumulated;
      ghost var start := seen;
      ghost var known := Whole(start).value.events;
      var events := [];
      assert start + chunk[..0] == start;
      for i := 0 to |chunk|
        invariant Ready() && seen == start + chunk[..i]
        invariant known + events == Whole(seen).value.events
      {
        ghost var now := seen;
        SplitOneMore(now, chunk[i]);
        BrokenStaysOneMore(now, chunk[i]);
        assert start + chunk[..i + 1] == now + [chunk[i]];
        r := FeedByte(chunk[i], events);
        if r.Err? {
          MoreInput(now + [chunk[i]], chunk[i + 1..]);
          assert now + [chunk[i]] + chunk[i + 1..] == start + chunk;
          FreshIsReady();
          return r;
        }
        seen := now + [chunk[i]];
        events := r.value;
      }
      assert chunk[..|chunk|] == chunk;
      return Ok(events);
    }

    /** `finish`: a pending carriage return completes its line; whatever is still unfinished is
        dropped, and the decoder is fresh whether or not there was an error. */
    method Finish() returns (r: Result<seq<string>, Error>)
      requires Ready()
      modifies this
      ensures Ready() && Fresh()
      ensures match Finished(old(seen))
              case Err(error) => r == Err(error)
              case Ok(events) => r == Ok(Since(old(Whole(seen)).value.events, events))
    {
      hide AbsorbAll, Absorb, Split;
      var events := [];
      ghost var before := Evaluate(lines).value;
      AbsorbAllMore(lines.complete, line);
      if pendingCr {
        pendingCr := false;
        r := ProcessLine(events, before);
        if r.Err? {
          FreshIsReady();
          return r;
        }
        events := r.value;
        assert [] + Since(before.events, Finished(seen).value) == Since(before.events, Finished(seen).value);
      } else {
        SinceSelf(before.events);
      }
      line := "";
      ResetEvent();
      lines, seen := Lines([], ""), "";
      FreshIsReady();
      return Ok(events);
    }
  }

  // ---------------------------------------------------------------- laws of the contract of Feed

  /** The events of feeding `chunks` one after the other to a decoder that has seen `seen`, up to
      the first error. */
  function FeedEach(seen: string, chunks: seq<string>): Result<seq<string>, Error>
    requires Whole(seen).Ok?
    decreases |chunks|
  {
    if chunks == [] then Ok([])
    else
      match FeedOnce(seen, chunks[0])
      case Err(error) => Err(error)
      case Ok(events) =>
        match FeedEach(seen + chunks[0], chunks[1..])
        case Err(error) => Err(error)
        case Ok(more) => Ok(events + more)
  }

  /** How the input is cut into feeds does not matter: the feeds together give the events of one feed
      of everything, and one of them fails, with the same error, exactly when that one feed fails. */
  lemma {:induction false} CutsDoNotMatter(seen: string, chunks: seq<string>)
    requires Whole(seen).Ok?
    ensures FeedEach(seen, chunks) == FeedOnce(seen, Flatten(chunks))
    decreases |chunks|
  {
    hide Whole;
    if chunks == [] {
      assert seen + Flatten(chunks) == seen;
      SinceSelf(Whole(seen).value.events);
    } else {
      var next, later := seen + chunks[0], Flatten(chunks[1..]);
      assert seen + Flatten(chunks) == next + later;
      MoreInput(seen, chunks[0]);
      MoreInput(next, later);
      if Whole(next).Ok? {
        CutsDoNotMatter(next, chunks[1..]);
        if Whole(next + later).Ok? {
          SinceTwice(Whole(seen).value.events, Whole(next).value.events, Whole(next + later).value.events);
        }
      }
    }
  }

  // ---------------------------------------------------------------- line ends

  /** Text lines, each followed by the same line end. */
  function Terminated(lines: seq<string>, end: string): string {
    if lines == [] then "" else lines[0] + end + Terminated(lines[1..], end)
  }

  predicate AreLines(lines: seq<string>) {
    forall k, i :: 0 <= k < |lines| && 0 <= i < |lines[k]| ==> !IsTerminator(lines[k][i])
  }

  /** A finished stream has the lines it was written from, whichever line end was used. */
  lemma {:induction false} TerminatedSplits(lines: seq<string>, end: string)
    requires AreLines(lines) && end in {"\n", "\r\n", "\r"}
    ensures Ended(Split(Terminated(lines, end))) == Lines(lines, "")
    decreases |lines|
  {
    hide Split;
    SplitUnfinished("");
    if lines != [] {
      var rest := Terminated(lines[1..], end);
      var line := lines[0];
      assert lines == [line] + lines[1..];
      TerminatedSplits(lines[1..], end);
      if end == "\r" && rest == "" {
        NothingTerminated(lines[1..], end);
        SplitUnfinished(line + "\r");
        assert Terminated(lines, end) == line + "\r";
      } else {
        if end == "\r" {
          assert rest[0] == (if lines[1] == "" then '\r' else lines[1][0]);
        }
        SplitFirst(line, end, rest);
      }
    }
  }

  lemma NothingTerminated(lines: seq<string>, end: string)
    requires end != "" && Terminated(lines, end) == ""
    ensures lines == []
  {
  }

  /** LF, CR LF and CR streams of the same lines give the same events, or the same error, once
      they are finished. */
  lemma LineEndsDoNotMatter(lines: seq<string>, a: string, b: string)
    requires AreLines(lines) && a in {"\n", "\r\n", "\r"} && b in {"\n", "\r\n", "\r"}
    ensures Finished(Terminated(lines, a)) == Finished(Terminated(lines, b))
  {
    TerminatedSplits(lines, a);
    TerminatedSplits(lines, b);
  }
}
