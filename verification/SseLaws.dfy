/** What the decoder makes of event streams as they are written: a printer for events, and the decoder
    as its inverse. */
module SseLaws {
  import opened Bytes
  import opened Sockets
  import Utf8
  import opened SseSpec
  import opened SseDecoder

  // ---------------------------------------------------------------- the printer

  /** A line that carries a data value, or a comment or another field. */
  datatype Item = Value(line: string, value: string) | Ignored(line: string)

  /** The three ways to write a value on a line. */
  predicate Spells(line: string, value: string) {
    || line == "data: " + value
    || (line == "data:" + value && !(" " <= value))
    || (line == "data" && value == "")
  }

  predicate IsItem(x: Item) {
    && (forall i :: 0 <= i < |x.line| ==> !IsTerminator(x.line[i])) && Utf8.Valid(x.line)
    && match x
       case Value(line, value) => Spells(line, value)
       case Ignored(line) => line != "" && line != "data" && !("data:" <= line)
  }

  predicate AreItems(block: seq<Item>) {
    forall k :: 0 <= k < |block| ==> IsItem(block[k])
  }

  /** The values of an event, in order. */
  function ValuesOf(block: seq<Item>): seq<string>
    decreases |block|
  {
    if block == [] then []
    else
      ValuesOf(block[..|block| - 1]) + match block[|block| - 1] case Value(_, value) => [value] case Ignored(_) => []
  }

  /** The bytes of an event, each line end counting as one, but for the empty line. */
  function Cost(block: seq<Item>): nat
    decreases |block|
  {
    if block == [] then 0 else Cost(block[..|block| - 1]) + |block[|block| - 1].line| + 1
  }

  predicate Fits(block: seq<Item>) {
    Cost(block) + 1 <= MAX_EVENT_BYTES
  }

  function LinesOf(block: seq<Item>): (lines: seq<string>)
    ensures |lines| == |block|
    decreases |block|
  {
    if block == [] then [] else LinesOf(block[..|block| - 1]) + [block[|block| - 1].line]
  }

  /** Every block of lines is followed by an empty line. */
  function Printed(blocks: seq<seq<Item>>): seq<string>
    decreases |blocks|
  {
    if blocks == [] then [] else Printed(blocks[..|blocks| - 1]) + LinesOf(blocks[|blocks| - 1]) + [""]
  }

  /** The events written: the LF-join of the values of each block that has any. */
  function EventsOf(blocks: seq<seq<Item>>): seq<string>
    decreases |blocks|
  {
    if blocks == [] then []
    else
      var values := ValuesOf(blocks[|blocks| - 1]);
      EventsOf(blocks[..|blocks| - 1]) + if values == [] then [] else [Join(values)]
  }

  predicate AreBlocks(blocks: seq<seq<Item>>) {
    forall k :: 0 <= k < |blocks| ==> AreItems(blocks[k])
  }

  predicate AllFit(blocks: seq<seq<Item>>) {
    forall k :: 0 <= k < |blocks| ==> Fits(blocks[k])
  }

  // ---------------------------------------------------------------- one line

  /** A line written for a value is read as that value, with the one blank behind the colon removed. */
  lemma ValueIsRead(line: string, value: string)
    requires Spells(line, value)
    ensures DataValue(line) == Some(value)
  {
    if line != "data" {
      assert line[0] == 'd' && line[1] == 'a' && line[2] == 't' && line[3] == 'a' && line[4] == ':';
      assert FindChar(line, ':', 0) == Some(4);
      assert line[..4] == "data";
      if line == "data: " + value {
        assert line[5] == ' ' && line[6..] == value;
      } else {
        assert line[5..] == value;
        assert |line| > 5 ==> line[5] == value[0];
      }
    }
  }

  lemma OtherIsIgnored(line: string)
    requires line != "data" && !("data:" <= line)
    ensures DataValue(line) == None
  {
    if FindChar(line, ':', 0).Some? {
      var k := FindChar(line, ':', 0).value;
      assert line[..k + 1] == line[..k] + ":";
    }
  }

  lemma ItemIsAbsorbed(doc: Doc, x: Item)
    requires IsItem(x)
    ensures x.line != ""
    ensures Absorb(doc, x.line)
            == if doc.used + |x.line| + 1 > MAX_EVENT_BYTES then Err(EventTooLarge)
               else Ok(Doc(doc.events, doc.values + (match x case Value(_, value) => [value] case Ignored(_) => []),
                           doc.used + |x.line| + 1))
  {
    hide DataValue, Utf8.Valid;
    match x
    case Value(line, value) => ValueIsRead(line, value);
    case Ignored(line) =>
      OtherIsIgnored(line);
      assert doc.values + [] == doc.values;
  }

  // ---------------------------------------------------------------- one event

  lemma {:induction false} ErrorStays(lines: seq<string>, more: seq<string>)
    requires AbsorbAll(lines).Err?
    ensures AbsorbAll(lines + more) == AbsorbAll(lines)
    decreases |more|
  {
    hide Absorb;
    if more == [] {
      assert lines + more == lines;
    } else {
      ErrorStays(lines, more[..|more| - 1]);
      AbsorbAllMore(lines + more[..|more| - 1], more[|more| - 1]);
      assert lines + more == lines + more[..|more| - 1] + [more[|more| - 1]];
    }
  }

  /** The lines of a block behind complete events. */
  lemma {:induction false} BlockIsAbsorbed(front: seq<string>, events: seq<string>, block: seq<Item>)
    requires AbsorbAll(front) == Ok(Doc(events, [], 0)) && AreItems(block)
    ensures AbsorbAll(front + LinesOf(block))
            == if Cost(block) > MAX_EVENT_BYTES then Err(EventTooLarge) else Ok(Doc(events, ValuesOf(block), Cost(block)))
    decreases |block|
  {
    hide Absorb, IsItem, AbsorbAll;
    if block == [] {
      assert front + LinesOf(block) == front;
    } else {
      var shorter, x := block[..|block| - 1], block[|block| - 1];
      BlockIsAbsorbed(front, events, shorter);
      assert IsItem(x);
      AbsorbAllMore(front + LinesOf(shorter), x.line);
      assert front + LinesOf(block) == front + LinesOf(shorter) + [x.line];
      if Cost(shorter) <= MAX_EVENT_BYTES {
        ItemIsAbsorbed(Doc(events, ValuesOf(shorter), Cost(shorter)), x);
      }
    }
  }

  lemma EventIsAbsorbed(front: seq<string>, events: seq<string>, block: seq<Item>)
    requires AbsorbAll(front) == Ok(Doc(events, [], 0)) && AreItems(block)
    ensures AbsorbAll(front + LinesOf(block) + [""])
            == if !Fits(block) then Err(EventTooLarge)
               else Ok(Doc(events + (if ValuesOf(block) == [] then [] else [Join(ValuesOf(block))]), [], 0))
  {
    hide AbsorbAll, LinesOf, Cost, ValuesOf, Join;
    BlockIsAbsorbed(front, events, block);
    AbsorbAllMore(front + LinesOf(block), "");
  }

  // ---------------------------------------------------------------- whole streams

  lemma {:induction false} PrintedIsAbsorbed(blocks: seq<seq<Item>>)
    requires AreBlocks(blocks)
    ensures AbsorbAll(Printed(blocks)) == if AllFit(blocks) then Ok(Doc(EventsOf(blocks), [], 0)) else Err(EventTooLarge)
    decreases |blocks|
  {
    hide AbsorbAll, AreItems, Fits;
    if blocks == [] {
      NothingIsAbsorbed();
    } else {
      var front, last := blocks[..|blocks| - 1], blocks[|blocks| - 1];
      PrintedIsAbsorbed(front);
      if AllFit(front) {
        EventIsAbsorbed(Printed(front), EventsOf(front), last);
        assert AllFit(blocks) <==> Fits(last);
      } else {
        ErrorStays(Printed(front), LinesOf(last) + [""]);
        assert Printed(front) + (LinesOf(last) + [""]) == Printed(blocks);
      }
    }
  }

  lemma NothingIsAbsorbed()
    ensures AbsorbAll([]) == Ok(BLANK)
  {
  }

  lemma {:induction false} LinesAreLines(block: seq<Item>)
    requires AreItems(block)
    ensures AreLines(LinesOf(block))
    decreases |block|
  {
    if block != [] {
      LinesAreLines(block[..|block| - 1]);
      assert IsItem(block[|block| - 1]);
    }
  }

  lemma {:induction false} PrintedAreLines(blocks: seq<seq<Item>>)
    requires AreBlocks(blocks)
    ensures AreLines(Printed(blocks))
    decreases |blocks|
  {
    hide AreItems, LinesOf;
    if blocks != [] {
      PrintedAreLines(blocks[..|blocks| - 1]);
      LinesAreLines(blocks[|blocks| - 1]);
    }
  }

  /** What was written is what is read: a stream of blocks, with any of the line ends, finishes with
      exactly the events written, or with an error if and only if some event is above the limit. */
  lemma PrintedIsDecoded(blocks: seq<seq<Item>>, end: string)
    requires AreBlocks(blocks) && end in {"\n", "\r\n", "\r"}
    ensures Finished(Terminated(Printed(blocks), end)) == if AllFit(blocks) then Ok(EventsOf(blocks)) else Err(EventTooLarge)
  {
    hide AbsorbAll, Split, Printed, Terminated, AllFit, AreLines;
    PrintedAreLines(blocks);
    TerminatedSplits(Printed(blocks), end);
    PrintedIsAbsorbed(blocks);
  }

  /** A line that is no UTF-8 behind events within the limit. */
  lemma BadTextIsRefused(blocks: seq<seq<Item>>, line: string, more: seq<string>, end: string)
    requires AreBlocks(blocks) && AllFit(blocks) && end in {"\n", "\r\n", "\r"}
    requires !Utf8.Valid(line) && |line| + 1 <= MAX_EVENT_BYTES && AreLines([line] + more)
    ensures Finished(Terminated(Printed(blocks) + [line] + more, end)) == Err(InvalidUtf8)
  {
    hide AbsorbAll, Split, Printed, Terminated, AllFit, Utf8.Valid;
    PrintedAreLines(blocks);
    NothingIsValid();
    var lines := Printed(blocks) + [line] + more;
    assert lines == Printed(blocks) + ([line] + more);
    TerminatedSplits(lines, end);
    PrintedIsAbsorbed(blocks);
    AbsorbAllMore(Printed(blocks), line);
    ErrorStays(Printed(blocks) + [line], more);
  }

  /** The first line counts while it is still being written: a stream without any line end is within the
      limit or too large. */
  lemma UnfinishedLine(text: string)
    requires forall i :: 0 <= i < |text| ==> !IsTerminator(text[i])
    ensures Whole(text) == if |text| <= MAX_EVENT_BYTES then Ok(BLANK) else Err(EventTooLarge)
    ensures |text| <= MAX_EVENT_BYTES ==> Finished(text) == Ok([])
  {
    hide Split;
    SplitUnfinished(text);
    NothingIsAbsorbed();
    assert !PendingCr(text);
  }

  lemma NothingIsValid()
    ensures Utf8.Valid("")
  {
  }

  // ---------------------------------------------------------------- the decoder on whole streams

  lemma NothingRead()
    ensures Flatten([]) == "" && Whole("").Ok? && Whole("").value.events == []
  {
    SplitUnfinished("");
  }

  lemma OneMoreChunk(chunks: seq<string>, i: nat)
    requires i < |chunks|
    ensures Flatten(chunks[..i + 1]) == Flatten(chunks[..i]) + chunks[i]
    ensures Flatten(chunks[i..]) == chunks[i] + Flatten(chunks[i + 1..])
  {
    assert chunks[..i + 1] == chunks[..i] + [chunks[i]];
    FlattenAppend(chunks[..i], chunks[i]);
    assert chunks[i..][1..] == chunks[i + 1..];
  }

  /** The end of the stream changes no error and takes no event back. */
  lemma EndKeeps(s: string)
    ensures Whole(s).Err? ==> Finished(s) == Err(Whole(s).error)
    ensures Whole(s).Ok? && Finished(s).Ok? ==> Whole(s).value.events <= Finished(s).value
  {
    hide Split, AbsorbAll;
    var p := Split(s);
    AbsorbAllMore(p.complete, Partial(p.tail));
  }

  lemma SinceRest(known: seq<string>, events: seq<string>)
    requires known <= events
    ensures known + Since(known, events) == events
  {
  }

  /** A fresh decoder is fed with the chunks of a stream, up to the first error, and finished. */
  method DecodeStream(chunks: seq<string>) returns (r: Result<seq<string>, Error>)
    ensures r == Finished(Flatten(chunks))
  {
    hide Whole, Finished, Flatten;
    var decoder := new Decoder();
    var events := [];
    NothingRead();
    assert chunks[..0] == [] && chunks[0..] == chunks && "" + Flatten(chunks) == Flatten(chunks);
    for i := 0 to |chunks|
      invariant decoder.Ready() && decoder.seen == Flatten(chunks[..i])
      invariant Flatten(chunks) == Flatten(chunks[..i]) + Flatten(chunks[i..])
      invariant Whole(decoder.seen).Ok? && events == Whole(decoder.seen).value.events
    {
      ghost var seen := decoder.seen;
      OneMoreChunk(chunks, i);
      MoreInput(seen, chunks[i]);
      assert seen + chunks[i] + Flatten(chunks[i + 1..]) == Flatten(chunks);
      var more := decoder.Feed(chunks[i]);
      if more.Err? {
        MoreInput(seen + chunks[i], Flatten(chunks[i + 1..]));
        EndKeeps(Flatten(chunks));
        return more;
      }
      events := events + more.value;
    }
    assert chunks[|chunks|..] == [] && chunks[..|chunks|] == chunks;
    EndKeeps(Flatten(chunks));
    var rest := decoder.Finish();
    match rest
    case Err(_) => return rest;
    case Ok(last) =>
      SinceRest(events, Finished(Flatten(chunks)).value);
      return Ok(events + last);
  }

  /** In particular the printed streams, however they are cut into chunks. */
  method DecodePrinted(chunks: seq<string>, ghost blocks: seq<seq<Item>>, ghost end: string) returns (r: Result<seq<string>, Error>)
    requires AreBlocks(blocks) && end in {"\n", "\r\n", "\r"} && Flatten(chunks) == Terminated(Printed(blocks), end)
    ensures r == if AllFit(blocks) then Ok(EventsOf(blocks)) else Err(EventTooLarge)
  {
    hide Finished, Flatten, AreBlocks, AllFit, Terminated, Printed, EventsOf;
    PrintedIsDecoded(blocks, end);
    r := DecodeStream(chunks);
  }
}
