/** The streaming relay: decodes an upstream body, restores tool names window by window and sends
    the result on in chunked coding. */
module Relay {
  import opened Bytes
  import opened Sockets
  import opened ChunkCodec
  import opened ToolNames

  const MAX_REWRITE_WINDOW := 1024 * 1024
  const MAX_STREAM_BYTES := 128 * 1024 * 1024

  /** The sending side of the client connection. */
  class Client {
    var sent: string

    constructor ()
      ensures sent == ""
    {
      sent := "";
    }
  }

  /** How the upstream delimits its body: chunked, by a length, or by closing the connection. */
  datatype Framing = Chunked | Fixed(length: Option<nat>)

  /** The body an upstream stream carries, when the stream is acceptable. A stream that ends before
      its announced length is accepted as it is. */
  function UpstreamBody(framing: Framing, whole: string): Outcome<string> {
    match framing
    case Chunked => (match Decode(whole) case Ok((body, rest)) => Ok(body) case Err(fault) => Err(fault))
    case Fixed(None) => Ok(whole)
    case Fixed(Some(n)) => Ok(if n <= |whole| then whole[..n] else whole)
  }

  /** The body that is relayed from `whole` when `total` bytes were relayed before it, or what ends the
      relay first. */
  function Relayed(framing: Framing, whole: string, total: nat): Outcome<string>
    decreases |whole|
  {
    match framing
    case Fixed(_) =>
      var body := UpstreamBody(framing, whole).value;
      if total + |body| > MAX_STREAM_BYTES then Err(TooLarge) else Ok(body)
    case Chunked =>
      match FirstChunk(whole)
      case Bad(fault) => Err(fault)
      case Last(_) => Ok("")
      case Data(body, rest) =>
        if total + |body| > MAX_STREAM_BYTES then Err(TooLarge)
        else Behind(body, Relayed(Chunked, rest, total + |body|))
  }

  /** The relay completes exactly on well-delimited bodies within the limit, and then with that body. */
  lemma {:induction false} RelayedIsBody(framing: Framing, whole: string, total: nat)
    requires total <= MAX_STREAM_BYTES
    ensures var body := UpstreamBody(framing, whole);
            && (Relayed(framing, whole, total).Ok? <==> body.Ok? && total + |body.value| <= MAX_STREAM_BYTES)
            && (Relayed(framing, whole, total).Ok? ==> Relayed(framing, whole, total) == body)
    decreases |whole|
  {
    hide FirstChunk, Decode;
    if framing.Chunked? {
      LeftOfOne(whole);
      if FirstChunk(whole).Data? {
        DecodeStep(whole);
        var body, rest := FirstChunk(whole).body, FirstChunk(whole).rest;
        if total + |body| <= MAX_STREAM_BYTES {
          RelayedIsBody(Chunked, rest, total + |body|);
        }
      }
    }
  }

  /** The relay panics exactly on an oversized chunk behind chunks within the limit. A panic ends the
      whole process. */
  lemma {:induction false} RelayPanicsExactly(whole: string, total: nat)
    requires total <= MAX_STREAM_BYTES
    ensures Relayed(Chunked, whole, total) == Err(Panic)
            <==> exists k: nat :: Oversized(Left(whole, k)) && total + Taken(whole, k) <= MAX_STREAM_BYTES
    decreases |whole|
  {
    hide FirstChunk, Oversized, Left, Taken;
    OversizedPanics(whole);
    NothingIsNotOversized();
    LeftOfOne(whole);
    match FirstChunk(whole)
    case Bad(_) =>
    case Last(_) =>
    case Data(body, rest) =>
      DataIsShorter(whole);
      if total + |body| <= MAX_STREAM_BYTES {
        RelayPanicsExactly(rest, total + |body|);
      }
      if k: nat :| Oversized(Left(whole, k)) && total + Taken(whole, k) <= MAX_STREAM_BYTES {
        LeftStep(whole, k - 1);
      }
      if k: nat :| Oversized(Left(rest, k)) && total + |body| + Taken(rest, k) <= MAX_STREAM_BYTES {
        LeftStep(whole, k);
      }
  }

  /** A body with an announced length is delivered in full exactly if the upstream sends that much. */
  lemma AnnouncedLength(n: nat, whole: string)
    ensures |UpstreamBody(Fixed(Some(n)), whole).value| == n <==> n <= |whole|
    ensures UpstreamBody(Fixed(Some(n)), whole).value <= whole
    ensures n > |whole| ==> UpstreamBody(Fixed(Some(n)), whole).value == whole
    ensures UpstreamBody(Fixed(None), whole) == Ok(whole)
  {
  }

  /** The shortest case: ten bytes announced, the connection closed behind three, and the client gets a
      complete body all the same. */
  lemma ShortBodyCompletes()
    ensures Relayed(Fixed(Some(10)), "abc", 0) == Ok("abc")
  {
  }

  /** The windows as they reach the client. */
  function RewrittenWindows(windows: seq<string>, request: string): (r: seq<string>)
    ensures |r| == |windows|
  {
    if windows == [] then [] else [Rewritten(windows[0], request)] + RewrittenWindows(windows[1..], request)
  }

  lemma {:induction false} RewrittenWindowsKeepCase(windows: seq<string>, request: string)
    ensures SameUpToCase(Flatten(RewrittenWindows(windows, request)), Flatten(windows))
    decreases |windows|
  {
    hide Rewritten;
    if windows != [] {
      var r := RewrittenWindows(windows, request);
      RewrittenWindowsKeepCase(windows[1..], request);
      RewrittenKeepsLower(windows[0], request);
      assert r[1..] == RewrittenWindows(windows[1..], request);
      LowerConcat(r[0], Flatten(r[1..]));
      LowerConcat(windows[0], Flatten(windows[1..]));
    }
  }

  lemma LowerConcat(a: string, b: string)
    ensures Lower(a + b) == Lower(a) + Lower(b)
  {
  }

  lemma {:induction false} RewrittenWindowsAppend(windows: seq<string>, last: string, request: string)
    ensures RewrittenWindows(windows + [last], request) == RewrittenWindows(windows, request) + [Rewritten(last, request)]
    decreases |windows|
  {
    hide Rewritten;
    if windows != [] {
      assert (windows + [last])[1..] == windows[1..] + [last];
      RewrittenWindowsAppend(windows[1..], last, request);
    } else {
      assert (windows + [last])[1..] == [];
    }
  }

  lemma {:induction false} FramesAppend(bodies: seq<string>, last: string)
    ensures Frames(bodies + [last]) == Frames(bodies) + Frame(last)
    decreases |bodies|
  {
    hide Frame;
    if bodies != [] {
      assert (bodies + [last])[1..] == bodies[1..] + [last];
      FramesAppend(bodies[1..], last);
    } else {
      assert (bodies + [last])[1..] == [];
    }
  }

  /** `write_chunk`: an empty body sends nothing. */
  method WriteChunk(client: Client, body: string, request: string)
    modifies client
    ensures client.sent == old(client.sent) + Frame(Rewritten(body, request))
  {
    hide Rewritten;
    if body == "" {
      return;
    }
    var rewritten := RewriteToolNames(body, request);
    client.sent := client.sent + Hex(|rewritten|) + CRLF;
    client.sent := client.sent + rewritten;
    client.sent := client.sent + CRLF;
  }

  /** What has been sent so far when the given windows went through `write_chunk`. */
  ghost predicate Sent(client: Client, before: string, windows: seq<string>, request: string)
    reads client
  {
    client.sent == before + Frames(RewrittenWindows(windows, request))
  }

  lemma SentOneMore(before: string, windows: seq<string>, last: string, request: string)
    ensures before + Frames(RewrittenWindows(windows, request)) + Frame(Rewritten(last, request))
            == before + Frames(RewrittenWindows(windows + [last], request))
  {
    hide Rewritten, Frame, Frames;
    RewrittenWindowsAppend(windows, last, request);
    FramesAppend(RewrittenWindows(windows, request), Rewritten(last, request));
  }

  /** `rposition`: just behind the last newline, or 0. */
  method AfterLastNewline(s: string) returns (end: nat)
    ensures end <= |s| && (end == 0 || s[end - 1] == '\n')
    ensures forall i :: end <= i < |s| ==> s[i] != '\n'
  {
    end := |s|;
    while end > 0 && s[end - 1] != '\n'
      invariant end <= |s|
      invariant forall i :: end <= i < |s| ==> s[i] != '\n'
    {
      end := end - 1;
    }
  }

  /** `flush_rewrite_window`: sends everything up to the last newline, or an overlong line whole.
      `window` is what was sent; the rest stays. No newline is ever kept back. */
  method FlushRewriteWindow(client: Client, output: string, request: string) returns (rest: string, ghost window: string)
    modifies client
    ensures client.sent == old(client.sent) + Frame(Rewritten(window, request))
    ensures window + rest == output
    ensures forall i :: 0 <= i < |rest| ==> rest[i] != '\n'
    ensures window == "" || IsWindow(window)
    ensures |rest| <= MAX_REWRITE_WINDOW || (window != "" && window[|window| - 1] == '\n')
  {
    hide Rewritten, Frame;
    var end := AfterLastNewline(output);
    if end > 0 {
      rest := output[end..];
      window := output[..end];
      assert output[end - 1] in output;
      WriteChunk(client, output[..end], request);
      return;
    }
    if |output| > MAX_REWRITE_WINDOW {
      window := output;
      WriteChunk(client, output, request);
      return "", output;
    }
    FrameOfRewrittenNothing(request);
    return output, "";
  }

  lemma FrameOfRewrittenNothing(request: string)
    ensures Frame(Rewritten("", request)) == ""
  {
    hide Rewritten;
  }

  datatype Pump = More | Done | Failed(fault: Fault)

  /** `pump_chunked_input` */
  method PumpChunked(upstream: Socket, buffer: string, output: string, total: nat)
    returns (pump: Pump, buffered: string, output': string, total': nat)
    requires upstream.Valid()
    modifies upstream
    ensures upstream.Valid()
    ensures match FirstChunk(buffer + old(upstream.Pending()))
            case Bad(fault) => pump == Failed(fault)
            case Last(rest) => pump == Done && output' == output && total' == total
            case Data(body, rest) =>
              if Saturate(total + |body|) > MAX_STREAM_BYTES then pump == Failed(TooLarge)
              else && pump == More && output' == output + body && total' == Saturate(total + |body|)
                   && buffered + upstream.Pending() == rest
  {
    hide FirstChunk;
    output', total' := output, total;
    var decoded;
    decoded, buffered := ReadOneChunk(upstream, buffer);
    if decoded.Err? {
      return Failed(decoded.error), buffered, output', total';
    }
    if decoded.value.None? {
      return Done, buffered, output', total';
    }
    total' := Saturate(total + |decoded.value.value|);
    if total' > MAX_STREAM_BYTES {
      return Failed(TooLarge), buffered, output', total';
    }
    output' := output + decoded.value.value;
    pump := More;
  }

  /** `usize::saturating_add` */
  function Saturate(n: nat): nat {
    if n > USIZE_MAX then USIZE_MAX else n
  }

  lemma FixedProgress(remaining: Option<nat>, buffered: string, pending: string, take: nat)
    requires take == if remaining.Some? then Min(remaining.value, |buffered|) else |buffered|
    ensures var left := if remaining.Some? then Some(remaining.value - take) else None;
            UpstreamBody(Fixed(remaining), buffered + pending)
            == Ok(buffered[..take] + UpstreamBody(Fixed(left), buffered[take..] + pending).value)
    ensures |buffered[take..] + pending| == |buffered + pending| - take
  {
    var whole := buffered + pending;
    assert whole == buffered[..take] + (buffered[take..] + pending);
    if remaining.Some? && remaining.value <= |whole| {
      assert whole[..remaining.value] == buffered[..take] + (buffered[take..] + pending)[..remaining.value - take];
    }
  }

  /** `pump_fixed_input` */
  method PumpFixed(upstream: Socket, buffer: string, remaining: Option<nat>, output: string, total: nat)
    returns (pump: Pump, buffered: string, remaining': Option<nat>, output': string, total': nat)
    requires upstream.Valid()
    modifies upstream
    ensures upstream.Valid()
    ensures output <= output'
    ensures pump.More? ==>
              UpstreamBody(Fixed(remaining), buffer + old(upstream.Pending()))
              == Ok(output'[|output|..] + UpstreamBody(Fixed(remaining'), buffered + upstream.Pending()).value)
    ensures pump.Done? ==> output' == output && UpstreamBody(Fixed(remaining), buffer + old(upstream.Pending())) == Ok("")
    ensures pump.More? ==>
              && total' == Saturate(total + |output'| - |output|) <= MAX_STREAM_BYTES
              && |output'| > |output|
              && |buffered + upstream.Pending()| < |buffer + old(upstream.Pending())|
    ensures pump.Failed? ==> pump.fault == TooLarge
    ensures pump.Failed? ==>
              Saturate(total + |UpstreamBody(Fixed(remaining), buffer + old(upstream.Pending())).value|) > MAX_STREAM_BYTES
  {
    buffered, remaining', output', total' := buffer, remaining, output, total;
    ghost var whole := buffer + upstream.Pending();
    if remaining == Some(0) {
      return Done, buffered, remaining', output', total';
    }
    if buffered == "" {
      var chunk := upstream.Read();
      if chunk == "" {
        return Done, buffered, remaining', output', total';
      }
      buffered := chunk;
    }
    assert whole == buffered + upstream.Pending();
    var take := if remaining.Some? then Min(remaining.value, |buffered|) else |buffered|;
    total' := Saturate(total + take);
    if total' > MAX_STREAM_BYTES {
      return Failed(TooLarge), buffered, remaining', output', total';
    }
    FixedProgress(remaining, buffered, upstream.Pending(), take);
    output' := output + buffered[..take];
    assert output'[|output|..] == buffered[..take];
    buffered := buffered[take..];
    remaining' := if remaining.Some? then Some(remaining.value - take) else None;
    pump := More;
  }

  /** A cut of the body the relay can make: behind a newline, or behind an overlong line. */
  predicate IsWindow(window: string) {
    window != "" && (window[|window| - 1] == '\n' || |window| > MAX_REWRITE_WINDOW)
  }

  predicate AllWindows(windows: seq<string>) {
    forall k :: 0 <= k < |windows| ==> IsWindow(windows[k])
  }

  /** A length or the end of the connection: what is relayed after a part of the body was taken. */
  lemma FixedStep(before: Option<nat>, whole: string, total: nat, part: string, after: Option<nat>, rest: string)
    requires UpstreamBody(Fixed(before), whole) == Ok(part + UpstreamBody(Fixed(after), rest).value)
    ensures Relayed(Fixed(before), whole, total) == Behind(part, Relayed(Fixed(after), rest, total + |part|))
  {
    hide UpstreamBody;
  }

  lemma ChunkStep(whole: string, total: nat)
    ensures Relayed(Chunked, whole, total) ==
            match FirstChunk(whole)
            case Bad(fault) => Err(fault)
            case Last(_) => Ok("")
            case Data(body, rest) =>
              if total + |body| > MAX_STREAM_BYTES then Err(TooLarge)
              else Behind(body, Relayed(Chunked, rest, total + |body|))
  {
    hide FirstChunk;
  }

  /** One pass of the relay loop before the flush, for either framing. */
  method PumpOne(upstream: Socket, framing: Framing, buffer: string, output: string, total: nat)
    returns (pump: Pump, framing': Framing, buffered: string, output': string, total': nat)
    requires upstream.Valid() && total <= MAX_STREAM_BYTES
    modifies upstream
    ensures upstream.Valid()
    ensures var relayed := Relayed(framing, buffer + old(upstream.Pending()), total);
            match pump
            case Done => output' == output && relayed == Ok("")
            case Failed(fault) => relayed == Err(fault)
            case More =>
              && output <= output' && total' == total + |output'[|output|..]| <= MAX_STREAM_BYTES
              && relayed == Behind(output'[|output|..], Relayed(framing', buffered + upstream.Pending(), total'))
              && |buffered + upstream.Pending()| < |buffer + old(upstream.Pending())|
  {
    hide FirstChunk, Relayed, Flatten;
    if framing.Chunked? {
      framing' := framing;
      ChunkStep(buffer + upstream.Pending(), total);
      DataIsShorter(buffer + upstream.Pending());
      pump, buffered, output', total' := PumpChunked(upstream, buffer, output, total);
    } else {
      ghost var whole := buffer + upstream.Pending();
      FixedRelayed(framing, whole, total);
      var remaining;
      pump, buffered, remaining, output', total' := PumpFixed(upstream, buffer, framing.length, output, total);
      framing' := Fixed(remaining);
      if pump.More? {
        FixedStep(framing.length, whole, total, output'[|output|..], remaining, buffered + upstream.Pending());
      }
    }
  }

  lemma FixedRelayed(framing: Framing, whole: string, total: nat)
    requires framing.Fixed?
    ensures Relayed(framing, whole, total) ==
            if total + |UpstreamBody(framing, whole).value| > MAX_STREAM_BYTES then Err(TooLarge)
            else Ok(UpstreamBody(framing, whole).value)
  {
  }

  /** `stream_response`: `head` is the response head as sent to the client, `buffered` what was read
      of the body together with the upstream head.

      The relay ends as the whole upstream stream determines, for every segmentation; by a panic the
      process ends with it. On success the windows it rewrites partition the body, and a client that
      follows RFC 9112 receives the body unchanged up to the case of ASCII letters. A body shorter than
      announced is a success as well. */
  method StreamResponse(client: Client, upstream: Socket, status: nat, head: string, framing: Framing,
                        buffered: string, request: string)
    returns (r: Outcome<()>, ghost windows: seq<string>)
    requires upstream.Valid()
    modifies client, upstream
    ensures status == 304 || status == 204 || 100 <= status <= 199 ==> r.Ok? && client.sent == old(client.sent) + head
    ensures !(status == 304 || status == 204 || 100 <= status <= 199) ==>
              match Relayed(framing, buffered + old(upstream.Pending()), 0)
              case Err(fault) =>
                && r == Err(fault) && AllWindows(windows)
                && client.sent == old(client.sent) + head + Frames(RewrittenWindows(windows, request))
              case Ok(body) =>
                && r.Ok? && Flatten(windows) == body
                && windows != [] && AllWindows(windows[..|windows| - 1])
                && client.sent == old(client.sent) + head + (Frames(RewrittenWindows(windows, request)) + TERMINATOR)
                && Delivers(Frames(RewrittenWindows(windows, request)) + TERMINATOR, Flatten(windows))
    ensures !(status == 304 || status == 204 || 100 <= status <= 199) && r.Ok? && framing.Fixed? && framing.length.Some? ==>
              (|Flatten(windows)| == framing.length.value <==> framing.length.value <= |buffered + old(upstream.Pending())|)
  {
    hide Rewritten, Frame, Frames, RewrittenWindows, Relayed, UpstreamBody, Flatten, Rfc9112Decode;
    client.sent := client.sent + head;
    windows := [];
    if status == 304 || status == 204 || 100 <= status <= 199 {
      return Ok(()), windows;
    }
    ghost var before := client.sent;
    ghost var whole := buffered + upstream.Pending();
    ghost var all := Relayed(framing, whole, 0);
    var buffer, output, total := buffered, "", 0;
    var remaining := framing;
    ghost var done := "";
    NothingBehind(all);
    NoWindowsYet(request);
    while true
      invariant upstream.Valid()
      invariant done == Flatten(windows) + output && total == |done| <= MAX_STREAM_BYTES
      invariant all == Behind(done, Relayed(remaining, buffer + upstream.Pending(), total))
      invariant AllWindows(windows) && Sent(client, before, windows, request)
      decreases |buffer + upstream.Pending()|
    {
      var pump;
      ghost var held := output;
      pump, remaining, buffer, output, total := PumpOne(upstream, remaining, buffer, output, total);
      if pump.Failed? {
        return Err(pump.fault), windows;
      }
      if pump.Done? {
        break;
      }
      BehindTwice(done, output[|held|..], Relayed(remaining, buffer + upstream.Pending(), total));
      done := done + output[|held|..];
      assert done == Flatten(windows) + output;
      ghost var window;
      output, window := FlushRewriteWindow(client, output, request);
      windows := Flushed(windows, window, before, request);
      assert done == Flatten(windows) + output;
    }
    assert done + "" == done;
    WriteChunk(client, output, request);
    SentOneMore(before, windows, output, request);
    FlattenAppend(windows, output);
    ghost var cut := windows;
    windows := windows + [output];
    assert windows[..|windows| - 1] == cut;
    client.sent := client.sent + TERMINATOR;
    DeliversBody(windows, request);
    RelayedIsBody(framing, whole, 0);
    if framing.Fixed? && framing.length.Some? {
      AnnouncedLength(framing.length.value, whole);
    }
    r := Ok(());
  }

  lemma NoWindowsYet(request: string)
    ensures Flatten([]) == "" && Frames(RewrittenWindows([], request)) == ""
  {
  }

  /** The ghost record of windows after one flush. */
  ghost function Flushed(windows: seq<string>, window: string, before: string, request: string): (r: seq<string>)
    ensures Flatten(r) == Flatten(windows) + window
    ensures before + Frames(RewrittenWindows(windows, request)) + Frame(Rewritten(window, request))
            == before + Frames(RewrittenWindows(r, request))
    ensures AllWindows(windows) && (window == "" || IsWindow(window)) ==> AllWindows(r)
  {
    SentOneMore(before, windows, window, request);
    FlattenAppend(windows, window);
    FrameOfRewrittenNothing(request);
    if window == "" then windows else windows + [window]
  }

  /** Read by the rules of RFC 9112, `wire` is one complete body, equal to `body` up to ASCII case. */
  ghost predicate Delivers(wire: string, body: string) {
    match Rfc9112Decode(wire)
    case None => false
    case Some(m) => m.trailers == "" && m.rest == "" && |m.body| == |body| && SameUpToCase(m.body, body)
  }

  lemma DeliversBody(windows: seq<string>, request: string)
    ensures Delivers(Frames(RewrittenWindows(windows, request)) + TERMINATOR, Flatten(windows))
  {
    hide Rewritten, Rfc9112Decode, Frames;
    var rewritten := RewrittenWindows(windows, request);
    FramesRoundTrip(rewritten, "");
    assert Frames(rewritten) + TERMINATOR + "" == Frames(rewritten) + TERMINATOR;
    RewrittenWindowsKeepCase(windows, request);
    assert |Lower(Flatten(rewritten))| == |Lower(Flatten(windows))|;
  }

  lemma FirstWindowShows(windows: seq<string>)
    requires windows != [] && IsWindow(windows[0])
    ensures |Flatten(windows)| > MAX_REWRITE_WINDOW || '\n' in Flatten(windows)
  {
    var first := windows[0];
    if first[|first| - 1] == '\n' {
      assert Flatten(windows)[|first| - 1] == '\n';
    }
  }

  /** A one-line body of at most one mebibyte is rewritten as a whole: the windows a relay can have
      used for it are just that body. */
  lemma ShortLineIsOneWindow(windows: seq<string>, body: string)
    requires windows != [] && AllWindows(windows[..|windows| - 1]) && Flatten(windows) == body
    requires |body| <= MAX_REWRITE_WINDOW && '\n' !in body
    ensures windows == [body]
  {
    hide IsWindow, Flatten;
    if |windows| > 1 {
      var cut := windows[..|windows| - 1];
      assert IsWindow(cut[0]) && cut[0] == windows[0];
      FirstWindowShows(windows);
    } else {
      FlattenOne(windows[0]);
      assert windows == [windows[0]];
    }
  }
}
