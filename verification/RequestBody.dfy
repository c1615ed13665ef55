/** Reading a request body under admission control. */
module RequestBody {
  import opened Bytes
  import opened Sockets
  import opened ChunkCodec

  const MAX_REQUEST_BYTES := 64 * 1024 * 1024

  class ByteGuard {
    var amount: nat

    constructor (amount: nat)
      ensures this.amount == amount
    {
      this.amount := amount;
    }

    /** Reports failure, without adding, when the sum is not a `usize`. */
    method AddAmount(more: nat) returns (ok: bool)
      modifies this
      ensures ok <==> old(amount) + more <= USIZE_MAX
      ensures amount == if ok then old(amount) + more else old(amount)
    {
      ok := amount + more <= USIZE_MAX;
      if ok {
        amount := amount + more;
      }
    }
  }

  /** The controller as one uninterrupted thread sees it; module `Admission` interleaves many. */
  class AdmissionController {
    const max: nat
    var inFlight: nat

    ghost predicate Valid()
      reads this
    {
      inFlight <= max <= USIZE_MAX
    }

    constructor (max: nat)
      requires max <= USIZE_MAX
      ensures Valid() && this.max == max && inFlight == 0
    {
      this.max := max;
      inFlight := 0;
    }

    predicate HasRoom(amount: nat)
      reads this
    {
      inFlight + amount <= max
    }

    method ReserveBytes(amount: nat) returns (ok: bool)
      requires Valid()
      modifies this
      ensures Valid() && ok == old(HasRoom(amount))
      ensures inFlight == if ok then old(inFlight) + amount else old(inFlight)
    {
      if inFlight + amount > USIZE_MAX || inFlight + amount > max {
        return false;
      }
      inFlight := inFlight + amount;
      return true;
    }

    method AcquireBytes(amount: nat) returns (guard: ByteGuard?)
      requires Valid()
      modifies this
      ensures Valid() && (guard != null <==> old(HasRoom(amount)))
      ensures guard != null ==> fresh(guard) && guard.amount == amount && inFlight == old(inFlight) + amount
      ensures guard == null ==> inFlight == old(inFlight)
    {
      var ok := ReserveBytes(amount);
      if !ok {
        return null;
      }
      guard := new ByteGuard(amount);
    }

    /** Works for any guard; the roll-back is only ever needed for one that outweighs this counter. */
    method AcquireMoreBytes(guard: ByteGuard, amount: nat) returns (ok: bool)
      requires Valid()
      modifies this, guard
      ensures Valid() && ok == old(HasRoom(amount) && guard.amount + amount <= USIZE_MAX)
      ensures old(guard.amount <= inFlight) ==> ok == old(HasRoom(amount))
      ensures inFlight == if ok then old(inFlight) + amount else old(inFlight)
      ensures guard.amount == if ok then old(guard.amount) + amount else old(guard.amount)
    {
      var reserved := ReserveBytes(amount);
      if !reserved {
        return false;
      }
      var added := guard.AddAmount(amount);
      if added {
        return true;
      }
      inFlight := inFlight - amount;
      return false;
    }

    /** `Drop for ByteGuard` */
    method Release(guard: ByteGuard)
      requires Valid() && guard.amount <= inFlight
      modifies this
      ensures Valid() && inFlight == old(inFlight) - guard.amount
    {
      inFlight := inFlight - guard.amount;
    }
  }

  // ---------------------------------------------------------------- what a stream stands for

  /** The body in the chunked stream `s` when `read` bytes of it came before and `free` bytes of the
      budget are left, or what the reader refuses it for. */
  function Admitted(s: string, read: nat, free: nat): Outcome<string>
    decreases |s|
  {
    match SizeLine(s)
    case Err(fault) => Err(fault)
    case Ok((size, rest)) =>
      if size == 0 then Ok("")
      else if read + size > MAX_REQUEST_BYTES then Err(TooLarge)
      else if size > free then Err(Refused)
      else if |rest| < size + 2 then Err(UnexpectedEof)
      else Behind(rest[..size], Admitted(rest[size + 2..], read + size, free - size))
  }

  /** A chunked stream is accepted exactly when it decodes to a body within limit and budget, and then
      as that body. */
  lemma {:induction false} AdmittedIsDecoded(s: string, read: nat, free: nat)
    requires read <= MAX_REQUEST_BYTES
    ensures Admitted(s, read, free).Ok? ==> Decode(s).Ok? && Admitted(s, read, free).value == Decode(s).value.0
    ensures Decode(s).Ok? ==>
              var n := |Decode(s).value.0|;
              Admitted(s, read, free).Ok? <==> read + n <= MAX_REQUEST_BYTES && n <= free
    decreases |s|
  {
    hide SizeLine;
    if SizeLine(s).Ok? {
      var (size, rest) := SizeLine(s).value;
      if 0 < size <= USIZE_MAX - 2 && size + 2 <= |rest| {
        if read + size <= MAX_REQUEST_BYTES && size <= free {
          AdmittedIsDecoded(rest[size + 2..], read + size, free - size);
        }
      }
    }
  }

  /** The request reader has no panic: it adds with a check, and only to sizes within the limit. */
  lemma {:induction false} RequestNeverPanics(chunked: bool, lengths: seq<Option<nat>>, s: string, read: nat, free: nat)
    ensures Admitted(s, read, free) != Err(Panic) && Received(chunked, lengths, s, free) != Err(Panic)
    decreases |s|, read
  {
    hide Find, SizeOf;
    if SizeLine(s).Ok? {
      var (size, rest) := SizeLine(s).value;
      if size > 0 && size + 2 <= |rest| && size <= free {
        RequestNeverPanics(chunked, lengths, rest[size + 2..], read + size, free - size);
      }
    }
    if read != 0 {
      RequestNeverPanics(chunked, lengths, s, 0, free);
    }
  }

  /** A body with a length is received exactly if there is one length, it is a number within limit and
      budget, and that many bytes arrive; it is then the first bytes of the stream. Without any length the
      body is empty. Two lengths, or a length for a chunked body, are refused. */
  lemma LengthIsReceived(lengths: seq<Option<nat>>, whole: string, free: nat)
    ensures Received(false, [], whole, free) == Ok("")
    ensures |lengths| > 1 ==> Received(false, lengths, whole, free) == Err(InvalidData)
    ensures lengths != [] ==> Received(true, lengths, whole, free) == Err(InvalidData)
    ensures |lengths| == 1 ==>
              var r := Received(false, lengths, whole, free);
              && (r.Ok? <==> lengths[0].Some? && lengths[0].value <= MAX_REQUEST_BYTES && lengths[0].value <= free
                             && lengths[0].value <= |whole|)
              && (r.Ok? ==> r.value <= whole && |r.value| == lengths[0].value)
              && (r == Err(InvalidData) <==> lengths[0].None?)
              && (r == Err(TooLarge) <==> lengths[0].Some? && lengths[0].value > MAX_REQUEST_BYTES)
              && (r == Err(Refused) <==> lengths[0].Some? && free < lengths[0].value <= MAX_REQUEST_BYTES)
  {
  }

  /** What a chunked stream that decodes is refused for. */
  lemma {:induction false} OverLimitOrBudget(s: string, read: nat, free: nat)
    requires Decode(s).Ok? && read <= MAX_REQUEST_BYTES
    ensures var n := |Decode(s).value.0|;
            && (read + n > MAX_REQUEST_BYTES && n <= free ==> Admitted(s, read, free) == Err(TooLarge))
            && (read + n <= MAX_REQUEST_BYTES && n > free ==> Admitted(s, read, free) == Err(Refused))
    decreases |s|
  {
    hide SizeLine;
    var (size, rest) := SizeLine(s).value;
    if 0 < size && read + size <= MAX_REQUEST_BYTES && size <= free {
      OverLimitOrBudget(rest[size + 2..], read + size, free - size);
    }
  }

  lemma {:induction false} FramesAreLonger(bodies: seq<string>)
    ensures |Flatten(bodies)| <= |Frames(bodies)|
    decreases |bodies|
  {
    hide Hex;
    if bodies != [] {
      FramesAreLonger(bodies[1..]);
    }
  }

  /** Chunk writer against request reader: what was written is what is read, if the budget allows. */
  lemma WrittenIsAdmitted(bodies: seq<string>, free: nat)
    requires |Frames(bodies) + TERMINATOR| <= MAX_REQUEST_BYTES
    ensures Admitted(Frames(bodies) + TERMINATOR, 0, free) == Ok(Flatten(bodies)) <==> |Flatten(bodies)| <= free
  {
    hide Frames, Decode, Admitted, Flatten;
    ReaderUndoesWriter(bodies);
    FramesAreLonger(bodies);
    AdmittedIsDecoded(Frames(bodies) + TERMINATOR, 0, free);
  }

  /** The body behind a request head. `lengths` are the Content-Length headers, each parsed if it is a
      `usize`. */
  function Received(chunked: bool, lengths: seq<Option<nat>>, whole: string, free: nat): Outcome<string> {
    if |lengths| > 1 || (chunked && lengths != []) then Err(InvalidData)
    else if chunked then Admitted(whole, 0, free)
    else if lengths == [] then Ok("")
    else
      match lengths[0]
      case None => Err(InvalidData)
      case Some(n) =>
        if n > MAX_REQUEST_BYTES then Err(TooLarge)
        else if n > free then Err(Refused)
        else if n > |whole| then Err(UnexpectedEof)
        else Ok(whole[..n])
  }

  // ---------------------------------------------------------------- the readers

  /** Waits for a complete size line in the buffer, within the size limit. */
  method FillSizeLine(stream: Socket, buffer: string) returns (fault: Option<Fault>, buffered: string)
    requires stream.Valid()
    modifies stream
    ensures stream.Valid() && |stream.segments| <= old(|stream.segments|)
    ensures buffered + stream.Pending() == buffer + old(stream.Pending())
    ensures match fault
            case None => Find(buffered, CRLF, 0).Some?
            case Some(f) => (f == UnexpectedEof && Find(buffered + stream.Pending(), CRLF, 0).None?)
                            || (f == TooLarge && |buffered| > MAX_REQUEST_BYTES)
  {
    hide Find;
    buffered := buffer;
    while Find(buffered, CRLF, 0).None?
      invariant stream.Valid() && |stream.segments| <= old(|stream.segments|)
      invariant buffered + stream.Pending() == buffer + old(stream.Pending())
      decreases |stream.segments|
    {
      var ok;
      ok, buffered := ReadMore(stream, buffered);
      if !ok {
        assert buffered + [] == buffered;
        return Some(UnexpectedEof), buffered;
      }
      if |buffered| > MAX_REQUEST_BYTES {
        return Some(TooLarge), buffered;
      }
    }
    return None, buffered;
  }

  /** Waits for `framed` bytes in the buffer, within the size limit. */
  method FillChunk(stream: Socket, buffer: string, framed: nat) returns (fault: Option<Fault>, buffered: string)
    requires stream.Valid()
    modifies stream
    ensures stream.Valid() && |stream.segments| <= old(|stream.segments|)
    ensures buffered + stream.Pending() == buffer + old(stream.Pending())
    ensures match fault
            case None => framed <= |buffered|
            case Some(f) => (f == UnexpectedEof && |buffered + stream.Pending()| < framed)
                            || (f == TooLarge && |buffered| > MAX_REQUEST_BYTES)
  {
    buffered := buffer;
    while |buffered| < framed
      invariant stream.Valid() && |stream.segments| <= old(|stream.segments|)
      invariant buffered + stream.Pending() == buffer + old(stream.Pending())
      decreases |stream.segments|
    {
      var ok;
      ok, buffered := ReadMore(stream, buffered);
      if !ok {
        return Some(UnexpectedEof), buffered;
      }
      if |buffered| > MAX_REQUEST_BYTES {
        return Some(TooLarge), buffered;
      }
    }
    return None, buffered;
  }

  /** `r` is what the stream stands for. Only a stream longer than the limit can be refused for its
      length as well, when the bytes arrive in pieces that let the buffer grow beyond the limit. */
  predicate Obtains(r: Outcome<string>, expected: Outcome<string>, whole: string) {
    r == expected || (r == Err(TooLarge) && |whole| > MAX_REQUEST_BYTES)
  }

  /** `read_chunked_body_with_admission`, whatever the segmentation of the stream. */
  method ReadChunkedBody(stream: Socket, buffer: string, admission: AdmissionController, guard: ByteGuard)
    returns (r: Outcome<string>)
    requires stream.Valid() && admission.Valid() && guard.amount <= admission.inFlight
    modifies stream, admission, guard
    ensures stream.Valid() && admission.Valid()
    ensures admission.inFlight - old(admission.inFlight) == guard.amount - old(guard.amount) >= 0
    ensures r.Ok? ==> guard.amount == old(guard.amount) + |r.value| && |r.value| <= MAX_REQUEST_BYTES
    ensures var whole := buffer + old(stream.Pending());
            Obtains(r, Admitted(whole, 0, admission.max - old(admission.inFlight)), whole)
  {
    hide Find, SizeOf, SizeLine, Admitted, Flatten;
    ghost var whole := buffer + stream.Pending();
    ghost var free := admission.max - admission.inFlight;
    ghost var expected := Admitted(whole, 0, free);
    var buffered := buffer;
    var body := "";
    ghost var rest := whole;
    NothingBehind(expected);
    while true
      invariant stream.Valid() && admission.Valid()
      invariant rest == buffered + stream.Pending() && |rest| <= |whole|
      invariant guard.amount == old(guard.amount) + |body| && admission.max - admission.inFlight == free - |body|
      invariant |body| <= MAX_REQUEST_BYTES && |body| <= free
      invariant expected == Behind(body, Admitted(rest, |body|, free - |body|))
      decreases |rest|
    {
      var fault;
      fault, buffered := FillSizeLine(stream, buffered);
      if fault.Some? {
        NoSizeLine(rest, |body|, free - |body|);
        return Err(fault.value);
      }
      SizeLineInPrefix(buffered, stream.Pending());
      var parsed;
      parsed, buffered := ParseChunkSize(buffered);
      if parsed.Err? {
        BadSizeLine(rest, |body|, free - |body|);
        return Err(parsed.error);
      }
      var size := parsed.value;
      AdmittedStep(rest, |body|, free - |body|, size, buffered + stream.Pending());
      if size == 0 {
        assert body + "" == body;
        return Ok(body);
      }
      if |body| + size > USIZE_MAX || |body| + size > MAX_REQUEST_BYTES {
        return Err(TooLarge);
      }
      ghost var afterSize := buffered + stream.Pending();
      var admitted := admission.AcquireMoreBytes(guard, size);
      if !admitted {
        return Err(Refused);
      }
      fault, buffered := FillChunk(stream, buffered, size + 2);
      if fault.Some? {
        return Err(fault.value);
      }
      assert afterSize[..size] == buffered[..size];
      assert afterSize[size + 2..] == buffered[size + 2..] + stream.Pending();
      BehindTwice(body, buffered[..size], Admitted(afterSize[size + 2..], |body| + size, free - |body| - size));
      body := body + buffered[..size];
      buffered := buffered[size + 2..];
      rest := afterSize[size + 2..];
    }
  }

  lemma NoSizeLine(rest: string, read: nat, free: nat)
    ensures Find(rest, CRLF, 0).None? ==> Admitted(rest, read, free) == Err(UnexpectedEof)
  {
    hide Find, SizeOf;
  }

  lemma BadSizeLine(rest: string, read: nat, free: nat)
    requires SizeLine(rest).Err?
    ensures Admitted(rest, read, free) == Err(SizeLine(rest).error)
  {
    hide SizeLine;
  }

  lemma AdmittedStep(rest: string, read: nat, free: nat, size: nat, afterSize: string)
    requires SizeLine(rest) == Ok((size, afterSize))
    ensures |afterSize| < |rest|
    ensures Admitted(rest, read, free) ==
            if size == 0 then Ok("")
            else if read + size > MAX_REQUEST_BYTES then Err(TooLarge)
            else if size > free then Err(Refused)
            else if |afterSize| < size + 2 then Err(UnexpectedEof)
            else Behind(afterSize[..size], Admitted(afterSize[size + 2..], read + size, free - size))
  {
    hide SizeLine;
  }

  /** The body part of `read_request_with_admission`: `raw` is what was read behind the head.

      On success the guard holds exactly the length of the body; on failure nothing stays charged. */
  method ReadBody(stream: Socket, raw: string, chunked: bool, lengths: seq<Option<nat>>, admission: AdmissionController)
    returns (r: Outcome<string>, guard: ByteGuard?)
    requires stream.Valid() && admission.Valid()
    modifies stream, admission
    ensures admission.Valid()
    ensures r.Ok? ==>
              && guard != null && fresh(guard) && guard.amount == |r.value| <= MAX_REQUEST_BYTES
              && admission.inFlight == old(admission.inFlight) + |r.value|
    ensures r.Err? ==> guard == null && admission.inFlight == old(admission.inFlight)
    ensures var whole := raw + old(stream.Pending());
            Obtains(r, Received(chunked, lengths, whole, admission.max - old(admission.inFlight)), whole)
  {
    hide Admitted;
    if |lengths| > 1 || (chunked && lengths != []) {
      return Err(InvalidData), null;
    }
    var length := 0;
    if lengths != [] {
      if lengths[0].None? {
        return Err(InvalidData), null;
      }
      length := lengths[0].value;
    }
    if length > MAX_REQUEST_BYTES {
      return Err(TooLarge), null;
    }
    var acquired := admission.AcquireBytes(length);
    if acquired == null {
      return Err(Refused), null;
    }
    if chunked {
      r := ReadChunkedBody(stream, raw, admission, acquired);
      if r.Err? {
        admission.Release(acquired);
        return r, null;
      }
      return r, acquired;
    }
    var body := raw;
    if |body| < length {
      var ok, tail := stream.ReadExact(length - |body|);
      if !ok {
        admission.Release(acquired);
        return Err(UnexpectedEof), null;
      }
      body := body + tail;
    }
    assert body[..length] == (raw + old(stream.Pending()))[..length];
    return Ok(body[..length]), acquired;
  }
}
