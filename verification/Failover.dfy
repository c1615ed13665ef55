/** Choosing the candidate models of a request and failing over between them. */
module Failover {
  import opened Bytes
  import Utf8

  const U64_MAX := 0xFFFF_FFFF_FFFF_FFFF
  const U32_SPAN := 0x1_0000_0000

  // ---------------------------------------------------------------- lists without repetition

  /** The first occurrence of every element, in order. */
  function Dedup(s: seq<string>): (r: seq<string>)
    ensures Distinct(r)
    ensures forall x :: x in r <==> x in s
    ensures s != [] ==> r != [] && r[0] == s[0]
    decreases |s|
  {
    if s == [] then []
    else
      var front, last := s[..|s| - 1], s[|s| - 1];
      assert s == front + [last];
      var r := Dedup(front);
      if last in r then r else r + [last]
  }

  lemma DedupMore(s: seq<string>, x: string)
    ensures Dedup(s + [x]) == if x in Dedup(s) then Dedup(s) else Dedup(s) + [x]
  {
    assert (s + [x])[..|s|] == s;
  }

  // ---------------------------------------------------------------- models

  datatype Tier = Fast | Strong | AnyTier

  datatype Capabilities = Capabilities(modelId: string, tier: Tier, supportsTools: bool)

  const KNOWN_MODELS := [
    Capabilities("claude-3-5-sonnet", Strong, true),
    Capabilities("claude-3-5-haiku", Fast, true),
    Capabilities("gpt-4o", Strong, true),
    Capabilities("gpt-4o-mini", Fast, true),
    Capabilities("muse", Strong, true)]

  const FALLBACK_DEFAULT_MODEL := "claude-3-5-sonnet"
  const EFFORT_SUFFIXES := ["-xhigh", "-high", "-medium", "-low"]

  function LookupIn(known: seq<Capabilities>, clean: string): Option<Capabilities> {
    if known == [] then None
    else if SameUpToCase(known[0].modelId, clean) || known[0].modelId <= clean then Some(known[0])
    else LookupIn(known[1..], clean)
  }

  function LookupCapabilities(model: string): Option<Capabilities> {
    LookupIn(KNOWN_MODELS, Lower(Trim(model)))
  }

  function SelectModelByTier(tier: Tier, fallback: string): string {
    match tier case Fast => "claude-3-5-haiku" case Strong => "claude-3-5-sonnet" case AnyTier => fallback
  }

  /** Some effort suffix leads to a known model. */
  predicate KnownUpToEffort(requested: string) {
    LookupCapabilities(requested).Some? ||
    exists i :: 0 <= i < |EFFORT_SUFFIXES| && var base := StripSuffix(requested, EFFORT_SUFFIXES[i]);
      base.Some? && LookupCapabilities(base.value).Some?
  }

  /** The requested effort carried over to `model`, by the first suffix that matches. */
  function WithEffort(requested: string, model: string, suffixes: seq<string>): string {
    if suffixes == [] then model
    else
      match StripSuffix(requested, suffixes[0])
      case None => WithEffort(requested, model, suffixes[1..])
      case Some(base) => if base == model then requested else model + suffixes[0]
  }

  /** `normalize_model_id` */
  function NormalizeModelId(requested: string, defaultModel: string): string {
    var trimmed := Trim(defaultModel);
    if trimmed == "" && KnownUpToEffort(requested) then requested
    else
      var model := if trimmed == "" then FALLBACK_DEFAULT_MODEL else trimmed;
      if requested == model then requested else WithEffort(requested, model, EFFORT_SUFFIXES)
  }

  /** `json_string_value`: the first quoted text behind the quoted key. */
  function JsonStringValue(text: string, key: string): Option<string> {
    match Find(text, "\"" + key + "\"", 0)
    case None => None
    case Some(start) =>
      var rest := text[start + |key| + 2..];
      match FindChar(rest, '"', 0)
      case None => None
      case Some(open) =>
        match FindChar(rest, '"', open + 1)
        case None => None
        case Some(close) => Some(rest[open + 1..close])
  }

  function RequestedModel(body: string): Option<string> {
    if Utf8.Valid(body) then JsonStringValue(body, "model") else None
  }

  // ---------------------------------------------------------------- the plan

  /** The fallbacks from `offset` on, around the end. */
  function Rotated(fallbacks: seq<string>, rotation: nat): seq<string> {
    if fallbacks == [] then [] else
      var offset := rotation % |fallbacks|;
      fallbacks[offset..] + fallbacks[..offset]
  }

  function Planned(model: Option<string>, fallbacks: seq<string>, rotation: nat, defaultModel: string): (r: seq<string>)
    ensures r != [] && Distinct(r)
  {
    var first := match model case Some(m) => [NormalizeModelId(m, defaultModel)] case None => [];
    var all := Dedup(first + Rotated(fallbacks, rotation));
    if all != [] then all
    else [if Trim(defaultModel) == "" then FALLBACK_DEFAULT_MODEL else Trim(defaultModel)]
  }

  /** The index `step` places behind the offset, around the end. */
  function Around(rotation: nat, step: nat, n: nat): (i: nat)
    requires n > 0
    ensures i < n
  {
    (rotation % n + step) % n
  }

  lemma ModOnce(r: nat, n: nat)
    requires r < n
    ensures (n + r) % n == r
  {
  }

  lemma ModNone(r: nat, n: nat)
    requires r < n
    ensures r % n == r
  {
  }

  lemma AroundIs(rotation: nat, step: nat, n: nat)
    requires step < n
    ensures var offset := rotation % n;
            offset < n && Around(rotation, step, n) == if offset + step < n then offset + step else offset + step - n
  {
    var offset := rotation % n;
    if offset + step < n {
      ModNone(offset + step, n);
    } else {
      ModOnce(offset + step - n, n);
    }
  }

  lemma RotatedAt(fallbacks: seq<string>, rotation: nat, step: nat)
    requires step < |fallbacks|
    ensures |Rotated(fallbacks, rotation)| == |fallbacks|
    ensures Rotated(fallbacks, rotation)[step] == fallbacks[Around(rotation, step, |fallbacks|)]
  {
    hide Around;
    AroundIs(rotation, step, |fallbacks|);
  }

  lemma PlanStep(first: seq<string>, fallbacks: seq<string>, rotation: nat, step: nat)
    requires step < |fallbacks|
    ensures |Rotated(fallbacks, rotation)| == |fallbacks|
    ensures var rotated, f := Rotated(fallbacks, rotation), fallbacks[Around(rotation, step, |fallbacks|)];
            var before := Dedup(first + rotated[..step]);
            Dedup(first + rotated[..step + 1]) == if f in before then before else before + [f]
  {
    hide Rotated, Dedup, Around;
    RotatedAt(fallbacks, rotation, step);
    var rotated := Rotated(fallbacks, rotation);
    DedupMore(first + rotated[..step], rotated[step]);
    assert first + rotated[..step + 1] == first + rotated[..step] + [rotated[step]];
  }

  /** `plan_candidates`: the normalized request first, then the fallbacks in rotation, none twice. */
  method PlanCandidates(body: string, fallbacks: seq<string>, rotation: nat, defaultModel: string) returns (candidates: seq<string>)
    ensures candidates == Planned(RequestedModel(body), fallbacks, rotation, defaultModel)
  {
    hide NormalizeModelId, RequestedModel, Rotated, Around, Trim, Dedup;
    candidates := [];
    var model := RequestedModel(body);
    if model.Some? {
      candidates := candidates + [NormalizeModelId(model.value, defaultModel)];
    }
    ghost var first := candidates;
    DedupShort(first);
    if fallbacks != [] {
      ghost var rotated := Rotated(fallbacks, rotation);
      RotatedAt(fallbacks, rotation, 0);
      assert first + rotated[..0] == first;
      for step := 0 to |fallbacks|
        invariant candidates == Dedup(first + rotated[..step])
      {
        PlanStep(first, fallbacks, rotation, step);
        var fallback := fallbacks[Around(rotation, step, |fallbacks|)];
        if fallback !in candidates {
          candidates := candidates + [fallback];
        }
      }
      assert rotated[..|fallbacks|] == rotated;
    } else {
      RotatedNothing(rotation);
      assert first + [] == first;
    }
    PlannedIs(model, first, fallbacks, rotation, defaultModel);
    if candidates == [] {
      candidates := [if Trim(defaultModel) == "" then FALLBACK_DEFAULT_MODEL else Trim(defaultModel)];
    }
  }

  lemma PlannedIs(model: Option<string>, first: seq<string>, fallbacks: seq<string>, rotation: nat, defaultModel: string)
    requires first == match model case Some(m) => [NormalizeModelId(m, defaultModel)] case None => []
    ensures var all := Dedup(first + Rotated(fallbacks, rotation));
            Planned(model, fallbacks, rotation, defaultModel)
            == if all != [] then all else [if Trim(defaultModel) == "" then FALLBACK_DEFAULT_MODEL else Trim(defaultModel)]
  {
    hide NormalizeModelId, Rotated, Trim, Dedup;
  }

  lemma RotatedNothing(rotation: nat)
    ensures Rotated([], rotation) == []
  {
  }

  lemma DedupShort(s: seq<string>)
    requires |s| <= 1
    ensures Dedup(s) == s
  {
    if s != [] {
      assert s[..0] == [] && s == [] + [s[0]];
      assert Dedup(s[..0]) == [];
    }
  }

  datatype RoutingMode = Existing | RoundRobin | Rules | Jev

  datatype Config = Config(
    mode: RoutingMode, shadow: bool, defaultTier: Tier, retryBaseMs: nat, maxRetryMs: nat)

  function ShadowModel(requested: string, config: Config, hasTools: bool): Option<string> {
    if !config.shadow then None
    else
      var caps := LookupCapabilities(requested);
      if hasTools && caps.Some? && !caps.value.supportsTools then Some("claude-3-5-sonnet")
      else Some(SelectModelByTier(config.defaultTier, requested))
  }

  /** `evaluate_routing_policy`: the model the mode recommends, if any, goes to the front. */
  function Recommended(requested: string, config: Config, hasTools: bool): Option<string> {
    match config.mode
    case Existing => None
    case RoundRobin => None
    case Rules => Some(SelectModelByTier(if hasTools then Strong else config.defaultTier, requested))
    case Jev =>
      match ShadowModel(requested, config, hasTools)
      case Some(m) => Some(m)
      case None => Some(requested)
  }

  method EvaluateRoutingPolicy(requested: string, candidates: seq<string>, config: Config, hasTools: bool) returns (r: seq<string>)
    ensures Recommended(requested, config, hasTools).None? ==> r == candidates
    ensures Recommended(requested, config, hasTools).Some? ==> r == Dedup([Recommended(requested, config, hasTools).value] + candidates)
    ensures candidates != [] && Distinct(candidates) ==> r != [] && Distinct(r) && forall x :: x in candidates ==> x in r
  {
    hide ShadowModel, SelectModelByTier, Dedup, Distinct;
    var recommended := Recommended(requested, config, hasTools);
    if recommended.None? {
      return candidates;
    }
    r := [recommended.value];
    DedupShort(r);
    ghost var first := r;
    assert first + candidates[..0] == first;
    for i := 0 to |candidates|
      invariant r == Dedup(first + candidates[..i])
    {
      DedupMore(first + candidates[..i], candidates[i]);
      assert first + candidates[..i + 1] == first + candidates[..i] + [candidates[i]];
      if candidates[i] !in r {
        r := r + [candidates[i]];
      }
    }
    assert candidates[..|candidates|] == candidates;
  }

  // ---------------------------------------------------------------- delays

  function Pow2(n: nat): nat {
    if n == 0 then 1 else 2 * Pow2(n - 1)
  }

  /** `1u64.checked_shl(attempt as u32).unwrap_or(u64::MAX)`: the cast keeps the low 32 bits. */
  function Multiplier(attempt: nat): nat {
    if attempt % U32_SPAN < 64 then Pow2(attempt % U32_SPAN) else U64_MAX
  }

  /** `parse::<u64>` */
  function ParseU64(s: string): Option<nat> {
    var digits := if s != "" && s[0] == '+' then s[1..] else s;
    if digits != "" && AllDigits(digits) && Number(digits) <= U64_MAX then Some(Number(digits)) else None
  }

  /** `parse_retry_after` on the header's value. */
  function RetryAfter(header: Option<string>): Option<nat> {
    match header case None => None case Some(value) => ParseU64(Trim(value))
  }

  /** `calculate_retry_delay`, in milliseconds. */
  function RetryDelay(attempt: nat, base: nat, max: nat, header: Option<string>): nat {
    match RetryAfter(header)
    case Some(seconds) => if seconds * 1000 > max then max else seconds * 1000
    case None => Min(Min(base * Multiplier(attempt), U64_MAX), max)
  }

  /** The delay is never above the configured maximum. */
  lemma DelayIsBounded(attempt: nat, base: nat, max: nat, header: Option<string>)
    ensures RetryDelay(attempt, base, max, header) <= max
  {
    hide RetryAfter, Multiplier;
  }

  lemma {:induction false} Pow2Grows(a: nat, b: nat)
    requires a <= b
    ensures Pow2(a) <= Pow2(b)
    decreases b
  {
    if a < b {
      Pow2Grows(a, b - 1);
    }
  }

  lemma {:induction false} Pow2Doubles(n: nat)
    ensures Pow2(n + n) == Pow2(n) * Pow2(n)
  {
    if n > 0 {
      Pow2Doubles(n - 1);
      assert Pow2(n + n) == 4 * Pow2(n - 1 + (n - 1));
      assert Pow2(n) * Pow2(n) == 4 * (Pow2(n - 1) * Pow2(n - 1));
    }
  }

  lemma Pow2Of16()
    ensures Pow2(16) == 0x1_0000
  {
    assert Pow2(4) == 16 && Pow2(8) == 0x100;
    Pow2Doubles(8);
  }

  lemma Pow2Of64()
    ensures Pow2(64) == U64_MAX + 1
  {
    hide Pow2;
    Pow2Of16();
    Pow2Doubles(16);
    Pow2Doubles(32);
  }

  lemma Product(a: nat, b: nat, c: nat)
    requires a >= 1 && b >= c
    ensures a * b >= c
  {
  }

  lemma CapIsHarmless(x: nat, max: nat)
    requires max <= U64_MAX
    ensures Min(Min(x, U64_MAX), max) == Min(x, max)
  {
  }

  /** From 64 attempts on both the exact and the saturated product are out of range. */
  lemma LargeAttempt(attempt: nat, base: nat)
    requires attempt >= 64 && base >= 1
    ensures base * Pow2(attempt) > U64_MAX && base * U64_MAX >= U64_MAX
  {
    Pow2Of64();
    Pow2Grows(64, attempt);
    hide Pow2;
    Product(base, Pow2(attempt), U64_MAX + 1);
    Product(base, U64_MAX, U64_MAX);
  }

  /** Saturation does no harm below 2^32 attempts. */
  lemma SaturationIsExact(attempt: nat, base: nat, max: nat)
    requires base <= U64_MAX && max <= U64_MAX && attempt < U32_SPAN
    ensures Min(Min(base * Multiplier(attempt), U64_MAX), max) == Min(base * Pow2(attempt), max)
  {
    hide Pow2;
    CapIsHarmless(base * Multiplier(attempt), max);
    assert attempt % U32_SPAN == attempt;
    if attempt >= 64 {
      if base == 0 {
        assert base * U64_MAX == 0 && base * Pow2(attempt) == 0;
      } else {
        LargeAttempt(attempt, base);
      }
    }
  }

  /** Without a usable Retry-After header the delay is exactly the smaller of base * 2^attempt and the
      maximum, as whole numbers, if and only if the attempt fits in 32 bits or the truncated attempt
      happens to reach the maximum as well. */
  lemma DelayIsExact(attempt: nat, base: nat, max: nat, header: Option<string>)
    requires base <= U64_MAX && max <= U64_MAX && RetryAfter(header).None?
    ensures RetryDelay(attempt, base, max, header) == Min(base * Pow2(attempt), max)
            <==> attempt < U32_SPAN || base == 0 || base * Pow2(attempt % U32_SPAN) >= max
  {
    hide RetryAfter, Multiplier, Pow2;
    var low := attempt % U32_SPAN;
    MultiplierOfLow(attempt);
    SaturationIsExact(low, base, max);
    if attempt < U32_SPAN {
      assert low == attempt;
    } else if base == 0 {
      assert base * Pow2(attempt) == 0 && base * Pow2(low) == 0;
    } else {
      LargeAttempt(attempt, base);
    }
  }

  /** An attempt for which it is not: the cast makes it the first one. */
  lemma DelayIsWrong()
    ensures RetryDelay(U32_SPAN, 1, 2, None) == 1 && Min(1 * Pow2(U32_SPAN), 2) == 2
  {
    Pow2Grows(1, U32_SPAN);
    assert Pow2(1) == 2;
  }

  lemma MultiplierOfLow(attempt: nat)
    ensures Multiplier(attempt) == Multiplier(attempt % U32_SPAN)
  {
  }

  // ---------------------------------------------------------------- the cascade

  predicate IsSafeToRetry(status: nat) {
    status in {401, 402, 403, 408, 429, 499, 500, 502, 503, 504, 524}
  }

  /** What a candidate does with the request: nothing usable comes back, or a response head. For the
      built-in `muse` model a completed request counts as a response with status 200. */
  datatype Answer = Failed | Responded(status: nat, retryAfter: Option<string>)

  /** What the client receives. */
  datatype Response = Relayed(candidate: nat, status: nat) | ErrorPage(status: nat)

  class Exchange {
    var responses: seq<Response>
    var sleeps: seq<nat>

    constructor ()
      ensures responses == [] && sleeps == []
    {
      responses, sleeps := [], [];
    }

    method Sleep(ms: nat)
      modifies this`sleeps
      ensures sleeps == old(sleeps) + if ms == 0 then [] else [ms]
    {
      if ms != 0 {
        sleeps := sleeps + [ms];
      }
    }

    method Send(r: Response)
      modifies this`responses
      ensures responses == old(responses) + [r]
    {
      responses := responses + [r];
    }
  }

  predicate IsMuse(model: string) {
    model == "muse"
  }

  /** The candidate gives way to the next one. */
  predicate FailsOver(model: string, answer: Answer) {
    answer.Failed? || (!IsMuse(model) && IsSafeToRetry(answer.status))
  }

  /** The sleep in front of the next candidate. A connection that fails costs no delay. */
  function DelayAfter(model: string, answer: Answer, index: nat, config: Config): nat {
    if IsMuse(model) then RetryDelay(index, config.retryBaseMs, config.maxRetryMs, None)
    else match answer
         case Failed => 0
         case Responded(status, header) => RetryDelay(index, config.retryBaseMs, config.maxRetryMs, header)
  }

  function ErrorStatus(answer: Answer): nat {
    match answer case Failed => 502 case Responded(status, header) => status
  }

  /** The first candidate from `i` on that does not fail over, or else the last one. */
  function Decider(candidates: seq<string>, answers: seq<Answer>, i: nat): (k: nat)
    requires i < |candidates| == |answers|
    ensures i <= k < |candidates|
    ensures forall j :: i <= j < k ==> FailsOver(candidates[j], answers[j])
    ensures k < |candidates| - 1 ==> !FailsOver(candidates[k], answers[k])
    decreases |candidates| - i
  {
    if i == |candidates| - 1 || !FailsOver(candidates[i], answers[i]) then i else Decider(candidates, answers, i + 1)
  }

  function DecidedBy(candidates: seq<string>, answers: seq<Answer>, k: nat): Response
    requires k < |candidates| == |answers|
  {
    if FailsOver(candidates[k], answers[k]) then ErrorPage(ErrorStatus(answers[k]))
    else Relayed(k, if IsMuse(candidates[k]) then 200 else ErrorStatus(answers[k]))
  }

  /** The sleeps on the way from candidate `i` to candidate `k`. */
  function SleepsBetween(candidates: seq<string>, answers: seq<Answer>, config: Config, i: nat, k: nat): seq<nat>
    requires i <= k <= |candidates| == |answers|
    decreases k
  {
    if i == k then []
    else
      var delay := DelayAfter(candidates[k - 1], answers[k - 1], k - 1, config);
      SleepsBetween(candidates, answers, config, i, k - 1) + if delay == 0 then [] else [delay]
  }

  /** `forward_muse` and `forward_upstream`: a status when the request is settled. */
  method TryCandidate(client: Exchange, model: string, answer: Answer, index: nat, last: bool, config: Config)
    returns (settled: Option<nat>)
    modifies client
    ensures settled.None? <==> FailsOver(model, answer) && !last
    ensures settled.None? ==>
              && client.responses == old(client.responses)
              && client.sleeps == old(client.sleeps) + (var d := DelayAfter(model, answer, index, config); if d == 0 then [] else [d])
    ensures settled.Some? ==>
              && client.sleeps == old(client.sleeps)
              && client.responses == old(client.responses) +
                   [if FailsOver(model, answer) then ErrorPage(ErrorStatus(answer))
                    else Relayed(index, if IsMuse(model) then 200 else ErrorStatus(answer))]
              && settled.value == client.responses[|client.responses| - 1].status
  {
    hide RetryDelay, IsSafeToRetry;
    if IsMuse(model) {
      match answer
      case Responded(_, _) =>
        client.Send(Relayed(index, 200));
        return Some(200);
      case Failed =>
        if !last {
          var delay := RetryDelay(index, config.retryBaseMs, config.maxRetryMs, None);
          client.Sleep(delay);
          return None;
        }
        client.Send(ErrorPage(502));
        return Some(502);
    }
    match answer
    case Failed =>
      if !last {
        return None;
      }
      client.Send(ErrorPage(502));
      return Some(502);
    case Responded(status, header) =>
      if IsSafeToRetry(status) {
        var delay := RetryDelay(index, config.retryBaseMs, config.maxRetryMs, header);
        if !last {
          client.Sleep(delay);
          return None;
        }
        client.Send(ErrorPage(status));
        return Some(status);
      }
      client.Send(Relayed(index, status));
      return Some(status);
  }

  /** The loop of `forward_with_prefix`, when writing to the client succeeds. `answers[i]` is what
      candidate `i` would answer; the candidates are tried in order, each at most once, and the
      request is settled by the decider. Only an empty candidate list reaches the tail. */
  method Forward(client: Exchange, candidates: seq<string>, answers: seq<Answer>, config: Config) returns (status: nat, ghost tried: nat)
    requires |answers| == |candidates|
    modifies client
    ensures candidates == [] ==> tried == 0 && status == 502 && client.responses == old(client.responses) + [ErrorPage(502)]
    ensures candidates != [] ==>
              var k := Decider(candidates, answers, 0);
              && tried == k + 1 && status == DecidedBy(candidates, answers, k).status
              && client.responses == old(client.responses) + [DecidedBy(candidates, answers, k)]
              && client.sleeps == old(client.sleeps) + SleepsBetween(candidates, answers, config, 0, k)
  {
    hide FailsOver, DelayAfter;
    tried := 0;
    var lastStatus: Option<nat> := None;
    for index := 0 to |candidates|
      invariant tried == index && client.responses == old(client.responses)
      invariant client.sleeps == old(client.sleeps) + SleepsBetween(candidates, answers, config, 0, index)
      invariant index < |candidates| ==> Decider(candidates, answers, index) == Decider(candidates, answers, 0)
      invariant index == |candidates| ==> candidates == []
      invariant index == 0 ==> lastStatus == None
    {
      var last := index + 1 == |candidates|;
      tried := tried + 1;
      if !IsMuse(candidates[index]) && answers[index].Responded? {
        lastStatus := Some(answers[index].status);
      }
      var settled := TryCandidate(client, candidates[index], answers[index], index, last, config);
      if settled.Some? {
        return settled.value, tried;
      }
    }
    status := lastStatus.GetOr(502);
    client.Send(ErrorPage(status));
  }

  /** Every sleep stays within the configured maximum. */
  lemma {:induction false} SleepsAreBounded(candidates: seq<string>, answers: seq<Answer>, config: Config, i: nat, k: nat)
    requires i <= k <= |candidates| == |answers|
    ensures forall ms :: ms in SleepsBetween(candidates, answers, config, i, k) ==> 0 < ms <= config.maxRetryMs
    decreases k
  {
    hide RetryDelay;
    if i < k {
      SleepsAreBounded(candidates, answers, config, i, k - 1);
      DelayIsBounded(k - 1, config.retryBaseMs, config.maxRetryMs, None);
      match answers[k - 1]
      case Failed =>
      case Responded(status, header) => DelayIsBounded(k - 1, config.retryBaseMs, config.maxRetryMs, header);
    }
  }

  // ---------------------------------------------------------------- the sleeps in plain numbers

  /** The header asks for `seconds`: digits, perhaps behind a plus sign and between blanks. */
  ghost predicate AsksFor(header: Option<string>, seconds: nat) {
    && header.Some? && seconds <= U64_MAX
    && exists digits ::
         && (Trim(header.value) == digits || Trim(header.value) == "+" + digits)
         && digits != "" && AllDigits(digits) && Number(digits) == seconds
  }

  lemma AskedIsRead(header: Option<string>, seconds: nat)
    ensures AsksFor(header, seconds) <==> RetryAfter(header) == Some(seconds)
  {
    hide Trim, Number;
    if header.Some? {
      var t := Trim(header.value);
      var rest := if t != "" && t[0] == '+' then t[1..] else t;
      assert t == rest || t == "+" + rest;
      if digits :| (t == digits || t == "+" + digits) && digits != "" && AllDigits(digits) && Number(digits) == seconds {
        assert digits == rest;
      }
    }
  }

  /** The sleep behind a candidate that gave way, in milliseconds: nothing after a failed connection, but
      for muse; what the header asks for, or else the doubled base, and never more than the maximum. */
  ghost predicate IsSleep(model: string, answer: Answer, index: nat, config: Config, ms: nat) {
    var doubled := Min(config.retryBaseMs * Pow2(index), config.maxRetryMs);
    if model == "muse" then ms == doubled
    else
      match answer
      case Failed => ms == 0
      case Responded(_, header) =>
        && (forall s: nat :: AsksFor(header, s) ==> ms == Min(1000 * s, config.maxRetryMs))
        && ((forall s: nat :: !AsksFor(header, s)) ==> ms == doubled)
  }

  /** The sleeps there are: those that are not zero. */
  function Positive(sleeps: seq<nat>): seq<nat>
    decreases |sleeps|
  {
    if sleeps == [] then []
    else Positive(sleeps[..|sleeps| - 1]) + if sleeps[|sleeps| - 1] == 0 then [] else [sleeps[|sleeps| - 1]]
  }

  /** What was slept before candidate `k`: candidate by candidate the sleep that is due. */
  ghost predicate SleptFor(slept: seq<nat>, candidates: seq<string>, answers: seq<Answer>, config: Config, k: nat)
    requires k <= |candidates| == |answers|
  {
    exists sleeps: seq<nat> ::
      && |sleeps| == k && slept == Positive(sleeps)
      && forall j :: 0 <= j < k ==> IsSleep(candidates[j], answers[j], j, config, sleeps[j])
  }

  predicate FitsU64(config: Config) {
    config.retryBaseMs <= U64_MAX && config.maxRetryMs <= U64_MAX
  }

  lemma DelayIsSleep(model: string, answer: Answer, index: nat, config: Config)
    requires FitsU64(config) && index < U32_SPAN
    ensures IsSleep(model, answer, index, config, DelayAfter(model, answer, index, config))
  {
    hide Trim, Number, Pow2, AsksFor, RetryAfter;
    SaturationIsExact(index, config.retryBaseMs, config.maxRetryMs);
    NoHeader();
    if answer.Responded? {
      forall s: nat
        ensures AsksFor(answer.retryAfter, s) <==> RetryAfter(answer.retryAfter) == Some(s)
      {
        AskedIsRead(answer.retryAfter, s);
      }
    }
  }

  lemma NoHeader()
    ensures RetryAfter(None) == None
  {
  }

  lemma {:induction false} SleepsAreExact(candidates: seq<string>, answers: seq<Answer>, config: Config, k: nat)
    requires k <= |candidates| == |answers| && k <= U32_SPAN && FitsU64(config)
    ensures SleptFor(SleepsBetween(candidates, answers, config, 0, k), candidates, answers, config, k)
    decreases k
  {
    hide IsSleep, DelayAfter, SleepsBetween, Positive;
    SleepsStep(candidates, answers, config, k);
    if k == 0 {
      NothingPositive();
    } else {
      SleepsAreExact(candidates, answers, config, k - 1);
      var sleeps: seq<nat> :|
        && |sleeps| == k - 1 && SleepsBetween(candidates, answers, config, 0, k - 1) == Positive(sleeps)
        && forall j :: 0 <= j < k - 1 ==> IsSleep(candidates[j], answers[j], j, config, sleeps[j]);
      var last := DelayAfter(candidates[k - 1], answers[k - 1], k - 1, config);
      DelayIsSleep(candidates[k - 1], answers[k - 1], k - 1, config);
      var all := sleeps + [last];
      PositiveMore(sleeps, last);
      assert forall j :: 0 <= j < k ==> IsSleep(candidates[j], answers[j], j, config, all[j]);
    }
  }

  lemma NothingPositive()
    ensures Positive([]) == []
  {
  }

  lemma PositiveMore(sleeps: seq<nat>, last: nat)
    ensures Positive(sleeps + [last]) == Positive(sleeps) + if last == 0 then [] else [last]
  {
    assert (sleeps + [last])[..|sleeps|] == sleeps;
  }

  lemma SleepsStep(candidates: seq<string>, answers: seq<Answer>, config: Config, k: nat)
    requires k <= |candidates| == |answers|
    ensures k == 0 ==> SleepsBetween(candidates, answers, config, 0, k) == []
    ensures k > 0 ==>
              var last := DelayAfter(candidates[k - 1], answers[k - 1], k - 1, config);
              SleepsBetween(candidates, answers, config, 0, k)
              == SleepsBetween(candidates, answers, config, 0, k - 1) + if last == 0 then [] else [last]
  {
    hide DelayAfter;
  }

  /** What the client is sent: an error page with the status that came back, 502 without one, or the
      answer itself, from muse always as 200. */
  lemma ResponseIs(candidates: seq<string>, answers: seq<Answer>, k: nat)
    requires k < |candidates| == |answers|
    ensures var r := DecidedBy(candidates, answers, k);
            match answers[k]
            case Failed => r == ErrorPage(502)
            case Responded(status, _) =>
              if candidates[k] == "muse" then r == Relayed(k, 200)
              else if status in {401, 402, 403, 408, 429, 499, 500, 502, 503, 504, 524} then r == ErrorPage(status)
              else r == Relayed(k, status)
  {
  }

  /** When a candidate gives way: muse only when it fails, any other also on a status worth a retry. */
  lemma GivesWay(model: string, answer: Answer)
    ensures model == "muse" ==> (FailsOver(model, answer) <==> answer.Failed?)
    ensures model != "muse" && answer.Responded? ==>
              (FailsOver(model, answer) <==> answer.status in {401, 402, 403, 408, 429, 499, 500, 502, 503, 504, 524})
    ensures answer.Failed? ==> FailsOver(model, answer)
  {
  }

  /** The whole of `forward_with_prefix`: exactly one response is sent, whatever the candidates do,
      and never by the tail. */
  method ForwardRequest(client: Exchange, body: string, fallbacks: seq<string>, rotation: nat, defaultModel: string,
                        config: Config, answer: string -> Answer)
    returns (status: nat, ghost candidates: seq<string>)
    modifies client
    ensures candidates != [] && Distinct(candidates)
    ensures forall f :: f in fallbacks ==> f in candidates
    ensures var plan := Planned(RequestedModel(body), fallbacks, rotation, defaultModel);
            var hasTools := Utf8.Valid(body) && exists i: nat :: At(body, "\"tools\"", i);
            candidates == match Recommended(RequestedModel(body).GetOr(plan[0]), config, hasTools)
                          case None => plan
                          case Some(m) => Dedup([m] + plan)
    ensures var answers := seq(|candidates|, i requires 0 <= i < |candidates| => answer(candidates[i]));
            var k := Decider(candidates, answers, 0);
            && status == DecidedBy(candidates, answers, k).status
            && client.responses == old(client.responses) + [DecidedBy(candidates, answers, k)]
            && client.sleeps == old(client.sleeps) + SleepsBetween(candidates, answers, config, 0, k)
            && (FitsU64(config) && k <= U32_SPAN ==>
                  SleptFor(client.sleeps[|old(client.sleeps)|..], candidates, answers, config, k))
  {
    hide SleptFor;
    hide Decider, DecidedBy, SleepsBetween, RequestedModel, NormalizeModelId, Recommended, Rotated;
    var planned := PlanCandidates(body, fallbacks, rotation, defaultModel);
    PlanHasFallbacks(RequestedModel(body), fallbacks, rotation, defaultModel);
    var model := RequestedModel(body);
    var requested := match model case Some(m) => m case None => planned[0];
    var hasTools := Utf8.Valid(body) && Find(body, "\"tools\"", 0).Some?;
    var chosen := EvaluateRoutingPolicy(requested, planned, config, hasTools);
    candidates := chosen;
    var answers := seq(|chosen|, i requires 0 <= i < |chosen| => answer(chosen[i]));
    ghost var tried;
    status, tried := Forward(client, chosen, answers, config);
    ghost var k := Decider(chosen, answers, 0);
    if FitsU64(config) && k <= U32_SPAN {
      SleepsAreExact(chosen, answers, config, k);
    }
  }

  /** The plan starts with the model asked for, and goes on with exactly the fallbacks. */
  lemma PlanHasFallbacks(model: Option<string>, fallbacks: seq<string>, rotation: nat, defaultModel: string)
    ensures forall f :: f in fallbacks ==> f in Planned(model, fallbacks, rotation, defaultModel)
    ensures model.Some? ==> Planned(model, fallbacks, rotation, defaultModel)[0] == NormalizeModelId(model.value, defaultModel)
    ensures forall c :: c in Planned(model, fallbacks, rotation, defaultModel) ==>
              || c in fallbacks
              || (model.Some? && c == NormalizeModelId(model.value, defaultModel))
              || (model.None? && fallbacks == [])
  {
    hide NormalizeModelId, Trim;
    forall f | f in fallbacks
      ensures f in Planned(model, fallbacks, rotation, defaultModel)
    {
      var offset := rotation % |fallbacks|;
      assert fallbacks == fallbacks[..offset] + fallbacks[offset..];
      assert f in Rotated(fallbacks, rotation);
    }
  }
}
