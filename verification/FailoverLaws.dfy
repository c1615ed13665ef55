/** What the planning of candidates makes of concrete requests and model names. */
module FailoverLaws {
  import opened Bytes
  import Utf8
  import opened Failover

  // ---------------------------------------------------------------- the model a request names

  predicate HasNoQuote(s: string) {
    forall i :: 0 <= i < |s| ==> s[i] != '"'
  }

  lemma QuoteIsFound(front: string, middle: string, rest: string)
    requires HasNoQuote(middle)
    ensures FindChar(front + middle + "\"" + rest, '"', |front|) == Some(|front| + |middle|)
  {
    var s := front + middle + "\"" + rest;
    assert forall i :: 0 <= i < |middle| ==> s[|front| + i] == middle[i];
    assert s[|front| + |middle|] == '"';
  }

  lemma KeyIsFound(front: string, rest: string)
    requires HasNoQuote(front)
    ensures Find(front + "\"model\"" + rest, "\"model\"", 0) == Some(|front|)
  {
    var key := "\"model\"";
    var s := front + key + rest;
    assert s[|front|..|front| + |key|] == key;
    forall j | 0 <= j < |front|
      ensures !At(s, key, j)
    {
      assert s[j] == front[j];
      assert j + |key| <= |s| ==> s[j..j + |key|][0] == s[j];
    }
    FindIs(s, key, 0, |front|);
  }

  /** The quoted text behind the key. */
  lemma ModelIsRead(front: string, middle: string, model: string, rest: string)
    requires HasNoQuote(front) && HasNoQuote(middle) && HasNoQuote(model)
    ensures var body := front + "\"model\"" + (middle + "\"" + model + "\"" + rest);
            Utf8.Valid(body) ==> RequestedModel(body) == Some(model)
  {
    hide Find, FindChar, HasNoQuote, Utf8.Valid;
    var behind := middle + "\"" + model + "\"" + rest;
    var body := front + "\"model\"" + behind;
    KeyIsFound(front, behind);
    assert "\"" + "model" + "\"" == "\"model\"" && |"\"model\""| == 7;
    assert body[|front| + 7..] == behind;
    QuoteIsFound("", middle, model + "\"" + rest);
    assert "" + middle + "\"" + (model + "\"" + rest) == behind;
    QuoteIsFound(middle + "\"", model, rest);
    assert (middle + "\"") + model + "\"" + rest == behind;
    assert behind[|middle| + 1..|middle| + 1 + |model|] == model;
  }

  lemma NoModelIsRead(body: string)
    requires HasNoQuote(body)
    ensures RequestedModel(body) == None
  {
    hide Find;
    var key := "\"" + "model" + "\"";
    if Find(body, key, 0).Some? {
      StartsAlike(body, key, Find(body, key, 0).value);
    }
  }

  lemma StartsAlike(s: string, part: string, k: nat)
    requires part != "" && At(s, part, k)
    ensures s[k] == part[0]
  {
    assert s[k] == s[k..k + |part|][0];
  }

  // ---------------------------------------------------------------- the model asked for

  lemma EndsAgree(s: string, a: string, b: string, j: nat)
    requires HasSuffix(s, a) && HasSuffix(s, b) && j < |a| && j < |b|
    ensures a[|a| - 1 - j] == b[|b| - 1 - j]
  {
    assert a[|a| - 1 - j] == s[|s| - |a|..][|a| - 1 - j] == s[|s| - 1 - j];
    assert b[|b| - 1 - j] == s[|s| - |b|..][|b| - 1 - j] == s[|s| - 1 - j];
  }

  lemma EffortsDiffer(a: string, b: string) returns (j: nat)
    requires a in EFFORT_SUFFIXES && b in EFFORT_SUFFIXES && a != b
    ensures j < |a| && j < |b| && a[|a| - 1 - j] != b[|b| - 1 - j]
  {
    j := if "-xhigh" in {a, b} && "-high" in {a, b} then 4 else if "-low" in {a, b} then 0 else 1;
  }

  lemma SuffixIsThere(base: string, suffix: string)
    ensures HasSuffix(base + suffix, suffix) && StripSuffix(base + suffix, suffix) == Some(base)
  {
    var s := base + suffix;
    assert s[|s| - |suffix|..] == suffix && s[..|s| - |suffix|] == base;
  }

  /** No text ends with two of the effort suffixes. */
  lemma OneEffort(base: string, suffix: string, other: string)
    requires suffix in EFFORT_SUFFIXES && other in EFFORT_SUFFIXES && suffix != other
    ensures StripSuffix(base + suffix, other) == None
  {
    SuffixIsThere(base, suffix);
    var j := EffortsDiffer(suffix, other);
    hide HasSuffix;
    if HasSuffix(base + suffix, other) {
      EndsAgree(base + suffix, suffix, other, j);
    }
  }

  lemma {:induction false} EffortIsFound(base: string, suffix: string, model: string, suffixes: seq<string>)
    requires suffix in suffixes && forall x :: x in suffixes ==> x in EFFORT_SUFFIXES
    ensures WithEffort(base + suffix, model, suffixes) == model + suffix
    decreases |suffixes|
  {
    hide StripSuffix;
    if suffixes[0] == suffix {
      SuffixIsThere(base, suffix);
    } else {
      OneEffort(base, suffix, suffixes[0]);
      EffortIsFound(base, suffix, model, suffixes[1..]);
    }
  }

  lemma {:induction false} NoEffortIsFound(requested: string, model: string, suffixes: seq<string>)
    requires forall x :: x in suffixes ==> !HasSuffix(requested, x)
    ensures WithEffort(requested, model, suffixes) == model
    decreases |suffixes|
  {
    hide HasSuffix;
    if suffixes != [] {
      assert suffixes[0] in suffixes;
      NoEffortIsFound(requested, model, suffixes[1..]);
    }
  }

  /** The default that stands in when none is configured. */
  function Default(configured: string): string {
    if Trim(configured) == "" then "claude-3-5-sonnet" else Trim(configured)
  }

  /** A name of one of the known models, up to case and blanks, with anything behind it. */
  predicate IsKnown(name: string) {
    var clean := Lower(Trim(name));
    || "claude-3-5-sonnet" <= clean || "claude-3-5-haiku" <= clean || "gpt-4o" <= clean || "muse" <= clean
  }

  lemma {:induction false} LookupFinds(known: seq<Capabilities>, clean: string)
    requires Lower(clean) == clean && forall c :: c in known ==> Lower(c.modelId) == c.modelId
    ensures LookupIn(known, clean).Some? <==> exists c :: c in known && c.modelId <= clean
    decreases |known|
  {
    hide Lower;
    if known != [] {
      assert known[0] in known;
      LookupFinds(known[1..], clean);
      assert forall c :: c in known <==> c == known[0] || c in known[1..];
    }
  }

  lemma KnownIsLookedUp(name: string)
    ensures LookupCapabilities(name).Some? <==> IsKnown(name)
  {
    hide Trim;
    var clean := Lower(Trim(name));
    LowerTwice(Trim(name));
    KnownAreLower();
    LookupFinds(KNOWN_MODELS, clean);
    hide LookupIn;
    assert forall k :: 0 <= k < 5 ==> KNOWN_MODELS[k] in KNOWN_MODELS;
    assert KNOWN_MODELS[0].modelId == "claude-3-5-sonnet" && KNOWN_MODELS[1].modelId == "claude-3-5-haiku";
    assert KNOWN_MODELS[2].modelId == "gpt-4o" && KNOWN_MODELS[4].modelId == "muse";
    assert "gpt-4o" <= "gpt-4o-mini" && KNOWN_MODELS[3].modelId == "gpt-4o-mini";
  }

  lemma LowerTwice(s: string)
    ensures Lower(Lower(s)) == Lower(s)
  {
  }

  lemma KnownAreLower()
    ensures forall c :: c in KNOWN_MODELS ==> Lower(c.modelId) == c.modelId
  {
  }

  /** The model asked for, when it has no effort suffix: the default, or the name itself if no default is
      configured and the name is known. */
  lemma NameWithoutEffort(requested: string, configured: string)
    requires forall x :: x in EFFORT_SUFFIXES ==> !HasSuffix(requested, x)
    ensures NormalizeModelId(requested, configured)
            == if Trim(configured) == "" && IsKnown(requested) then requested else Default(configured)
  {
    KnownIsLookedUp(requested);
    NoEffortIsFound(requested, Default(configured), EFFORT_SUFFIXES);
    hide Trim, LookupCapabilities, IsKnown, WithEffort;
  }

  /** With an effort suffix: the same of the name in front of it, and the suffix is kept. */
  lemma NameWithEffort(base: string, suffix: string, configured: string)
    requires suffix in EFFORT_SUFFIXES
    ensures var requested := base + suffix;
            NormalizeModelId(requested, configured)
            == if Trim(configured) == "" && (IsKnown(requested) || IsKnown(base)) then requested
               else if requested == Default(configured) then requested
               else Default(configured) + suffix
  {
    var requested := base + suffix;
    KnownIsLookedUp(requested);
    KnownIsLookedUp(base);
    SuffixIsThere(base, suffix);
    EffortIsFound(base, suffix, Default(configured), EFFORT_SUFFIXES);
    forall other | other in EFFORT_SUFFIXES && other != suffix
      ensures StripSuffix(requested, other) == None
    {
      OneEffort(base, suffix, other);
    }
    hide Trim, LookupCapabilities, IsKnown, WithEffort, StripSuffix;
    assert KnownUpToEffort(requested) <==> IsKnown(requested) || IsKnown(base);
  }

  // ---------------------------------------------------------------- the policy

  /** The model the policy puts in front, mode by mode: rules ask for a strong model when there are tools;
      the decision mode follows its shadow, or the request. */
  lemma PolicyTable(requested: string, config: Config, hasTools: bool)
    ensures var tiered := match config.defaultTier
                          case Fast => "claude-3-5-haiku"
                          case Strong => "claude-3-5-sonnet"
                          case AnyTier => requested;
            Recommended(requested, config, hasTools)
            == match config.mode
               case Existing => None
               case RoundRobin => None
               case Rules => Some(if hasTools then "claude-3-5-sonnet" else tiered)
               case Jev => Some(if config.shadow then tiered else requested)
  {
    KnownUseTools(KNOWN_MODELS, Lower(Trim(requested)));
    hide LookupIn, Trim, Lower;
  }

  /** All known models use tools, so the branch for one that does not is never taken. */
  lemma {:induction false} KnownUseTools(known: seq<Capabilities>, clean: string)
    requires forall c :: c in known ==> c.supportsTools
    ensures LookupIn(known, clean).Some? ==> LookupIn(known, clean).value.supportsTools
    decreases |known|
  {
    if known != [] {
      assert known[0] in known;
      KnownUseTools(known[1..], clean);
    }
  }

  // ---------------------------------------------------------------- the rotation

  /** Without a model in the request, distinct fallbacks are all of the plan, in their order from the
      rotation on and around the end. */
  lemma FallbacksInRotation(fallbacks: seq<string>, rotation: nat, configured: string)
    requires Distinct(fallbacks) && fallbacks != []
    ensures var plan, offset := Planned(None, fallbacks, rotation, configured), rotation % |fallbacks|;
            && |plan| == |fallbacks|
            && forall step :: 0 <= step < |fallbacks| ==>
                 plan[step] == fallbacks[if offset + step < |fallbacks| then offset + step else offset + step - |fallbacks|]
  {
    PlanIsRotated(fallbacks, rotation, configured);
    RotatedElements(fallbacks, rotation);
    hide Planned, Rotated;
  }

  /** Without a model and without fallbacks the plan is the default. */
  lemma DefaultIsPlanned(rotation: nat, configured: string)
    ensures Planned(None, [], rotation, configured) == [Default(configured)]
  {
    hide Trim;
    assert Rotated([], rotation) == [] && Dedup([] + []) == [];
  }

  lemma PlanIsRotated(fallbacks: seq<string>, rotation: nat, configured: string)
    requires Distinct(fallbacks) && fallbacks != []
    ensures Planned(None, fallbacks, rotation, configured) == Rotated(fallbacks, rotation)
  {
    hide Trim, Dedup, Distinct, Rotated, Planned;
    RotatedIsDistinct(fallbacks, rotation);
    DedupKeeps(Rotated(fallbacks, rotation));
    PlannedIs(None, [], fallbacks, rotation, configured);
    assert [] + Rotated(fallbacks, rotation) == Rotated(fallbacks, rotation);
    RotatedAt(fallbacks, rotation, 0);
  }

  lemma RotatedElements(fallbacks: seq<string>, rotation: nat)
    requires fallbacks != []
    ensures var r, offset := Rotated(fallbacks, rotation), rotation % |fallbacks|;
            && |r| == |fallbacks|
            && forall step :: 0 <= step < |fallbacks| ==>
                 r[step] == fallbacks[if offset + step < |fallbacks| then offset + step else offset + step - |fallbacks|]
  {
  }

  lemma RotatedIsDistinct(fallbacks: seq<string>, rotation: nat)
    requires Distinct(fallbacks)
    ensures Distinct(Rotated(fallbacks, rotation))
  {
    if fallbacks != [] {
      RotatedElements(fallbacks, rotation);
      hide Rotated;
      var r, offset, n := Rotated(fallbacks, rotation), rotation % |fallbacks|, |fallbacks|;
      forall i, j | 0 <= i < j < n
        ensures r[i] != r[j]
      {
        var a := if offset + i < n then offset + i else offset + i - n;
        var b := if offset + j < n then offset + j else offset + j - n;
        assert r[i] == fallbacks[a] && r[j] == fallbacks[b] && a != b;
      }
    }
  }

  lemma {:induction false} DedupKeeps(s: seq<string>)
    requires Distinct(s)
    ensures Dedup(s) == s
    decreases |s|
  {
    if s != [] {
      var front, last := s[..|s| - 1], s[|s| - 1];
      DedupKeeps(front);
      assert last !in front;
      assert s == front + [last];
    }
  }
}
