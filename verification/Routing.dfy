/** Longest-prefix routing over a hash map of modules. */
module Routing {
  import opened Bytes
  import opened Namespaces
  import opened Registry
  import opened RegistryLaws

  // ---------------------------------------------------------------- prefixes of a module

  predicate IsTikTokId(id: string) {
    id == "tiktok-studio" || id == "TikTok-Creator-Studio-Adapter"
  }

  predicate IsFacebookId(id: string) {
    id == "facebook-suite" || id == "Facebook-Suite"
  }

  /** The aliases of two families of personal modules. */
  function FixedAliases(id: string): seq<string> {
    if IsTikTokId(id) then ["/custom/tiktok", "/tiktok"]
    else if IsFacebookId(id) then ["/custom/facebook", "/facebook"]
    else []
  }

  /** The prefixes a module is reached under: built-in modules and two families of personal modules
      have aliases. */
  function Prefixes(desc: Descriptor): (r: seq<string>)
    ensures r != []
  {
    if desc.id == "omniroute" then ["/ominroute", "/omniroute"]
    else if desc.id == "jev" then ["/jev", "/jev-ai"]
    else if desc.id == "muse" then ["/muse-ai", "/v1/images/generations", "/video/v1/providers"]
    else FixedAliases(desc.id) + [desc.namespace]
  }

  /** The path without its query and trailing slashes. */
  function RoutedPath(path: string): string {
    TrimEndMatches(match FindChar(path, '?', 0) case Some(k) => path[..k] case None => path, '/')
  }

  /** A module and one of its prefixes. */
  datatype Claim = Claim(desc: Descriptor, prefix: string)

  function ClaimsOf(desc: Descriptor, prefixes: seq<string>): seq<Claim> {
    if prefixes == [] then [] else [Claim(desc, prefixes[0])] + ClaimsOf(desc, prefixes[1..])
  }

  /** All claims in the order in which the map is iterated. */
  function Claims(order: seq<Descriptor>): seq<Claim> {
    if order == [] then [] else ClaimsOf(order[0], Prefixes(order[0])) + Claims(order[1..])
  }

  /** The first provider of a group whose subpath contains `subpath`. */
  function FindProvider(ps: seq<SubProvider>, subpath: string): Option<SubProvider> {
    if ps == [] then None
    else if Within(subpath, ps[0].subpath) then Some(ps[0])
    else FindProvider(ps[1..], subpath)
  }

  datatype Route = Route(desc: Descriptor, subpath: string, provider: Option<SubProvider>)

  function RouteOf(claim: Claim, path: string): Route
    requires Within(path, claim.prefix)
  {
    var subpath := path[|claim.prefix|..];
    Route(claim.desc, subpath,
          match claim.desc.providers case None => None case Some(ps) => FindProvider(ps, subpath))
  }

  // ---------------------------------------------------------------- the scan

  predicate Beats(claim: Claim, path: string, longest: nat) {
    Within(path, claim.prefix) && |claim.prefix| > longest
  }

  /** The scan over the claims with the best one so far. */
  function Scan(claims: seq<Claim>, path: string, best: Option<Claim>): Option<Claim>
    decreases |claims|
  {
    if claims == [] then best
    else
      var longest := match best case Some(c) => |c.prefix| case None => 0;
      Scan(claims[1..], path, if Beats(claims[0], path, longest) then Some(claims[0]) else best)
  }

  function Answer(best: Option<Claim>, path: string): Option<Route>
    requires best.Some? ==> Within(path, best.value.prefix)
  {
    match best case None => None case Some(c) => Some(RouteOf(c, path))
  }

  lemma {:induction false} ScanConcat(a: seq<Claim>, b: seq<Claim>, path: string, best: Option<Claim>)
    ensures Scan(a + b, path, best) == Scan(b, path, Scan(a, path, best))
    decreases |a|
  {
    hide Beats;
    if a == [] {
      assert a + b == b;
    } else {
      assert (a + b)[1..] == a[1..] + b;
      var longest := match best case Some(c) => |c.prefix| case None => 0;
      ScanConcat(a[1..], b, path, if Beats(a[0], path, longest) then Some(a[0]) else best);
    }
  }

  /** The route of a path when the map is iterated in the given order. */
  function Routed(order: seq<Descriptor>, path: string): Option<Route> {
    ScanFindsLongest(Claims(order), RoutedPath(path));
    Answer(Scan(Claims(order), RoutedPath(path), None), RoutedPath(path))
  }

  /** `match_path_with_provider`, with the map iterated in the given order. */
  method MatchPathWithProvider(order: seq<Descriptor>, path: string) returns (r: Option<Route>)
    ensures r == Routed(order, path)
  {
    hide RoutedPath, FindProvider, Within, Scan, Claims, ClaimsOf, Prefixes;
    ScanOfNothing();
    var trimmed := RoutedPath(path);
    r := None;
    ghost var best: Option<Claim> := None;
    var longest := 0;
    for i := 0 to |order|
      invariant best.Some? ==> Within(trimmed, best.value.prefix)
      invariant longest == match best case Some(c) => |c.prefix| case None => 0
      invariant r == Answer(best, trimmed)
      invariant Scan(Claims(order[i..]), trimmed, best) == Scan(Claims(order), trimmed, None)
    {
      var desc := order[i];
      var prefixes := Prefixes(desc);
      ClaimsStep(order, i, trimmed, best);
      ghost var start := best;
      for j := 0 to |prefixes|
        invariant best.Some? ==> Within(trimmed, best.value.prefix)
        invariant longest == match best case Some(c) => |c.prefix| case None => 0
        invariant r == Answer(best, trimmed)
        invariant Scan(ClaimsOf(desc, prefixes[j..]), trimmed, best) == Scan(ClaimsOf(desc, prefixes), trimmed, start)
      {
        var ns := prefixes[j];
        ClaimsOfStep(desc, prefixes, j, trimmed, best);
        if Within(trimmed, ns) && |ns| > longest {
          longest := |ns|;
          WithinIsPrefix(trimmed, ns);
          var subpath := trimmed[|ns|..];
          r := Some(Route(desc, subpath,
                          match desc.providers case None => None case Some(ps) => FindProvider(ps, subpath)));
          best := Some(Claim(desc, ns));
        }
      }
      assert prefixes[|prefixes|..] == [];
    }
    assert order[|order|..] == [];
  }

  lemma ScanOfNothing()
    ensures Claims([]) == [] && forall desc :: ClaimsOf(desc, []) == []
    ensures forall path, best :: Scan([], path, best) == best
  {
  }

  lemma WithinIsPrefix(path: string, prefix: string)
    requires Within(path, prefix)
    ensures prefix <= path
  {
  }

  lemma ClaimsStep(order: seq<Descriptor>, i: nat, path: string, best: Option<Claim>)
    requires i < |order|
    ensures Scan(Claims(order[i..]), path, best)
            == Scan(Claims(order[i + 1..]), path, Scan(ClaimsOf(order[i], Prefixes(order[i])), path, best))
  {
    hide Scan, Prefixes;
    assert order[i..][1..] == order[i + 1..];
    ScanConcat(ClaimsOf(order[i], Prefixes(order[i])), Claims(order[i + 1..]), path, best);
  }

  lemma ClaimsOfStep(desc: Descriptor, prefixes: seq<string>, j: nat, path: string, best: Option<Claim>)
    requires j < |prefixes|
    ensures var longest := match best case Some(c) => |c.prefix| case None => 0;
            Scan(ClaimsOf(desc, prefixes[j..]), path, best)
            == Scan(ClaimsOf(desc, prefixes[j + 1..]), path,
                    if Within(path, prefixes[j]) && |prefixes[j]| > longest then Some(Claim(desc, prefixes[j])) else best)
  {
    hide Within;
    var claims := ClaimsOf(desc, prefixes[j..]);
    assert prefixes[j..][1..] == prefixes[j + 1..];
    assert claims[0] == Claim(desc, prefixes[j]) && claims[1..] == ClaimsOf(desc, prefixes[j + 1..]);
  }

  // ---------------------------------------------------------------- what the scan finds

  /** `best` is among the claims that match, and none of them has a longer prefix. */
  predicate IsLongest(claims: seq<Claim>, path: string, best: Option<Claim>) {
    match best
    case None => forall c :: c in claims ==> !Beats(c, path, 0)
    case Some(b) => b in claims && Beats(b, path, 0) && forall c :: c in claims ==> !Beats(c, path, |b.prefix|)
  }

  lemma {:induction false} ScanFindsLongest(claims: seq<Claim>, path: string)
    ensures IsLongest(claims, path, Scan(claims, path, None))
    decreases |claims|
  {
    hide Within;
    if claims != [] {
      var front, last := claims[..|claims| - 1], claims[|claims| - 1];
      assert claims == front + [last];
      ScanConcat(front, [last], path, None);
      ScanFindsLongest(front, path);
      assert [last][1..] == [];
    }
  }

  /** `prefix` is a prefix of the module that contains `path`. */
  predicate Reaches(desc: Descriptor, prefix: string, path: string) {
    prefix != "" && prefix in Prefixes(desc) && Within(path, prefix)
  }

  /** Longest-prefix routing: the route goes to a module under a prefix that contains the path, with
      what follows the prefix as the subpath, and no module has a longer one. Nothing is found only
      when no module has any. */
  lemma RouteIsLongest(order: seq<Descriptor>, path: string)
    ensures match Routed(order, path)
            case None => forall d, p :: d in order ==> !Reaches(d, p, RoutedPath(path))
            case Some(route) =>
              && route.desc in order && |route.subpath| <= |RoutedPath(path)|
              && var prefix := RoutedPath(path)[..|RoutedPath(path)| - |route.subpath|];
                 && prefix + route.subpath == RoutedPath(path)
                 && Reaches(route.desc, prefix, RoutedPath(path))
                 && (forall d, p :: d in order && Reaches(d, p, RoutedPath(path)) ==> |p| <= |prefix|)
                 && IsProvider(route.provider, route.desc.providers, route.subpath)
  {
    hide Scan, Claims, Prefixes, RoutedPath, Within, FindProvider;
    var t := RoutedPath(path);
    var best := Scan(Claims(order), t, None);
    ScanFindsLongest(Claims(order), t);
    forall d, p | d in order && Reaches(d, p, t)
      ensures Claim(d, p) in Claims(order) && Beats(Claim(d, p), t, 0)
    {
      ClaimIsInOrder(order, Claim(d, p));
    }
    if best.Some? {
      var prefix := best.value.prefix;
      ClaimIsInOrder(order, best.value);
      WithinIsPrefix(t, prefix);
      assert t[..|t| - |t[|prefix|..]|] == prefix;
      if best.value.desc.providers.Some? {
        ProviderIsFound(best.value.desc.providers.value, t[|prefix|..]);
      }
    }
  }

  /** The provider of a route: the first of the module's whose subpath contains the rest of the path,
      and none exactly if there is no such one. */
  ghost predicate IsProvider(provider: Option<SubProvider>, listed: Option<seq<SubProvider>>, subpath: string) {
    match listed
    case None => provider == None
    case Some(ps) =>
      match provider
      case None => forall i :: 0 <= i < |ps| ==> !Within(subpath, ps[i].subpath)
      case Some(p) =>
        exists i :: 0 <= i < |ps| && ps[i] == p && Within(subpath, ps[i].subpath)
                    && forall j :: 0 <= j < i ==> !Within(subpath, ps[j].subpath)
  }

  lemma {:induction false} ProviderIsFound(ps: seq<SubProvider>, subpath: string)
    ensures IsProvider(FindProvider(ps, subpath), Some(ps), subpath)
    decreases |ps|
  {
    hide Within;
    if ps != [] && !Within(subpath, ps[0].subpath) {
      var rest := ps[1..];
      ProviderIsFound(rest, subpath);
      assert forall i :: 0 < i < |ps| ==> ps[i] == rest[i - 1];
      if FindProvider(ps, subpath).Some? {
        var p := FindProvider(ps, subpath).value;
        var i :| 0 <= i < |rest| && rest[i] == p && Within(subpath, rest[i].subpath)
                 && forall j :: 0 <= j < i ==> !Within(subpath, rest[j].subpath);
        assert ps[i + 1] == p;
        assert forall j :: 0 <= j < i + 1 ==> !Within(subpath, ps[j].subpath);
      }
    }
  }

  /** Slashes at the end of a path, and anything behind a question mark, do not change its route. */
  lemma QueryIsIgnored(order: seq<Descriptor>, q: string, slashes: string, query: string)
    requires (forall i :: 0 <= i < |q| ==> q[i] != '?') && (forall i :: 0 <= i < |slashes| ==> slashes[i] == '/')
    requires q != "" && q[|q| - 1] != '/'
    ensures RoutedPath(q) == q && RoutedPath(q + slashes) == q && RoutedPath(q + slashes + "?" + query) == q
    ensures Routed(order, q + slashes) == Routed(order, q) && Routed(order, q + slashes + "?" + query) == Routed(order, q)
  {
    var long := q + slashes + "?" + query;
    assert forall i :: 0 <= i < |q + slashes| ==> (q + slashes)[i] != '?' && long[i] == (q + slashes)[i];
    assert long[|q + slashes|] == '?';
    assert FindChar(long, '?', 0) == Some(|q + slashes|) && long[..|q + slashes|] == q + slashes;
    assert FindChar(q + slashes, '?', 0) == None;
    CopiesAreTrimmed(q, slashes, '/');
    CopiesAreTrimmed(q, "", '/');
    assert q + "" == q;
    hide RoutedPath, Scan, Claims;
    SameScanSameRoute(order, order, q);
  }

  /** Two modules share a prefix they can both be reached under. */
  ghost predicate SharedPrefix(a: Descriptor, b: Descriptor, prefix: string) {
    a != b && prefix != "" && prefix in Prefixes(a) && prefix in Prefixes(b)
  }

  lemma {:induction false} ClaimOfModule(desc: Descriptor, prefixes: seq<string>, c: Claim)
    ensures c in ClaimsOf(desc, prefixes) <==> c.desc == desc && c.prefix in prefixes
    decreases |prefixes|
  {
    if prefixes != [] {
      ClaimOfModule(desc, prefixes[1..], c);
    }
  }

  lemma {:induction false} ClaimIsInOrder(order: seq<Descriptor>, c: Claim)
    ensures c in Claims(order) <==> c.desc in order && c.prefix in Prefixes(c.desc)
    decreases |order|
  {
    hide Prefixes;
    if order != [] {
      ClaimOfModule(order[0], Prefixes(order[0]), c);
      ClaimIsInOrder(order[1..], c);
    }
  }

  predicate SameModules(a: seq<Descriptor>, b: seq<Descriptor>) {
    (forall d :: d in a ==> d in b) && (forall d :: d in b ==> d in a)
  }

  lemma SameModulesSameClaims(a: seq<Descriptor>, b: seq<Descriptor>)
    requires SameModules(a, b)
    ensures forall c :: c in Claims(a) <==> c in Claims(b)
  {
    forall c
      ensures c in Claims(a) <==> c in Claims(b)
    {
      ClaimIsInOrder(a, c);
      ClaimIsInOrder(b, c);
    }
  }

  /** Without a shared prefix the answer does not depend on the iteration order of the map. */
  lemma OrderDoesNotMatter(a: seq<Descriptor>, b: seq<Descriptor>, path: string)
    requires SameModules(a, b)
    requires forall d, e, p :: d in a && e in a ==> !SharedPrefix(d, e, p)
    ensures Scan(Claims(a), path, None) == Scan(Claims(b), path, None)
  {
    hide Scan, Claims, Prefixes, SameModules;
    ScanFindsLongest(Claims(a), path);
    ScanFindsLongest(Claims(b), path);
    SameModulesSameClaims(a, b);
    var x, y := Scan(Claims(a), path, None), Scan(Claims(b), path, None);
    if x.Some? && y.Some? {
      LongestAreEqual(path, x.value, y.value);
      ClaimIsInOrder(a, x.value);
      ClaimIsInOrder(a, y.value);
      assert !SharedPrefix(x.value.desc, y.value.desc, x.value.prefix);
    }
  }

  lemma LongestAreEqual(path: string, x: Claim, y: Claim)
    requires Beats(x, path, 0) && Beats(y, path, 0) && !Beats(x, path, |y.prefix|) && !Beats(y, path, |x.prefix|)
    ensures x.prefix == y.prefix && x.prefix != ""
  {
    PrefixesCompare(path, x.prefix, y.prefix);
  }

  /** A claim on the whole path wins when its module comes first. */
  lemma FirstModuleWins(order: seq<Descriptor>, prefix: string)
    requires order != [] && prefix != "" && prefix in Prefixes(order[0])
    ensures Scan(Claims(order), prefix, None) == Some(Claim(order[0], prefix))
  {
    hide Prefixes;
    var first, rest := ClaimsOf(order[0], Prefixes(order[0])), Claims(order[1..]);
    ScanConcat(first, rest, prefix, None);
    ScanFindsLongest(first, prefix);
    var c := Claim(order[0], prefix);
    ClaimOfModule(order[0], Prefixes(order[0]), c);
    assert Beats(c, prefix, 0);
    var b := Scan(first, prefix, None).value;
    LongestAreEqual(prefix, b, c);
    ClaimOfModule(order[0], Prefixes(order[0]), b);
    assert b == c;
    NothingBeatsTheWhole(rest, prefix, c);
  }

  lemma {:induction false} NothingBeatsTheWhole(claims: seq<Claim>, path: string, best: Claim)
    requires best.prefix == path
    ensures Scan(claims, path, Some(best)) == Some(best)
    decreases |claims|
  {
    if claims != [] {
      assert !Beats(claims[0], path, |path|);
      NothingBeatsTheWhole(claims[1..], path, best);
    }
  }

  // ---------------------------------------------------------------- registries

  ghost predicate AllSound(reg: Reg) {
    forall id :: id in reg.manifests ==> Sound(reg.manifests[id].namespace)
  }

  lemma {:induction false} HistoryIsSound(ops: seq<Op>)
    requires AllInstall(ops, Guarded)
    ensures AllSound(After(ops))
    decreases |ops|
  {
    hide Step, Trim, Sound, Guarded, Installed;
    if ops != [] {
      var front := ops[..|ops| - 1];
      HistoryIsSound(front);
      HistoryKeepsWf(front);
      StepBrings(After(front), ops[|ops| - 1]);
      assert Installs(ops[|ops| - 1], Guarded);
      HistoryKeepsWf(ops);
      forall id | id in After(ops).manifests
        ensures Sound(After(ops).manifests[id].namespace)
      {
        if Guarded(After(ops).manifests[id].namespace) {
          InstalledIsSound(id, After(ops).manifests[id], After(ops).modules[id]);
        }
      }
    }
  }

  /** A free namespace is clear of every alias of the built-in modules, although two of them are
      neither reserved nor built-in prefixes themselves. */
  lemma FreeAvoidsAliases(t: string, p: string)
    requires IsFree(t)
    requires p in ["/ominroute", "/omniroute", "/jev", "/jev-ai", "/muse-ai", "/v1/images/generations", "/video/v1/providers"]
    ensures !Conflict(t, p) && IsStored(p) && p != ""
  {
    hide IsPathPrefix, Conflict;
    assert !HitsReserved(t) && !HitsBuiltin(t);
    assert BUILTIN_PROVIDER_PREFIXES[0] == "/ominroute" && BUILTIN_PROVIDER_PREFIXES[1] == "/omniroute"
        && BUILTIN_PROVIDER_PREFIXES[2] == "/muse-ai" && BUILTIN_PROVIDER_PREFIXES[4] == "/jev"
        && BUILTIN_PROVIDER_PREFIXES[5] == "/jev-ai";
    assert RESERVED_PREFIXES[15] == "/v1" && RESERVED_PREFIXES[14] == "/video";
    assert !Conflict(t, RESERVED_PREFIXES[15]) && !Conflict(t, RESERVED_PREFIXES[14]);
    if p == "/v1/images/generations" && Conflict(t, p) {
      assert "/v1" + "/" <= p;
      ConflictGoesUp(t, p, "/v1");
    }
    if p == "/video/v1/providers" && Conflict(t, p) {
      assert "/video" + "/" <= p;
      ConflictGoesUp(t, p, "/video");
    }
  }

  /** Personal against built-in. */
  lemma PersonalAvoidsBuiltin(reg: Reg, id: string, p: string)
    requires Wf(reg) && AllSound(reg) && id in reg.manifests
    requires p in ["/ominroute", "/omniroute", "/jev", "/jev-ai", "/muse-ai", "/v1/images/generations", "/video/v1/providers"]
    ensures !Conflict(reg.modules[id].namespace, p)
  {
    hide Conflict, IsFree, Checked, Clean, IsStored, ProtocolOk, GroupOk;
    assert Installed(id, reg.manifests[id], reg.modules[id]);
    assert Sound(reg.manifests[id].namespace);
    var ns := reg.modules[id].namespace;
    FreeAvoidsAliases(Checked(ns), p);
    CleanIsStored(reg.manifests[id].namespace);
    FreeIsNotEmpty(Checked(ns));
    CheckProtectsStored(ns, p);
  }

  lemma FreeIsNotEmpty(t: string)
    requires IsFree(t)
    ensures t != ""
  {
  }

  /** Built-in against built-in. */
  lemma BuiltinAliasesAreApart(p: string, q: string)
    requires
      || (p in ["/ominroute", "/omniroute"] && q in ["/jev", "/jev-ai", "/muse-ai", "/v1/images/generations", "/video/v1/providers"])
      || (p in ["/jev", "/jev-ai"] && q in ["/muse-ai", "/v1/images/generations", "/video/v1/providers"])
    ensures !Conflict(p, q) && !Conflict(q, p)
  {
    assert p[1] != q[1] && |p| >= 2 && |q| >= 2;
  }

  ghost predicate AllPrefixesApart(a: Descriptor, b: Descriptor) {
    forall p, q :: p in Prefixes(a) && q in Prefixes(b) ==> !Conflict(p, q)
  }

  /** No alias of a module of the two families clashes with a prefix of another module. */
  ghost predicate AliasesClear(modules: Modules) {
    forall a, b, p, q :: a in modules && b in modules && a != b && p in FixedAliases(a) && q in Prefixes(modules[b])
                         ==> !Conflict(p, q)
  }

  /** Then no prefix of a module is, or lies in front of, a prefix of another module. */
  lemma PrefixesAreApart(reg: Reg, a: string, b: string)
    requires Wf(reg) && AllSound(reg) && Disjoint(reg.modules) && AliasesClear(reg.modules)
    requires a in reg.modules && b in reg.modules && a != b
    ensures AllPrefixesApart(reg.modules[a], reg.modules[b])
  {
    hide Conflict, Installed, Sound, FixedAliases;
    forall p, q | p in Prefixes(reg.modules[a]) && q in Prefixes(reg.modules[b])
      ensures !Conflict(p, q)
    {
      if IsBuiltinId(a) && IsBuiltinId(b) {
        if (a == "omniroute") || (a == "jev" && b == "muse") {
          BuiltinAliasesAreApart(p, q);
        } else {
          BuiltinAliasesAreApart(q, p);
        }
      } else if p in FixedAliases(a) || q in FixedAliases(b) {
        ConflictSymmetric(p, q);
      } else if IsBuiltinId(a) {
        PersonalAvoidsBuiltin(reg, b, p);
        ConflictSymmetric(p, q);
      } else if IsBuiltinId(b) {
        PersonalAvoidsBuiltin(reg, a, q);
      }
    }
  }

  lemma PrefixIsNotEmpty(reg: Reg, id: string, p: string)
    requires Wf(reg) && id in reg.modules && p in Prefixes(reg.modules[id])
    ensures p != ""
  {
    hide Installed;
    StoredEverywhere(reg, id);
  }

  // ---------------------------------------------------------------- one owner

  /** Every path belongs to at most one module. */
  ghost predicate OneOwner(modules: Modules) {
    forall a, b, path, p, q :: a in modules && b in modules && Reaches(modules[a], p, path) && Reaches(modules[b], q, path)
                               ==> a == b
  }

  /** After any history of guarded namespaces, paths have one owner exactly as long as the aliases of
      the two families stay clear of the other modules. */
  lemma OwnershipExactly(ops: seq<Op>)
    requires AllInstall(ops, Guarded)
    ensures OneOwner(After(ops).modules) <==> AliasesClear(After(ops).modules)
  {
    hide After, Prefixes, FixedAliases, Wf, AllSound, Disjoint, Guarded;
    var reg := After(ops);
    HistoryKeepsWf(ops);
    HistoryIsSound(ops);
    NamespacesStayDisjoint(ops);
    if AliasesClear(reg.modules) {
      forall a, b, path, p, q | a in reg.modules && b in reg.modules && Reaches(reg.modules[a], p, path) && Reaches(reg.modules[b], q, path)
        ensures a == b
      {
        if a != b {
          PrefixesAreApart(reg, a, b);
          PrefixesCompare(path, p, q);
        }
      }
    }
    if OneOwner(reg.modules) {
      forall a, b, p, q | a in reg.modules && b in reg.modules && a != b && p in FixedAliases(a) && q in Prefixes(reg.modules[b])
        ensures !Conflict(p, q)
      {
        AliasIsPrefix(reg, a, p);
        PrefixIsNotEmpty(reg, a, p);
        PrefixIsNotEmpty(reg, b, q);
        assert !(Reaches(reg.modules[a], p, p) && Reaches(reg.modules[b], q, p));
        assert !(Reaches(reg.modules[a], p, q) && Reaches(reg.modules[b], q, q));
      }
    }
  }

  lemma AliasIsPrefix(reg: Reg, id: string, p: string)
    requires Wf(reg) && id in reg.modules && p in FixedAliases(id)
    ensures p in Prefixes(reg.modules[id])
  {
    hide Installed;
  }

  predicate InstallsNoAlias(op: Op) {
    match op
    case Register(m) => FixedAliases(Trim(m.id)) == []
    case Upgrade(m) => FixedAliases(Trim(m.id)) == []
    case _ => true
  }

  /** In particular without modules of the two families. */
  lemma {:induction false} HistoryWithoutAliases(ops: seq<Op>)
    requires forall i :: 0 <= i < |ops| ==> InstallsNoAlias(ops[i])
    ensures forall id :: id in After(ops).modules ==> FixedAliases(id) == []
    ensures AliasesClear(After(ops).modules)
    decreases |ops|
  {
    hide Step, Trim, Wf, Conflict, Prefixes;
    if ops != [] {
      var front := ops[..|ops| - 1];
      HistoryWithoutAliases(front);
      HistoryKeepsWf(front);
      StepBrings(After(front), ops[|ops| - 1]);
      assert InstallsNoAlias(ops[|ops| - 1]);
    }
  }

  // ---------------------------------------------------------------- one answer

  /** An order in which a hash map can yield its values. */
  predicate Enumerates(order: seq<Descriptor>, modules: Modules) {
    && (forall d :: d in order ==> d.id in modules && modules[d.id] == d)
    && (forall id :: id in modules ==> modules[id] in order)
    && (forall i, j :: 0 <= i < j < |order| ==> order[i] != order[j])
  }

  ghost predicate NothingShared(modules: Modules) {
    forall a, b, p :: a in modules && b in modules ==> !SharedPrefix(modules[a], modules[b], p)
  }

  ghost predicate OneAnswer(modules: Modules) {
    forall x, y, path :: Enumerates(x, modules) && Enumerates(y, modules) ==> Routed(x, path) == Routed(y, path)
  }

  lemma SameScanSameRoute(x: seq<Descriptor>, y: seq<Descriptor>, path: string)
    requires Scan(Claims(x), RoutedPath(path), None) == Scan(Claims(y), RoutedPath(path), None)
    ensures Routed(x, path) == Routed(y, path)
  {
    hide Scan, Claims, RoutedPath, Prefixes, Within, FindProvider;
  }

  lemma NothingSharedMeansOneAnswer(modules: Modules)
    requires NothingShared(modules)
    ensures OneAnswer(modules)
  {
    hide Scan, Claims, RoutedPath, Routed, SharedPrefix;
    forall x, y, path | Enumerates(x, modules) && Enumerates(y, modules)
      ensures Routed(x, path) == Routed(y, path)
    {
      forall d, e, p | d in x && e in x
        ensures !SharedPrefix(d, e, p)
      {
        assert !SharedPrefix(modules[d.id], modules[e.id], p);
      }
      OrderDoesNotMatter(x, y, RoutedPath(path));
      SameScanSameRoute(x, y, path);
    }
  }

  lemma {:induction false} ListOf(ids: set<string>) returns (list: seq<string>)
    ensures forall id :: id in list <==> id in ids
    ensures forall i, j :: 0 <= i < j < |list| ==> list[i] != list[j]
    decreases |ids|
  {
    if ids == {} {
      list := [];
    } else {
      var id :| id in ids;
      list := ListOf(ids - {id});
      list := [id] + list;
    }
  }

  /** `rest` has every module but two, once. */
  predicate EnumeratesOthers(rest: seq<Descriptor>, modules: Modules, a: string, b: string) {
    && (forall d :: d in rest ==> d.id in modules && modules[d.id] == d && d.id != a && d.id != b)
    && (forall id :: id in modules && id != a && id != b ==> modules[id] in rest)
    && (forall i, j :: 0 <= i < j < |rest| ==> rest[i] != rest[j])
  }

  lemma Others(modules: Modules, a: string, b: string) returns (rest: seq<Descriptor>)
    requires forall id :: id in modules ==> modules[id].id == id
    ensures EnumeratesOthers(rest, modules, a, b)
  {
    var list := ListOf(modules.Keys - {a, b});
    assert forall i :: 0 <= i < |list| ==> list[i] in list;
    rest := seq(|list|, i requires 0 <= i < |list| => modules[list[i]]);
    forall id | id in modules && id != a && id != b
      ensures modules[id] in rest
    {
      assert id in list;
      var i :| 0 <= i < |list| && list[i] == id;
      assert rest[i] == modules[id];
    }
  }

  /** Any two modules can come first. */
  lemma TwoFirst(modules: Modules, a: string, b: string, rest: seq<Descriptor>)
    requires a in modules && b in modules && a != b && modules[a].id == a && modules[b].id == b
    requires EnumeratesOthers(rest, modules, a, b)
    ensures Enumerates([modules[a], modules[b]] + rest, modules)
  {
    var order := [modules[a], modules[b]] + rest;
    assert order[0] == modules[a] && order[1] == modules[b] && order[2..] == rest;
    assert forall d :: d in order <==> d == modules[a] || d == modules[b] || d in rest;
  }

  /** On a path that is a shared prefix the module that comes first wins. */
  lemma FirstIsRouted(order: seq<Descriptor>, prefix: string)
    requires order != [] && prefix != "" && prefix in Prefixes(order[0]) && RoutedPath(prefix) == prefix
    ensures Routed(order, prefix).Some? && Routed(order, prefix).value.desc == order[0]
  {
    hide Scan, Claims, RoutedPath, Prefixes, FindProvider;
    FirstModuleWins(order, prefix);
  }

  lemma PlainPathIsRouted(p: string)
    requires p != "" && p[|p| - 1] != '/' && forall i :: 0 <= i < |p| ==> p[i] != '?'
    ensures RoutedPath(p) == p
  {
  }

  lemma NamespaceHasNoQuery(reg: Reg, id: string)
    requires Wf(reg) && id in reg.manifests
    ensures var ns := reg.modules[id].namespace;
            ns != "" && ns[|ns| - 1] != '/' && forall i :: 0 <= i < |ns| ==> ns[i] != '?'
  {
    hide Checked, Clean, Trim, HitsReserved, HitsBuiltin, ProtocolOk, GroupOk, WhitespaceLen;
    var ns := reg.modules[id].namespace;
    assert Installed(id, reg.manifests[id], reg.modules[id]);
    StoredEverywhere(reg, id);
    CheckedIsPrefix(ns);
    assert forall i :: 0 <= i < |Checked(ns)| ==> Checked(ns)[i] == ns[i];
  }

  lemma FixedPrefixIsRouted(p: string)
    requires p in ["/ominroute", "/omniroute", "/jev", "/jev-ai", "/muse-ai", "/v1/images/generations", "/video/v1/providers",
                   "/custom/tiktok", "/tiktok", "/custom/facebook", "/facebook"]
    ensures RoutedPath(p) == p
  {
    hide RoutedPath;
    PlainPathIsRouted(p);
  }

  lemma PrefixIsRouted(reg: Reg, id: string, p: string)
    requires Wf(reg) && id in reg.modules && p in Prefixes(reg.modules[id])
    ensures RoutedPath(p) == p
  {
    hide RoutedPath, Installed;
    if id in reg.manifests && p == reg.modules[id].namespace {
      NamespaceHasNoQuery(reg, id);
      PlainPathIsRouted(p);
    } else {
      FixedPrefixIsRouted(p);
    }
  }

  /** Routing after any history whatsoever: the answer is the same for every path and every iteration
      order of the map if and only if no two modules share a prefix. */
  lemma RoutingIsDeterministicExactly(ops: seq<Op>)
    ensures OneAnswer(After(ops).modules) <==> NothingShared(After(ops).modules)
  {
    hide After, Routed, Prefixes, RoutedPath, Installed;
    var modules := After(ops).modules;
    HistoryKeepsWf(ops);
    if NothingShared(modules) {
      NothingSharedMeansOneAnswer(modules);
    } else {
      var a, b, p :| a in modules && b in modules && SharedPrefix(modules[a], modules[b], p);
      SharedPrefixShows(ops, a, b, p);
    }
  }

  lemma SharedPrefixShows(ops: seq<Op>, a: string, b: string, p: string)
    requires a in After(ops).modules && b in After(ops).modules
    requires SharedPrefix(After(ops).modules[a], After(ops).modules[b], p)
    ensures exists x, y :: Enumerates(x, After(ops).modules) && Enumerates(y, After(ops).modules) && Routed(x, p) != Routed(y, p)
  {
    hide After, Routed, Prefixes, RoutedPath, Installed;
    var modules := After(ops).modules;
    HistoryKeepsWf(ops);
    PrefixIsRouted(After(ops), a, p);
    var rest := Others(modules, a, b);
    TwoFirst(modules, a, b, rest);
    TwoFirst(modules, b, a, rest);
    FirstIsRouted([modules[a], modules[b]] + rest, p);
    FirstIsRouted([modules[b], modules[a]] + rest, p);
  }

  /** Disjoint prefixes are not shared: the condition holds for guarded namespaces and clear aliases. */
  lemma OneOwnerMeansOneAnswer(ops: seq<Op>)
    requires OneOwner(After(ops).modules)
    ensures OneAnswer(After(ops).modules)
  {
    hide After, Routed, Prefixes, RoutedPath, Enumerates;
    var modules := After(ops).modules;
    forall a, b, p | a in modules && b in modules
      ensures !SharedPrefix(modules[a], modules[b], p)
    {
      assert SharedPrefix(modules[a], modules[b], p) ==> Reaches(modules[a], p, p) && Reaches(modules[b], p, p);
    }
    NothingSharedMeansOneAnswer(modules);
  }

  // ---------------------------------------------------------------- who is routed to

  /** Where paths have one owner, a path goes to the module one of whose prefixes contains it. */
  lemma OwnerIsRouted(modules: Modules, order: seq<Descriptor>, id: string, prefix: string, path: string)
    requires OneOwner(modules) && Enumerates(order, modules)
    requires id in modules && Reaches(modules[id], prefix, RoutedPath(path))
    ensures Routed(order, path).Some? && Routed(order, path).value.desc == modules[id]
  {
    hide Routed, Prefixes, RoutedPath;
    RouteIsLongest(order, path);
    var t := RoutedPath(path);
    assert modules[id] in order;
    if Routed(order, path).Some? {
      var route := Routed(order, path).value;
      var p := t[..|t| - |route.subpath|];
      assert Reaches(route.desc, p, t) && route.desc.id in modules && modules[route.desc.id] == route.desc;
    }
  }

  /** The paths of the built-in modules. */
  predicate IsBuiltinPrefix(id: string, prefix: string) {
    || (id == "omniroute" && prefix in {"/ominroute", "/omniroute"})
    || (id == "jev" && prefix in {"/jev", "/jev-ai"})
    || (id == "muse" && prefix in {"/muse-ai", "/v1/images/generations", "/video/v1/providers"})
  }

  /** They reach their modules in every registry with one owner for each path. */
  lemma BuiltinIsRouted(ops: seq<Op>, order: seq<Descriptor>, id: string, prefix: string, path: string)
    requires OneOwner(After(ops).modules) && Enumerates(order, After(ops).modules)
    requires IsBuiltinPrefix(id, prefix) && Within(RoutedPath(path), prefix)
    ensures Routed(order, path).Some? && Routed(order, path).value.desc.id == id
  {
    BuiltinReaches(ops, id, prefix);
    hide Routed, Prefixes, RoutedPath, After, OneOwner, Enumerates, IsBuiltinPrefix;
    OwnerIsRouted(After(ops).modules, order, id, prefix, path);
  }

  lemma BuiltinReaches(ops: seq<Op>, id: string, prefix: string)
    requires IsBuiltinPrefix(id, prefix)
    ensures id in After(ops).modules && After(ops).modules[id].id == id && prefix in Prefixes(After(ops).modules[id]) && prefix != ""
  {
    hide After, Installed;
    HistoryKeepsWf(ops);
  }

  /** A personal module is reached under its namespace. */
  lemma NamespaceReaches(ops: seq<Op>, id: string)
    requires id in After(ops).modules && !IsBuiltinId(id)
    ensures var desc := After(ops).modules[id]; desc.namespace != "" && desc.namespace in Prefixes(desc)
  {
    hide After, Installed;
    HistoryKeepsWf(ops);
    StoredEverywhere(After(ops), id);
  }

  /** The modules of the two families are reached under their aliases as well. */
  lemma FamilyReaches(ops: seq<Op>, id: string, prefix: string)
    requires id in After(ops).modules
    requires
      || (id in {"tiktok-studio", "TikTok-Creator-Studio-Adapter"} && prefix in {"/custom/tiktok", "/tiktok"})
      || (id in {"facebook-suite", "Facebook-Suite"} && prefix in {"/custom/facebook", "/facebook"})
    ensures prefix in Prefixes(After(ops).modules[id]) && prefix != ""
  {
    hide After, Installed;
    HistoryKeepsWf(ops);
  }

  /** No path goes to a module that is not installed. */
  lemma GoneIsNotRouted(ops: seq<Op>, id: string, order: seq<Descriptor>, path: string)
    requires id !in After(ops).modules && Enumerates(order, After(ops).modules)
    ensures Routed(order, path).Some? ==> Routed(order, path).value.desc.id != id
  {
    hide After, Routed, Prefixes, RoutedPath;
    RouteIsLongest(order, path);
  }

  const TAKEN: seq<Op> := [Register(Plain("tiktok-studio", "/tt")), Register(Plain("other", "/tiktok"))]

  /** Two plain modules with namespaces that are free and do not clash both register. */
  lemma PlainPairRegisters(a: string, nsA: string, b: string, nsB: string)
    requires IsId(a) && IsId(b) && a != b && !IsBuiltinId(a) && !IsBuiltinId(b)
    requires IsFree(nsA) && IsFree(nsB) && nsA[|nsA| - 1] != '/' && nsB[|nsB| - 1] != '/' && !Conflict(nsB, nsA)
    ensures var modules := After([Register(Plain(a, nsA)), Register(Plain(b, nsB))]).modules;
            && a in modules && b in modules && modules[a].namespace == nsA && modules[b].namespace == nsB
            && modules[a].id == a && modules[b].id == b
  {
    var ops := [Register(Plain(a, nsA)), Register(Plain(b, nsB))];
    PlainNamespaceIsKept(nsA);
    PlainNamespaceIsKept(nsB);
    hide After, Registered, IsFree, Clean, Checked, Trim, IsId, Conflict, Collides, TrimEndMatches, Installed;
    FreshHasBuiltins(a);
    FreshHasBuiltins(b);
    FreshDoesNotCollide(nsA, a);
    PlainRegisters(FRESH, a, nsA);
    var one := Registered(FRESH, Plain(a, nsA)).value;
    FreshDoesNotCollide(nsB, b);
    CleanIsStored(nsA);
    NoSlashToTrim(nsA);
    StillClear(nsB, b, FRESH.modules, a, one.modules[a]);
    PlainRegisters(one, b, nsB);
    AfterTwo(ops[0], ops[1]);
    HistoryKeepsWf(ops);
  }

  lemma BothRegister()
    ensures var modules := After(TAKEN).modules;
            && "tiktok-studio" in modules && "other" in modules
            && modules["tiktok-studio"].id == "tiktok-studio"
            && modules["other"].id == "other" && modules["other"].namespace == "/tiktok"
  {
    hide After, IsFree, Conflict;
    InitialTIsFree("/tt");
    InitialTIsFree("/tiktok");
    DifferBehind("/tiktok", "/tt");
    PlainPairRegisters("tiktok-studio", "/tt", "other", "/tiktok");
  }

  /** The condition can fail: the fixed alias of one module is an ordinary namespace for another, both
      register, and the path of the alias is routed to either. */
  lemma AliasCanBeTaken()
    ensures AllInstall(TAKEN, Guarded)
    ensures var modules := After(TAKEN).modules;
            exists x, y :: Enumerates(x, modules) && Enumerates(y, modules) && Routed(x, "/tiktok") != Routed(y, "/tiktok")
  {
    hide After, Routed, Enumerates, Clean, Checked, IsFree;
    PlainNamespaceIsKept("/tt");
    PlainNamespaceIsKept("/tiktok");
    BothRegister();
    SharedPrefixShows(TAKEN, "tiktok-studio", "other", "/tiktok");
  }

  lemma StillClear(t: string, id: string, modules: Modules, key: string, desc: Descriptor)
    requires !Collides(t, id, modules) && !Conflict(t, TrimEndMatches(desc.namespace, '/'))
    ensures !Collides(t, id, modules[key := desc])
  {
    hide Conflict;
  }

  lemma DifferBehind(a: string, b: string)
    requires |a| >= 3 && |b| >= 3 && a[2] != b[2]
    ensures !Conflict(a, b)
  {
  }
}
