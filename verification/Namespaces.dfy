/** Module namespaces: URL prefixes, their cleaning and the checks a new one must pass. */
module Namespaces {
  import opened Bytes

  // ---------------------------------------------------------------- paths and prefixes

  /** `path` is `prefix` or continues it with a new segment. */
  predicate Within(path: string, prefix: string) {
    path == prefix || prefix + "/" <= path
  }

  predicate Conflict(a: string, b: string) {
    Within(a, b) || Within(b, a)
  }

  lemma WithinTransitive(a: string, b: string, c: string)
    requires Within(a, b) && Within(b, c)
    ensures Within(a, c)
  {
    if a != b && b != c {
      assert (c + "/")[..|c| + 1] == b[..|c| + 1] == a[..|c| + 1];
    }
  }

  /** Two prefixes of one path are prefixes of each other. */
  lemma PrefixesCompare(path: string, a: string, b: string)
    requires Within(path, a) && Within(path, b)
    ensures Conflict(a, b)
    ensures |a| == |b| ==> a == b
  {
    assert a <= path && b <= path;
    if |a| < |b| {
      assert path[|a|] == '/';
      assert b[..|a| + 1] == path[..|a| + 1] == a + "/";
    } else if |b| < |a| {
      assert path[|b|] == '/';
      assert a[..|b| + 1] == path[..|b| + 1] == b + "/";
    } else {
      assert a == path[..|a|] == b;
    }
  }

  /** What clashes with a path clashes with everything above the path. */
  lemma ConflictGoesUp(a: string, p: string, r: string)
    requires Conflict(a, p) && Within(p, r)
    ensures Conflict(a, r)
  {
    if Within(a, p) {
      WithinTransitive(a, p, r);
    } else {
      PrefixesCompare(p, a, r);
    }
  }

  // ---------------------------------------------------------------- checks

  const RESERVED_PREFIXES: seq<string> := [
    "/", "/api", "/dashboard", "/home", "/assets", "/mcp", "/sse", "/health", "/status", "/metrics",
    "/favicon.ico", "/sw.js", "/manifest.webmanifest", "/robots.txt", "/video", "/v1", "/muse-config",
    "/gateway", "/gateway-config", "/gateway-ui", "/video-template", "/image-template"]

  const BUILTIN_PROVIDER_PREFIXES: seq<string> := [
    "/ominroute", "/omniroute", "/muse-ai", "/muse", "/jev", "/jev-ai"]

  /** The namespace a descriptor stores. */
  function Clean(raw: string): string {
    TrimEndMatches(Trim(raw), '/')
  }

  /** The text the checks look at: the stored namespace trimmed once more. */
  function Checked(ns: string): string {
    TrimEndMatches(Trim(ns), '/')
  }

  predicate IsIdChar(c: char) {
    IsAlphanumeric(c) || c == '-' || c == '_'
  }

  predicate IsId(id: string) {
    id != "" && forall i :: 0 <= i < |id| ==> IsIdChar(id[i])
  }

  /** A leading slash, no empty segment and only plain characters. */
  predicate IsPathPrefix(t: string) {
    && |t| >= 2 && t[0] == '/'
    && (forall i :: 0 <= i < |t| - 1 ==> !(t[i] == '/' && t[i + 1] == '/'))
    && (forall i :: 0 <= i < |t| ==> IsIdChar(t[i]) || t[i] == '/' || t[i] == '.')
  }

  predicate HitsReserved(t: string) {
    exists i :: 0 <= i < |RESERVED_PREFIXES| &&
      var r := RESERVED_PREFIXES[i]; if r == "/" then t == "/" else Conflict(t, r)
  }

  predicate HitsBuiltin(t: string) {
    exists i :: 0 <= i < |BUILTIN_PROVIDER_PREFIXES| && Conflict(t, BUILTIN_PROVIDER_PREFIXES[i])
  }

  /** The checks that do not depend on the other modules. */
  predicate IsFree(t: string) {
    IsPathPrefix(t) && !HitsReserved(t) && !HitsBuiltin(t)
  }

  /** The form of a namespace in plain words. */
  lemma PathPrefixIs(t: string)
    ensures IsPathPrefix(t)
            <==> (exists c, more :: t == "/" + [c] + more) && (forall a, b :: t != a + "//" + b)
                 && forall i :: 0 <= i < |t| ==> IsAlphanumeric(t[i]) || t[i] in "-_./"
  {
    if |t| >= 2 && t[0] == '/' {
      assert t == "/" + [t[1]] + t[2..];
    }
    if i :| 0 <= i < |t| - 1 && t[i] == '/' && t[i + 1] == '/' {
      assert t == t[..i] + "//" + t[i + 2..];
    }
    forall a, b
      ensures t == a + "//" + b ==> |a| < |t| - 1 && t[|a|] == '/' && t[|a| + 1] == '/'
    {
    }
  }

  // ---------------------------------------------------------------- blanks behind a namespace

  /** The check sees the namespace as it is stored. */
  predicate WellTrimmed(raw: string) {
    Checked(Clean(raw)) == Clean(raw)
  }

  /** What the check cuts off, if anything, starts with a slash. */
  predicate Sound(raw: string) {
    var ns := Clean(raw);
    var t := Checked(ns);
    ns == t || (|ns| > |t| && ns[|t|] == '/')
  }

  /** The checks refuse the namespace by itself, or protect what is stored for it. */
  predicate Guarded(raw: string) {
    IsFree(Checked(Clean(raw))) ==> Sound(raw)
  }

  /** The checks refuse the namespace by itself, or see it as it is stored. */
  predicate Restorable(raw: string) {
    IsFree(Checked(Clean(raw))) ==> WellTrimmed(raw)
  }

  /** What `Clean` can return: no blank in front, no slash behind. */
  predicate IsStored(ns: string) {
    ns != "" ==> WhitespaceLen(ns, 0) == 0 && ns[|ns| - 1] != '/'
  }

  /** Blanks around a namespace and slashes behind it are cut off. */
  lemma CleanAround(front: string, t: string, slashes: string, back: string)
    requires AllBlank(front) && AllBlank(back) && forall i :: 0 <= i < |slashes| ==> slashes[i] == '/'
    requires t != "" && IsInk(t[0]) && IsInk(t[|t| - 1]) && t[|t| - 1] != '/'
    ensures Clean(front + (t + slashes) + back) == t
  {
    var core := t + slashes;
    assert core[0] == t[0] && core[|core| - 1] == if slashes == "" then t[|t| - 1] else '/';
    TrimAround(front, core, back);
    CopiesAreTrimmed(t, slashes, '/');
  }

  lemma BlankInPrefix(s: string, n: nat)
    requires 0 < n <= |s| && WhitespaceLen(s, 0) == 0
    ensures WhitespaceLen(s[..n], 0) == 0
  {
  }

  lemma CleanIsStored(raw: string)
    ensures IsStored(Clean(raw))
  {
    hide WhitespaceLen, TrimEnd;
    var k := SkipWhitespace(raw, 0);
    if Clean(raw) != "" {
      assert WhitespaceLen(raw[k..], 0) == 0 by { BlankInSuffix(raw, k); }
      BlankInPrefix(raw[k..], |Clean(raw)|);
      assert Clean(raw) == raw[k..][..|Clean(raw)|];
    }
  }

  lemma BlankInSuffix(s: string, k: nat)
    requires k < |s|
    ensures WhitespaceLen(s[k..], 0) == WhitespaceLen(s, k)
  {
  }

  /** The checked text is the stored one without slashes, then blanks, at its end. */
  lemma CheckedIsPrefix(ns: string)
    requires IsStored(ns)
    ensures Checked(ns) <= ns
    ensures var t, m := Checked(ns), |Trim(ns)|;
            && |t| <= m <= |ns|
            && (forall i :: |t| <= i < m ==> ns[i] == '/')
            && (forall i :: m <= i < |ns| ==> ns[i] as int <= 32 || ns[i] as int >= 0x80)
            && (m < |ns| || ns == t)
            && (t != "" ==> t[|t| - 1] != '/')
  {
    hide TrimEnd, WhitespaceLen;
    assert ns[0..] == ns;
    assert SkipWhitespace(ns, 0) == 0;
  }

  /** A check passed for the checked text holds for the stored one as long as what was cut off
      starts with a slash. */
  lemma CheckProtectsStored(ns: string, other: string)
    requires IsStored(ns) && IsStored(other) && Checked(ns) != "" && other != ""
    requires ns == Checked(ns) || (|ns| > |Checked(ns)| && ns[|Checked(ns)|] == '/')
    requires !Conflict(Checked(ns), other)
    ensures !Conflict(ns, other)
  {
    hide Checked, Trim;
    CheckedIsPrefix(ns);
    var t := Checked(ns);
    assert Within(ns, t);
    if Within(other, ns) {
      WithinTransitive(other, ns, t);
    } else if Within(ns, other) {
      PrefixesCompare(ns, t, other);
    }
  }

  /** Otherwise the check does not even see a second module with the very same namespace. */
  lemma UnsoundIsNotProtected(raw: string)
    requires !Sound(raw)
    ensures !Conflict(Checked(Clean(raw)), Clean(raw))
  {
    hide Checked, Clean;
    CleanIsStored(raw);
    CheckedIsPrefix(Clean(raw));
  }
}
