/** Which origins are on this machine, in the words of an origin: scheme, host, port and the rest. */
module Origins {
  import opened Bytes
  import opened Registry

  lemma {:induction false} UpToIs(a: string, b: string, stops: string)
    requires forall i :: 0 <= i < |a| ==> a[i] !in stops
    requires b == "" || b[0] in stops
    ensures UpTo(a + b, stops) == a
    decreases |a|
  {
    if a == "" {
      assert a + b == b;
    } else {
      assert (a + b)[1..] == a[1..] + b;
      UpToIs(a[1..], b, stops);
    }
  }

  lemma LowerOfBoth(a: string, b: string)
    ensures Lower(a + b) == Lower(a) + Lower(b)
  {
  }

  /** The characters that end an authority, or a host in it. */
  predicate IsPlainPart(s: string) {
    forall i :: 0 <= i < |s| ==> s[i] !in "/?#@:[]"
  }

  predicate IsScheme(s: string) {
    Lower(s) == "http://" || Lower(s) == "https://"
  }

  /** What may follow a host: a port, and behind it a path, a query or a fragment. */
  predicate IsBehindHost(port: string, rest: string) {
    && (port == "" || (port[0] == ':' && IsPlainPart(port[1..])))
    && (rest == "" || rest[0] in "/?#")
  }

  lemma PlainInLower(s: string)
    requires IsPlainPart(s)
    ensures IsPlainPart(Lower(s))
  {
    forall i | 0 <= i < |s|
      ensures Lower(s)[i] !in "/?#@:[]"
    {
      assert s[i] !in "/?#@:[]";
    }
  }

  /** A host by its name: exactly localhost and 127.0.0.1 are accepted, in any case, with any port. */
  lemma LoopbackByName(scheme: string, host: string, port: string, rest: string)
    requires IsScheme(scheme) && IsPlainPart(host) && IsBehindHost(port, rest)
    ensures IsLoopbackOrigin(scheme + (host + port + rest)) <==> Lower(host) == "localhost" || Lower(host) == "127.0.0.1"
  {
    var h, p, r := Lower(host), Lower(port), Lower(rest);
    LowerOfBoth(scheme, host + port + rest);
    LowerOfBoth(host + port, rest);
    LowerOfBoth(host, port);
    PlainInLower(host);
    SchemeIsCut(scheme, h + p + r);
    AuthorityIs(h, port, rest);
    HostIs(h, port);
  }

  /** The text behind the scheme. */
  lemma SchemeIsCut(scheme: string, rest: string)
    requires IsScheme(scheme)
    ensures var lower := Lower(scheme) + rest;
            && ("http://" <= lower || "https://" <= lower)
            && (if "http://" <= lower then lower[7..] else lower[8..]) == rest
  {
    var lower := Lower(scheme) + rest;
    assert lower[..|scheme|] == Lower(scheme);
    if Lower(scheme) == "https://" {
      assert lower[4] == 's' && "http://"[4] == ':';
    }
  }

  lemma PortInLower(port: string)
    requires port == "" || (port[0] == ':' && IsPlainPart(port[1..]))
    ensures var p := Lower(port);
            && (p == "" || p[0] == ':') && '@' !in p && '[' !in p && forall i :: 0 <= i < |p| ==> p[i] !in "/?#"
  {
    if port != "" {
      PlainInLower(port[1..]);
      assert Lower(port) == [':'] + Lower(port[1..]);
    }
  }

  lemma AuthorityIs(h: string, port: string, rest: string)
    requires IsPlainPart(h) && IsBehindHost(port, rest)
    ensures UpTo(h + Lower(port) + Lower(rest), "/?#") == h + Lower(port)
    ensures '@' !in h + Lower(port)
  {
    PortInLower(port);
    assert rest != "" ==> Lower(rest)[0] == rest[0];
    UpToIs(h + Lower(port), Lower(rest), "/?#");
  }

  lemma HostIs(h: string, port: string)
    requires IsPlainPart(h) && (port == "" || (port[0] == ':' && IsPlainPart(port[1..])))
    ensures UpTo(h + Lower(port), ":") == h && !("[" <= h + Lower(port))
  {
    PortInLower(port);
    UpToIs(h, Lower(port), ":");
  }

  lemma BracketsInLower(host: string, port: string, rest: string)
    requires (forall i :: 0 <= i < |host| ==> host[i] !in "/?#@]") && IsBehindHost(port, rest)
    ensures var h := Lower(host);
            && Lower("[" + host + "]" + port + rest) == "[" + h + "]" + Lower(port) + Lower(rest)
            && forall i :: 0 <= i < |h| ==> h[i] !in "/?#@]"
  {
    LowerOfBoth("[" + host + "]" + port, rest);
    LowerOfBoth("[" + host + "]", port);
    LowerOfBoth("[" + host, "]");
    LowerOfBoth("[", host);
    assert Lower("[") == "[" && Lower("]") == "]";
    forall i | 0 <= i < |host|
      ensures Lower(host)[i] !in "/?#@]"
    {
      assert host[i] !in "/?#@]";
    }
  }

  lemma BracketAuthorityIs(h: string, port: string, rest: string)
    requires (forall i :: 0 <= i < |h| ==> h[i] !in "/?#@]") && IsBehindHost(port, rest)
    ensures var authority := "[" + h + "]" + Lower(port);
            && UpTo(authority + Lower(rest), "/?#") == authority && '@' !in authority
            && "[" <= authority && UpTo(authority[1..], "]") == h
  {
    PortInLower(port);
    var p, r := Lower(port), Lower(rest);
    assert rest != "" ==> r[0] == rest[0];
    UpToIs("[" + h + "]" + p, r, "/?#");
    assert ("[" + h + "]" + p)[1..] == h + ("]" + p);
    UpToIs(h, "]" + p, "]");
  }

  /** A host in brackets. */
  lemma LoopbackInBrackets(scheme: string, host: string, port: string, rest: string)
    requires IsScheme(scheme) && (forall i :: 0 <= i < |host| ==> host[i] !in "/?#@]") && IsBehindHost(port, rest)
    ensures IsLoopbackOrigin(scheme + ("[" + host + "]" + port + rest))
            <==> Lower(host) == "localhost" || Lower(host) == "127.0.0.1" || Lower(host) == "::1"
  {
    hide UpTo, Lower, IsBehindHost;
    LowerOfBoth(scheme, "[" + host + "]" + port + rest);
    BracketsInLower(host, port, rest);
    SchemeIsCut(scheme, "[" + Lower(host) + "]" + Lower(port) + Lower(rest));
    BracketAuthorityIs(Lower(host), port, rest);
  }

  /** A name in front of the host is refused, whatever the host. */
  lemma UserIsRefused(scheme: string, user: string, rest: string)
    requires IsScheme(scheme) && IsPlainPart(user)
    ensures !IsLoopbackOrigin(scheme + (user + "@" + rest))
  {
    hide UpTo, Lower;
    LowerOfBoth(scheme, user + "@" + rest);
    UserInLower(user, rest);
    SchemeIsCut(scheme, Lower(user) + "@" + Lower(rest));
    PlainInLower(user);
    AtSignIsThere(Lower(user), Lower(rest));
  }

  lemma UserInLower(user: string, rest: string)
    ensures Lower(user + "@" + rest) == Lower(user) + "@" + Lower(rest)
  {
  }

  lemma AtSignIsThere(u: string, r: string)
    requires IsPlainPart(u)
    ensures '@' in UpTo(u + "@" + r, "/?#")
  {
    UpToContains(u + "@", r, "/?#");
    assert (u + "@")[|u|] == '@';
    hide UpTo;
    assert UpTo(u + "@" + r, "/?#")[|u|] == '@';
  }

  lemma {:induction false} UpToContains(a: string, b: string, stops: string)
    requires forall i :: 0 <= i < |a| ==> a[i] !in stops
    ensures a <= UpTo(a + b, stops)
    decreases |a|
  {
    if a != "" {
      assert (a + b)[1..] == a[1..] + b;
      UpToContains(a[1..], b, stops);
    }
  }
}
