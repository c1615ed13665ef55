/** Mounting a web app under a prefix: root-relative URLs in its pages get the prefix. */
module PrefixRewrite {
  import opened Bytes

  predicate IsQuote(c: char) {
    c == '"' || c == '\'' || c == '`'
  }

  /** `s` starts with `prefix`, which ends there or is followed by the end of a path segment. */
  predicate AlreadyPrefixed(s: string, prefix: string) {
    && prefix <= s
    && (|s| == |prefix| || var c := s[|prefix|]; c == '/' || c == '?' || c == '#' || IsQuote(c) || c == ')')
  }

  /** `is_root_relative` */
  predicate IsRootRelative(s: string, prefix: string) {
    && |s| >= 2 && s[0] == '/' && (IsAlphanumeric(s[1]) || s[1] == '_')
    && !AlreadyPrefixed(s, prefix)
  }

  predicate OpensCssUrl(body: string, i: nat)
    requires i < |body|
  {
    body[i] == '(' && i >= 3 && body[i - 3..i] == "url"
  }

  /** The prefix belongs right behind position `i`. */
  predicate IsSite(body: string, prefix: string, i: nat) {
    i < |body| && (IsQuote(body[i]) || OpensCssUrl(body, i)) && IsRootRelative(body[i + 1..], prefix)
  }

  /** The text from position `i` on, with the prefix behind every site. */
  function Mounted(body: string, prefix: string, i: nat): string
    decreases |body| - i
  {
    if i >= |body| then ""
    else [body[i]] + (if IsSite(body, prefix, i) then prefix else "") + Mounted(body, prefix, i + 1)
  }

  lemma MountedPlain(body: string, prefix: string, i: nat)
    requires i < |body| && !IsSite(body, prefix, i)
    ensures Mounted(body, prefix, i) == [body[i]] + Mounted(body, prefix, i + 1)
  {
  }

  lemma {:induction false} MountedPlainRun(body: string, prefix: string, last: nat, i: nat)
    requires last <= i <= |body|
    requires forall j :: last <= j < i ==> !IsSite(body, prefix, j)
    ensures Mounted(body, prefix, last) == body[last..i] + Mounted(body, prefix, i)
    decreases i - last
  {
    hide IsSite, Mounted;
    if last < i {
      MountedPlain(body, prefix, last);
      MountedPlainRun(body, prefix, last + 1, i);
      assert body[last..i] == [body[last]] + body[last + 1..i];
    }
  }

  /** `rewrite_root_relative`: one pass, copying the runs between sites. */
  method RewriteRootRelative(body: string, prefix: string) returns (out: string)
    ensures out == Mounted(body, prefix, 0)
  {
    hide IsRootRelative, Mounted, IsSite;
    out := "";
    var last, i := 0, 0;
    while i < |body|
      invariant last <= i <= |body|
      invariant forall j :: last <= j < i ==> !IsSite(body, prefix, j)
      invariant out + Mounted(body, prefix, last) == Mounted(body, prefix, 0)
    {
      SiteTest(body, prefix, i);
      var c := body[i];
      var quoted := c == '"' || c == '\'' || c == '`';
      var cssUrl := c == '(' && i >= 3 && body[i - 3..i] == "url";
      if (quoted || cssUrl) && IsRootRelative(body[i + 1..], prefix) {
        MountedSiteRun(body, prefix, last, i, out);
        out := out + body[last..i + 1];
        out := out + prefix;
        last := i + 1;
      }
      i := i + 1;
    }
    MountedPlainRun(body, prefix, last, i);
    MountedEnd(body, prefix);
    out := out + body[last..];
  }

  lemma SiteTest(body: string, prefix: string, i: nat)
    requires i < |body|
    ensures var c := body[i];
            IsSite(body, prefix, i)
            <==> (c == '"' || c == '\'' || c == '`' || (c == '(' && i >= 3 && body[i - 3..i] == "url"))
                 && IsRootRelative(body[i + 1..], prefix)
  {
    hide IsRootRelative;
  }

  /** `rest` is a root-relative path: a slash and a letter, digit or underscore. */
  ghost predicate StartsPath(rest: string) {
    exists c, more :: rest == "/" + [c] + more && (c == '_' || IsAlphanumeric(c))
  }

  /** `rest` is the prefix already, up to the end of a path segment. */
  ghost predicate StartsWithPrefix(rest: string, prefix: string) {
    exists more :: rest == prefix + more && (more == "" || more[0] in "/?#\"'`)")
  }

  /** Where the prefix goes, in the words of the page: behind a quote or `url(`, in front of a
      root-relative path that is not under the prefix. */
  lemma SitesAre(front: string, c: char, rest: string, prefix: string)
    ensures IsSite(front + [c] + rest, prefix, |front|)
            <==> (c in "\"'`" || (c == '(' && HasSuffix(front, "url")))
                 && StartsPath(rest) && !StartsWithPrefix(rest, prefix)
  {
    var body := front + [c] + rest;
    assert body[|front|] == c && body[|front| + 1..] == rest;
    if |front| >= 3 {
      assert body[|front| - 3..|front|] == front[|front| - 3..];
    }
    PathStarts(rest);
    PrefixStarts(rest, prefix);
  }

  lemma PathStarts(rest: string)
    ensures StartsPath(rest) <==> |rest| >= 2 && rest[0] == '/' && (IsAlphanumeric(rest[1]) || rest[1] == '_')
  {
    if |rest| >= 2 && rest[0] == '/' {
      assert rest == "/" + [rest[1]] + rest[2..];
    }
  }

  lemma PrefixStarts(rest: string, prefix: string)
    ensures StartsWithPrefix(rest, prefix) <==> AlreadyPrefixed(rest, prefix)
  {
    if prefix <= rest {
      assert rest == prefix + rest[|prefix|..];
    }
  }

  lemma MountedSite(body: string, prefix: string, i: nat)
    requires IsSite(body, prefix, i)
    ensures Mounted(body, prefix, i) == [body[i]] + prefix + Mounted(body, prefix, i + 1)
  {
  }

  /** A run up to a site, copied behind `out` together with the prefix. */
  lemma MountedSiteRun(body: string, prefix: string, last: nat, i: nat, out: string)
    requires last <= i < |body| && IsSite(body, prefix, i)
    requires forall j :: last <= j < i ==> !IsSite(body, prefix, j)
    ensures out + Mounted(body, prefix, last) == out + body[last..i + 1] + prefix + Mounted(body, prefix, i + 1)
  {
    hide IsSite, Mounted;
    MountedPlainRun(body, prefix, last, i);
    MountedSite(body, prefix, i);
    assert body[last..i + 1] == body[last..i] + [body[i]];
  }

  lemma MountedEnd(body: string, prefix: string)
    ensures Mounted(body, prefix, |body|) == ""
  {
  }

  // ---------------------------------------------------------------- where the text goes

  /** Where position `i` of the body ends up. */
  function Image(body: string, prefix: string, i: nat): nat
    decreases i
  {
    if i == 0 then 0 else Image(body, prefix, i - 1) + 1 + if IsSite(body, prefix, i - 1) then |prefix| else 0
  }

  /** The text behind `i` lies behind its image. */
  lemma {:induction false} MountedFromImage(body: string, prefix: string, i: nat)
    requires i <= |body|
    ensures Image(body, prefix, i) <= |Mounted(body, prefix, 0)|
    ensures Mounted(body, prefix, 0)[Image(body, prefix, i)..] == Mounted(body, prefix, i)
    decreases i
  {
    hide IsSite;
    var out := Mounted(body, prefix, 0);
    if i > 0 {
      MountedFromImage(body, prefix, i - 1);
      var p, n := Image(body, prefix, i - 1), Image(body, prefix, i);
      var step := [body[i - 1]] + if IsSite(body, prefix, i - 1) then prefix else "";
      assert out[p..] == step + Mounted(body, prefix, i);
      assert out[p..][|step|..] == out[n..];
    }
  }

  /** Every byte of the body is kept, in order; the prefix follows it exactly when it is a site. */
  lemma MountedAtImage(body: string, prefix: string, i: nat)
    requires i < |body|
    ensures var out, p := Mounted(body, prefix, 0), Image(body, prefix, i);
            && p < |out| && out[p] == body[i]
            && (IsSite(body, prefix, i) ==> prefix <= out[p + 1..] && Image(body, prefix, i + 1) == p + 1 + |prefix|)
            && (!IsSite(body, prefix, i) ==> Image(body, prefix, i + 1) == p + 1)
  {
    hide IsSite;
    var out, p := Mounted(body, prefix, 0), Image(body, prefix, i);
    MountedFromImage(body, prefix, i);
    assert out[p..] == [body[i]] + (if IsSite(body, prefix, i) then prefix else "") + Mounted(body, prefix, i + 1);
    assert out[p..][0] == out[p];
    assert out[p + 1..] == out[p..][1..];
  }

  /** Every byte of the result is the image of a byte of the body or lies in an inserted prefix. */
  lemma {:induction false} ByteHasOrigin(body: string, prefix: string, q: nat, hi: nat) returns (i: nat)
    requires hi <= |body| && q < Image(body, prefix, hi) <= |Mounted(body, prefix, 0)|
    ensures i < hi && Image(body, prefix, i) <= q < Image(body, prefix, i + 1)
    ensures q == Image(body, prefix, i) || Mounted(body, prefix, 0)[q] in prefix
    decreases hi
  {
    hide IsSite, Mounted;
    if Image(body, prefix, hi - 1) <= q {
      i := hi - 1;
      MountedAtImage(body, prefix, i);
      var out, p := Mounted(body, prefix, 0), Image(body, prefix, i);
      if q > p {
        assert out[p + 1..][q - p - 1] == out[q];
      }
    } else {
      i := ByteHasOrigin(body, prefix, q, hi - 1);
    }
  }

  // ---------------------------------------------------------------- no site is left

  predicate IsWordChar(c: char) {
    IsAlphanumeric(c) || c == '_'
  }

  /** Inserted in front of a root-relative path, the prefix opens a site of its own at `k`: behind a
      quote or a `url(` that it ends with, or that a root-relative path follows in it. */
  predicate ReopensAt(prefix: string, k: nat) {
    && k < |prefix| && (IsQuote(prefix[k]) || OpensCssUrl(prefix, k))
    && (k + 1 == |prefix| || (k + 2 < |prefix| && prefix[k + 1] == '/' && IsWordChar(prefix[k + 2])))
  }

  predicate Reopens(prefix: string) {
    exists k :: 0 <= k < |prefix| && ReopensAt(prefix, k)
  }

  lemma {:induction false} FirstByteKept(body: string, prefix: string, i: nat)
    ensures i < |body| ==> Mounted(body, prefix, i) != "" && Mounted(body, prefix, i)[0] == body[i]
    ensures i >= |body| ==> Mounted(body, prefix, i) == ""
  {
    hide IsSite;
  }

  /** What follows a position in the result is root-relative only if it was so in the body. */
  lemma RootRelativeWasThere(body: string, prefix: string, i: nat)
    requires 0 < i <= |body| && (IsQuote(body[i - 1]) || body[i - 1] == '(') && !Reopens(prefix)
    requires IsRootRelative(Mounted(body, prefix, i), prefix)
    ensures IsRootRelative(body[i..], prefix)
  {
    hide IsSite, Mounted, Reopens;
    var rest := Mounted(body, prefix, i);
    FirstByteKept(body, prefix, i);
    SlashIsNoSite(body, prefix, i);
    MountedPlain(body, prefix, i);
    assert rest[1..] == Mounted(body, prefix, i + 1);
    FirstByteKept(body, prefix, i + 1);
    assert body[i..][0] == '/' && body[i..][1] == rest[1];
    if AlreadyPrefixed(body[i..], prefix) {
      StaysPrefixed(body, prefix, i);
    }
  }

  lemma SlashIsNoSite(body: string, prefix: string, i: nat)
    requires i < |body| && body[i] == '/'
    ensures !IsSite(body, prefix, i)
  {
  }

  /** A site within a copy of the prefix, between an opener and the end of a segment, is one that the
      prefix reopens at. */
  lemma SiteReopens(text: string, prefix: string, i: nat, k: nat)
    requires 0 < i && i + |prefix| <= |text| && (IsQuote(text[i - 1]) || text[i - 1] == '(')
    requires text[i..i + |prefix|] == prefix
    requires i + |prefix| < |text| ==> !IsWordChar(text[i + |prefix|])
    requires k < |prefix| && IsSite(text, prefix, i + k)
    ensures ReopensAt(prefix, k)
  {
    hide AlreadyPrefixed, IsAlphanumeric, OpensCssUrl;
    assert forall j :: 0 <= j < |prefix| ==> text[i + j] == text[i..i + |prefix|][j] == prefix[j];
    assert text[i + k + 1..][0] == text[i + k + 1] && text[i + k + 1..][1] == text[i + k + 2];
    if OpensCssUrl(text, i + k) {
      CssUrlInCopy(text, prefix, i, k);
    }
  }

  lemma CssUrlInCopy(text: string, prefix: string, i: nat, k: nat)
    requires 0 < i && i + |prefix| <= |text| && (IsQuote(text[i - 1]) || text[i - 1] == '(')
    requires text[i..i + |prefix|] == prefix && k < |prefix| && OpensCssUrl(text, i + k)
    ensures OpensCssUrl(prefix, k)
  {
    var copy, url := text[i..i + |prefix|], text[i + k - 3..i + k];
    assert text[i + k - 3] == url[0] == 'u' && text[i + k - 2] == url[1] == 'r' && text[i + k - 1] == url[2] == 'l';
    assert k != 0 && k != 1 && k != 2;
    assert copy[k] == text[i + k];
    assert copy[k - 3..k] == url;
  }

  lemma PrefixInPlace(body: string, prefix: string, i: nat)
    requires i <= |body| && AlreadyPrefixed(body[i..], prefix)
    ensures i + |prefix| <= |body| && body[i..i + |prefix|] == prefix
    ensures forall k :: 0 <= k < |prefix| ==> body[i + k] == prefix[k]
    ensures i + |prefix| < |body| ==> !IsWordChar(body[i + |prefix|])
  {
    assert body[i..][..|prefix|] == prefix;
  }

  lemma StaysPrefixed(body: string, prefix: string, i: nat)
    requires 0 < i <= |body| && (IsQuote(body[i - 1]) || body[i - 1] == '(') && !Reopens(prefix)
    requires AlreadyPrefixed(body[i..], prefix)
    ensures AlreadyPrefixed(Mounted(body, prefix, i), prefix)
  {
    hide IsSite, Mounted, ReopensAt;
    var rest, m := Mounted(body, prefix, i), i + |prefix|;
    PrefixInPlace(body, prefix, i);
    forall j | i <= j < m
      ensures !IsSite(body, prefix, j)
    {
      if IsSite(body, prefix, j) {
        SiteReopens(body, prefix, i, j - i);
      }
    }
    MountedPlainRun(body, prefix, i, m);
    FirstByteKept(body, prefix, m);
    assert rest[|prefix|..] == Mounted(body, prefix, m);
  }

  /** The three bytes in front of a parenthesis are those it had in the body. */
  lemma CssUrlWasThere(body: string, prefix: string, i: nat)
    requires i < |body| && body[i] == '(' && Image(body, prefix, i) < |Mounted(body, prefix, 0)|
    requires OpensCssUrl(Mounted(body, prefix, 0), Image(body, prefix, i))
    ensures OpensCssUrl(body, i)
  {
    hide Mounted, IsRootRelative, Image, IsSite;
    var out, p := Mounted(body, prefix, 0), Image(body, prefix, i);
    assert out[p - 3..p] == "url" && out[p - 3] == 'u' && out[p - 2] == 'r' && out[p - 1] == 'l';
    LetterBefore(body, prefix, i);
    LetterBefore(body, prefix, i - 1);
    LetterBefore(body, prefix, i - 2);
    assert body[i - 3..i] == [body[i - 3], body[i - 2], body[i - 1]];
  }

  lemma SlashFollowsSite(body: string, prefix: string, i: nat)
    ensures IsSite(body, prefix, i) ==> i + 1 < |body| && body[i + 1] == '/'
  {
  }

  /** In front of a byte that is no slash nothing was inserted. */
  lemma LetterBefore(body: string, prefix: string, i: nat)
    requires i < |body| && body[i] != '/' && Image(body, prefix, i) > 0
    ensures i > 0 && Image(body, prefix, i - 1) == Image(body, prefix, i) - 1
    ensures Image(body, prefix, i) <= |Mounted(body, prefix, 0)|
    ensures Mounted(body, prefix, 0)[Image(body, prefix, i) - 1] == body[i - 1]
  {
    hide Mounted, IsSite;
    SlashFollowsSite(body, prefix, i - 1);
    MountedAtImage(body, prefix, i - 1);
  }

  /** No site in an inserted prefix: what surrounds it is an opener and a slash. */
  lemma NoSiteInserted(body: string, prefix: string, i: nat, k: nat)
    requires IsSite(body, prefix, i) && k < |prefix| && !Reopens(prefix)
    ensures !IsSite(Mounted(body, prefix, 0), prefix, Image(body, prefix, i) + 1 + k)
  {
    hide Mounted, Image, IsRootRelative, ReopensAt;
    var out, p := Mounted(body, prefix, 0), Image(body, prefix, i);
    var q := p + 1 + k;
    MountedAtImage(body, prefix, i);
    assert out[p + 1..][..|prefix|] == out[p + 1..p + 1 + |prefix|] == prefix;
    SlashFollowsSite(body, prefix, i);
    MountedFromImage(body, prefix, i + 1);
    FirstByteKept(body, prefix, i + 1);
    assert out[p + 1 + |prefix|..][0] == out[p + 1 + |prefix|] == '/';
    if IsSite(out, prefix, q) {
      SiteReopens(out, prefix, p + 1, k);
    }
  }

  /** With a prefix that does not reopen, the result has no site left. */
  lemma NoSiteLeft(body: string, prefix: string, q: nat)
    requires !Reopens(prefix)
    ensures !IsSite(Mounted(body, prefix, 0), prefix, q)
  {
    hide Mounted, IsRootRelative, Image, Reopens;
    var out := Mounted(body, prefix, 0);
    if IsSite(out, prefix, q) {
      MountedFromImage(body, prefix, |body|);
      MountedEnd(body, prefix);
      var i := ByteHasOrigin(body, prefix, q, |body|);
      MountedAtImage(body, prefix, i);
      if q > Image(body, prefix, i) {
        NoSiteInserted(body, prefix, i, q - Image(body, prefix, i) - 1);
      }
      MountedFromImage(body, prefix, i + 1);
      if IsSite(body, prefix, i) {
        PrefixedIsDone(body, prefix, i, out[q + 1..]);
      } else {
        assert out[q + 1..] == Mounted(body, prefix, i + 1);
        RootRelativeWasThere(body, prefix, i + 1);
        if body[i] == '(' {
          CssUrlWasThere(body, prefix, i);
        }
      }
    }
  }

  lemma PrefixedIsDone(body: string, prefix: string, i: nat, rest: string)
    requires IsSite(body, prefix, i) && prefix <= rest && rest[|prefix|..] == Mounted(body, prefix, i + 1)
    ensures !IsRootRelative(rest, prefix)
  {
    FirstByteKept(body, prefix, i + 1);
    assert body[i + 1] == body[i + 1..][0] == '/';
    assert rest[|prefix|] == rest[|prefix|..][0];
  }

  /** Rewriting a rewritten page changes nothing. */
  lemma MountedIsIdempotent(body: string, prefix: string)
    requires !Reopens(prefix)
    ensures Mounted(Mounted(body, prefix, 0), prefix, 0) == Mounted(body, prefix, 0)
  {
    hide IsSite, Mounted, Reopens;
    var out := Mounted(body, prefix, 0);
    forall q: nat | q < |out|
      ensures !IsSite(out, prefix, q)
    {
      NoSiteLeft(body, prefix, q);
    }
    MountedPlainRun(out, prefix, 0, |out|);
    MountedEnd(out, prefix);
    assert out[0..|out|] == out;
  }

  // ---------------------------------------------------------------- the exact condition

  /** A page with one site, whose path is not under the prefix. */
  function OnePath(prefix: string): string {
    "\"/" + if prefix != "" && prefix[|prefix| - 1] == 'x' then "y" else "x"
  }

  lemma OnePathMounted(prefix: string, k: nat)
    requires ReopensAt(prefix, k)
    ensures Mounted(OnePath(prefix), prefix, 0) == "\"" + prefix + OnePath(prefix)[1..]
  {
    hide Mounted;
    var body := OnePath(prefix);
    assert !AlreadyPrefixed(body[1..], prefix) by {
      assert k < |prefix| && prefix[k] != '/' && prefix[k] != body[2];
    }
    assert IsSite(body, prefix, 0);
    assert !IsSite(body, prefix, 1) && !IsSite(body, prefix, 2);
    MountedSite(body, prefix, 0);
    MountedPlainRun(body, prefix, 1, 3);
    MountedEnd(body, prefix);
  }

  /** A prefix that reopens leaves a site in that page. */
  lemma SiteIsLeft(prefix: string, k: nat)
    requires ReopensAt(prefix, k)
    ensures IsSite(Mounted(OnePath(prefix), prefix, 0), prefix, k + 1)
  {
    hide Mounted;
    var c := OnePath(prefix)[1..];
    var out := "\"" + prefix + c;
    OnePathMounted(prefix, k);
    assert out[k + 1] == prefix[k];
    var rest := out[k + 2..];
    assert rest == prefix[k + 1..] + c;
    if prefix[k] == '(' {
      assert out[k - 2..k + 1] == prefix[k - 3..k];
    }
    assert rest[0] == '/' && rest[|rest| - 1] == c[1];
  }

  /** A text with a site is changed by rewriting. */
  lemma SiteIsRewritten(body: string, prefix: string, i: nat)
    requires IsSite(body, prefix, i) && prefix != ""
    ensures Mounted(body, prefix, 0) != body
  {
    hide IsRootRelative, Mounted, Image;
    MountedAtImage(body, prefix, i);
    ImageGrows(body, prefix, 0, i);
    ImageGrows(body, prefix, i + 1, |body|);
    MountedFromImage(body, prefix, |body|);
  }

  lemma {:induction false} ImageGrows(body: string, prefix: string, i: nat, j: nat)
    requires i <= j
    ensures Image(body, prefix, i) + (j - i) <= Image(body, prefix, j)
    decreases j
  {
    hide IsSite;
    if i < j {
      ImageGrows(body, prefix, i, j - 1);
    }
  }

  ghost predicate LeavesNoSite(prefix: string) {
    forall body, q :: !IsSite(Mounted(body, prefix, 0), prefix, q)
  }

  ghost predicate IsIdempotent(prefix: string) {
    forall body: string :: Mounted(Mounted(body, prefix, 0), prefix, 0) == Mounted(body, prefix, 0)
  }

  /** Whether all pages come out finished, and whether rewriting is idempotent, is visible in the
      prefix. */
  lemma FinishedExactly(prefix: string)
    ensures LeavesNoSite(prefix) <==> !Reopens(prefix)
    ensures IsIdempotent(prefix) <==> !Reopens(prefix)
  {
    hide Mounted, IsSite, ReopensAt;
    if Reopens(prefix) {
      var k :| 0 <= k < |prefix| && ReopensAt(prefix, k);
      SiteIsLeft(prefix, k);
      NotEmpty(prefix, k);
      SiteIsRewritten(Mounted(OnePath(prefix), prefix, 0), prefix, k + 1);
    } else {
      forall body: string, q: nat
        ensures !IsSite(Mounted(body, prefix, 0), prefix, q)
      {
        NoSiteLeft(body, prefix, q);
      }
      forall body: string
        ensures Mounted(Mounted(body, prefix, 0), prefix, 0) == Mounted(body, prefix, 0)
      {
        MountedIsIdempotent(body, prefix);
      }
    }
  }

  lemma NotEmpty(prefix: string, k: nat)
    requires ReopensAt(prefix, k)
    ensures prefix != ""
  {
  }

  /** The two prefixes the gateway mounts under do not reopen. */
  lemma MountedPrefixesAreFine()
    ensures !Reopens("/omniroute") && !Reopens("/ominroute")
    ensures IsIdempotent("/omniroute") && IsIdempotent("/ominroute")
  {
    assert forall k :: 0 <= k < |"/omniroute"| ==> !IsQuote("/omniroute"[k]) && "/omniroute"[k] != '(';
    assert forall k :: 0 <= k < |"/ominroute"| ==> !IsQuote("/ominroute"[k]) && "/ominroute"[k] != '(';
    hide Mounted;
    FinishedExactly("/omniroute");
    FinishedExactly("/ominroute");
  }
}
