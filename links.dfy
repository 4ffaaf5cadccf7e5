/**
 * The link stripper: every Markdown link to an `http` or `https` address is replaced by
 * its caption, the substitution `\[([^\]]+)\]\(https?://[^\)]+\)` → `\1`.
 *
 * As for the directive blocks, the substitution is a scan: at each position the pattern
 * is tried against the rest of the text; on a match the caption is emitted and the scan
 * resumes after the link, otherwise one character is kept. The caption runs to the first
 * `]` and must not be empty; the address runs to the first `)` and must not be empty.
 */
module Links {
  import opened Wrappers
  import opened TextUtil

  /** The two schemes the pattern accepts. */
  datatype Scheme = Http | Https {
    /** The parenthesis and the scheme that open the address. */
    function Opening(): string {
      if this == Http then "(http://" else "(https://"
    }
  }

  /** A link: `[`, the caption, `]`, the opening of the address, the rest of the
      address, `)`. */
  function LinkText(caption: string, scheme: Scheme, url: string): string {
    "[" + (caption + ("]" + (scheme.Opening() + (url + ")"))))
  }

  /** The links the pattern matches: a non-empty caption without `]` and a non-empty
      address after the scheme without `)`. */
  predicate WellFormedLink(caption: string, url: string) {
    caption != [] && ']' !in caption && url != [] && ')' !in url
  }

  /** A match: the caption to keep and the length of the link it replaces. */
  datatype LinkMatch = LinkMatch(caption: string, length: nat)

  /** The link the pattern matches at the head of `s`, if any. */
  function MatchLink(s: string): (r: Option<LinkMatch>)
    ensures r.Some? ==> 0 < r.value.length <= |s| && |r.value.caption| < r.value.length
  {
    if s == [] || s[0] != '[' then None
    else
      match MatchCaption(s[1..])
      case None => None
      case Some(m) => Some(LinkMatch(m.caption, 1 + m.length))
  }

  /** After the `[`: `[^\]]+\]`, a non-empty caption up to the first `]`, then the
      address. */
  function MatchCaption(u: string): (r: Option<LinkMatch>)
    ensures r.Some? ==> 0 < r.value.length <= |u| && |r.value.caption| < r.value.length
  {
    var k := IndexOf(u, ']');
    if k == |u| || k == 0 then None
    else
      match MatchTarget(u[k + 1..])
      case None => None
      case Some(n) => Some(LinkMatch(u[..k], k + 1 + n))
  }

  /** After the `]`: `\(https?://[^\)]+\)`, the length of the parenthesised address. */
  function MatchTarget(t: string): (r: Option<nat>)
    ensures r.Some? ==> 0 < r.value <= |t|
  {
    match MatchAddress(t, Https.Opening())
    case Some(n) => Some(n)
    case None => MatchAddress(t, Http.Opening())
  }

  /** The address after a given opening: `[^\)]+\)`. */
  function MatchAddress(t: string, opening: string): (r: Option<nat>)
    ensures r.Some? ==> |opening| < r.value <= |t|
  {
    if !StartsWith(t, opening) then None
    else
      var u := t[|opening|..];
      var e := IndexOf(u, ')');
      if e == |u| || e == 0 then None else Some(|opening| + e + 1)
  }

  /** What `remove_links` returns: each matched link replaced by its caption. A caption
      is shorter than its link, so the text never grows. */
  function RemoveLinks(s: string): (r: string)
    ensures |r| <= |s|
    decreases |s|
  {
    if s == [] then []
    else
      match MatchLink(s)
      case Some(m) => m.caption + RemoveLinks(s[m.length..])
      case None => [s[0]] + RemoveLinks(s[1..])
  }

  /** The address after `opening` runs to the first `)`. */
  lemma AddressComplete(opening: string, url: string, post: string)
    requires url != [] && ')' !in url
    ensures MatchAddress(opening + (url + (")" + post)), opening) == Some(|opening| + |url| + 1)
  {
    var u := url + (")" + post);
    var t := opening + u;
    assert t[..|opening|] == opening;
    assert t[|opening|..] == u;
    IndexOfIs(u, ')', |url|);
  }

  /** Either scheme's address is matched whole; `http` is not mistaken for `https`. */
  lemma TargetComplete(scheme: Scheme, url: string, post: string)
    requires url != [] && ')' !in url
    ensures MatchTarget(scheme.Opening() + (url + (")" + post)))
            == Some(|scheme.Opening()| + |url| + 1)
  {
    var t := scheme.Opening() + (url + (")" + post));
    AddressComplete(scheme.Opening(), url, post);
    if scheme == Http {
      assert t[5] == Http.Opening()[5] == ':';
      assert !StartsWith(t, Https.Opening());
    }
  }

  /** A bracketed caption followed by a matched address is a match of the whole. */
  lemma CaptionComplete(caption: string, t: string, n: nat)
    requires caption != [] && ']' !in caption && MatchTarget(t) == Some(n)
    ensures MatchLink("[" + (caption + ("]" + t))) == Some(LinkMatch(caption, |caption| + 2 + n))
  {
    var u := caption + ("]" + t);
    CaptionThenTarget(caption, t, n);
    assert ("[" + u)[1..] == u;
  }

  /** A caption, its `]` and a matching address match as a caption. */
  lemma CaptionThenTarget(caption: string, t: string, n: nat)
    requires caption != [] && ']' !in caption && MatchTarget(t) == Some(n)
    ensures MatchCaption(caption + ("]" + t)) == Some(LinkMatch(caption, |caption| + 1 + n))
  {
    var u := caption + ("]" + t);
    IndexOfIs(u, ']', |caption|);
    assert u[..|caption|] == caption;
    assert u[|caption| + 1..] == t;
  }

  /** `LinkText(...) + post`, regrouped from the innermost piece outwards. */
  lemma LinkThen(caption: string, scheme: Scheme, url: string, post: string)
    ensures LinkText(caption, scheme, url) + post
            == "[" + (caption + ("]" + (scheme.Opening() + (url + (")" + post)))))
  {
    var p := scheme.Opening();
    var v := url + ")";
    assert v + post == url + (")" + post);
    assert (p + v) + post == p + (v + post);
    assert ("]" + (p + v)) + post == "]" + ((p + v) + post);
    assert (caption + ("]" + (p + v))) + post == caption + (("]" + (p + v)) + post);
    assert ("[" + (caption + ("]" + (p + v)))) + post == "[" + ((caption + ("]" + (p + v))) + post);
  }

  lemma AddressSound(t: string, opening: string) returns (url: string)
    requires MatchAddress(t, opening).Some?
    ensures url != [] && ')' !in url
    ensures t[..MatchAddress(t, opening).value] == opening + (url + ")")
  {
    var u := t[|opening|..];
    var e := IndexOf(u, ')');
    url := u[..e];
    assert t[..|opening| + e + 1] == opening + (url + ")") by {
      SplitAt(u, e);
      assert t == opening + u;
      PrefixOfAppend(opening, u, e + 1);
    }
  }

  lemma TargetSound(t: string) returns (scheme: Scheme, url: string)
    requires MatchTarget(t).Some?
    ensures url != [] && ')' !in url
    ensures t[..MatchTarget(t).value] == scheme.Opening() + (url + ")")
  {
    if MatchAddress(t, Https.Opening()).Some? {
      scheme := Https;
    } else {
      scheme := Http;
    }
    url := AddressSound(t, scheme.Opening());
  }

  /** What a successful `MatchCaption` consists of: the caption up to the first `]`
      and the address matched after it. */
  lemma CaptionParts(u: string, m: LinkMatch) returns (k: nat, n: nat)
    requires MatchCaption(u) == Some(m)
    ensures k < |u| && u[k] == ']' && ']' !in u[..k]
    ensures MatchTarget(u[k + 1..]) == Some(n)
    ensures m == LinkMatch(u[..k], k + 1 + n)
  {
    k := IndexOf(u, ']');
    assert k != |u| && k != 0;
    var r := MatchTarget(u[k + 1..]);
    assert r.Some?;
    n := r.value;
  }

  /** Cutting `u` after a `]` at `k` and `n` more characters. */
  lemma CutAfter(u: string, k: nat, n: nat)
    requires k < |u| && u[k] == ']' && k + 1 + n <= |u|
    ensures u[..k + 1 + n] == u[..k] + ("]" + u[k + 1..][..n])
  {
    SplitAt(u, k);
    PrefixOfAppend(u[..k], "]" + u[k + 1..], 1 + n);
    PrefixOfAppend("]", u[k + 1..], n);
  }

  lemma CaptionSound(u: string, m: LinkMatch) returns (scheme: Scheme, url: string)
    requires MatchCaption(u) == Some(m)
    ensures WellFormedLink(m.caption, url)
    ensures u[..m.length] == m.caption + ("]" + (scheme.Opening() + (url + ")")))
  {
    var k, n := CaptionParts(u, m);
    scheme, url := TargetSound(u[k + 1..]);
    CutAfter(u, k, n);
  }

  /** Every match is a well-formed link, and what it keeps is that link's caption. */
  lemma MatchLinkSound(s: string)
    requires MatchLink(s).Some?
    ensures exists scheme, url ::
              WellFormedLink(MatchLink(s).value.caption, url)
              && s[..MatchLink(s).value.length] == LinkText(MatchLink(s).value.caption, scheme, url)
  {
    var u := s[1..];
    var m := MatchCaption(u).value;
    var scheme, url := CaptionSound(u, m);
    assert s[..1 + m.length] == "[" + u[..m.length] by {
      SplitAt(s, 0);
      PrefixOfAppend("[", u, m.length);
    }
    assert WellFormedLink(m.caption, url) && s[..1 + m.length] == LinkText(m.caption, scheme, url);
  }
  /** A match at the head of the text is replaced by its caption, and the scan goes on
      after it. */
  lemma RemoveLinksAtMatch(s: string, caption: string, len: nat, post: string)
    requires MatchLink(s) == Some(LinkMatch(caption, len)) && s[len..] == post
    ensures RemoveLinks(s) == caption + RemoveLinks(post)
  {
  }

  lemma CutAfterAddress(caption: string, t: string, n: nat)
    requires n <= |t|
    ensures ("[" + (caption + ("]" + t)))[|caption| + 2 + n..] == t[n..]
  {
  }

  lemma RemoveMatchedCaption(caption: string, t: string, n: nat, post: string)
    requires MatchLink("[" + (caption + ("]" + t))) == Some(LinkMatch(caption, |caption| + 2 + n))
    requires n <= |t| && t[n..] == post
    ensures RemoveLinks("[" + (caption + ("]" + t))) == caption + RemoveLinks(post)
  {
    CutAfterAddress(caption, t, n);
    RemoveLinksAtMatch("[" + (caption + ("]" + t)), caption, |caption| + 2 + n, post);
  }

  /** A caption followed by an address the pattern matches is replaced by the caption. */
  lemma RemoveLinksAtCaption(caption: string, t: string, n: nat, post: string)
    requires caption != [] && ']' !in caption && MatchTarget(t) == Some(n) && t[n..] == post
    ensures RemoveLinks("[" + (caption + ("]" + t))) == caption + RemoveLinks(post)
  {
    CaptionComplete(caption, t, n);
    RemoveMatchedCaption(caption, t, n, post);
  }

  lemma RemoveLinksAtAddress(caption: string, scheme: Scheme, url: string, post: string)
    requires WellFormedLink(caption, url)
    ensures RemoveLinks("[" + (caption + ("]" + (scheme.Opening() + (url + (")" + post))))))
            == caption + RemoveLinks(post)
  {
    var t := scheme.Opening() + (url + (")" + post));
    TargetComplete(scheme, url, post);
    assert t[|scheme.Opening()| + |url| + 1..] == post;
    RemoveLinksAtCaption(caption, t, |scheme.Opening()| + |url| + 1, post);
  }

  /** Every well-formed link at the head of the text is replaced by its caption, and the
      scan goes on after it. */
  lemma RemoveLinksAtLink(caption: string, scheme: Scheme, url: string, post: string)
    requires WellFormedLink(caption, url)
    ensures RemoveLinks(LinkText(caption, scheme, url) + post) == caption + RemoveLinks(post)
  {
    LinkThen(caption, scheme, url, post);
    RemoveLinksAtAddress(caption, scheme, url, post);
  }

  /** Text without `[` is left as it is. */
  lemma {:induction false} RemoveLinksWithoutBracket(s: string)
    requires '[' !in s
    ensures RemoveLinks(s) == s
    decreases |s|
  {
    if s != [] {
      assert '[' !in s[1..];
      RemoveLinksWithoutBracket(s[1..]);
      assert s == [s[0]] + s[1..];
    }
  }

  /** Bracketed text that is not a link, with no other `[` in it, is kept. */
  lemma BracketedTextKept(caption: string, t: string)
    requires ']' !in caption && '[' !in caption && '[' !in t
    requires caption == [] || MatchTarget(t) == None
    ensures RemoveLinks("[" + (caption + ("]" + t))) == "[" + (caption + ("]" + t))
  {
    var u := caption + ("]" + t);
    var s := "[" + u;
    assert s[1..] == u;
    assert MatchCaption(u) == None by {
      IndexOfIs(u, ']', |caption|);
      assert u[|caption| + 1..] == t;
    }
    assert '[' !in u;
    RemoveLinksWithoutBracket(u);
  }

  /** `[Example](https://x.test/y_z)` becomes `Example`. */
  lemma ExampleLinkRemoved()
    ensures RemoveLinks("[Example](https://x.test/y_z)") == "Example"
  {
    assert "[Example](https://x.test/y_z)" == LinkText("Example", Https, "x.test/y_z") + "";
    RemoveLinksAtLink("Example", Https, "x.test/y_z", "");
  }

  /** Every matched address starts with `(http`. */
  lemma TargetNeedsScheme(t: string)
    requires MatchTarget(t).Some?
    ensures StartsWith(t, "(http")
  {
    var opening := if MatchAddress(t, Https.Opening()).Some? then Https.Opening() else Http.Opening();
    assert StartsWith(t, opening);
    assert t[..5] == opening[..5];
  }

  /** Bracketed text followed by anything other than an `http` or `https` address, with
      no other `[` in it, is kept. */
  lemma NonWebLinkKept(caption: string, t: string)
    requires ']' !in caption && '[' !in caption && '[' !in t && !StartsWith(t, "(http")
    ensures RemoveLinks("[" + (caption + ("]" + t))) == "[" + (caption + ("]" + t))
  {
    if MatchTarget(t).Some? {
      TargetNeedsScheme(t);
    }
    BracketedTextKept(caption, t);
  }

  /** A link to a relative path is kept. */
  lemma RelativeLinkKept()
    ensures RemoveLinks("[Local](./file.md)") == "[Local](./file.md)"
  {
    assert "[Local](./file.md)" == "[" + ("Local" + ("]" + "(./file.md)"));
    assert "(./file.md)"[1] == '.';
    NonWebLinkKept("Local", "(./file.md)");
  }

  /** A link with an empty caption is kept. */
  lemma EmptyCaptionKept()
    ensures RemoveLinks("[](https://x)") == "[](https://x)"
  {
    assert "[](https://x)" == "[" + ("" + ("]" + "(https://x)"));
    BracketedTextKept("", "(https://x)");
  }
}
