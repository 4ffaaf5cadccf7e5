/**
 * The directive stripper: MyST directive blocks fenced by four colons are removed, then
 * those fenced by three, then every run of three or more line feeds becomes two.
 *
 * Each removal is the regular-expression substitution `FENCE\{[^}]*\}[^\n]*\n.*?\nFENCE`
 * (dot matching line feeds) written out as a scan: at each position the pattern is tried
 * against the rest of the text; on a match the matched text is dropped and the scan
 * resumes after it, otherwise one character is kept. The pattern has no anchors and
 * cannot match the empty text, so this is the leftmost, non-overlapping substitution.
 */
module Directives {
  import opened Wrappers
  import opened TextUtil

  /** The two fence widths, in the order they are stripped. */
  datatype Fence = Four | Three {
    function Colons(): string {
      if this == Four then "::::" else ":::"
    }

    /** The opening: the fence and the brace that starts the directive name. */
    function Open(): string {
      Colons() + "{"
    }

    /** The closing fence together with the line feed before it. */
    function Close(): string {
      "\n" + Colons()
    }
  }

  /** A directive block: the opening, a name free of `}`, `}`, the rest of the opening
      line, its line feed, a body, and the closing fence. */
  function Block(f: Fence, name: string, rest: string, body: string): string {
    f.Open() + (name + ("}" + (rest + ("\n" + (body + f.Close())))))
  }

  /** The pattern matches exactly such a block: the name stops at the first `}`, the
      opening line at the first line feed, and the body at the first closing fence
      that begins after that line feed (the shortest match). */
  predicate WellFormed(f: Fence, name: string, rest: string, body: string) {
    && '}' !in name
    && '\n' !in rest
    && ShortestBody(body, f.Close())
  }

  /** The length of the block the pattern matches at the head of `s`, if any. */
  function MatchBlock(s: string, f: Fence): (r: Option<nat>)
    ensures r.Some? ==> |f.Open()| < r.value <= |s|
  {
    MatchFenced(s, f.Open(), f.Close())
  }

  /** The pattern with opening `open` and closing `close`, tried at the head of `s`. */
  function MatchFenced(s: string, open: string, close: string): (r: Option<nat>)
    ensures r.Some? ==> |open| < r.value <= |s|
  {
    if !StartsWith(s, open) then None
    else
      match MatchAfterOpen(s[|open|..], close)
      case None => None
      case Some(n) => Some(|open| + n)
  }

  /** After the opening: `[^}]*\}`, the name and its closing brace. */
  function MatchAfterOpen(t: string, close: string): (r: Option<nat>)
    ensures r.Some? ==> 0 < r.value <= |t|
  {
    var nameEnd := IndexOf(t, '}');
    if nameEnd == |t| then None
    else
      match MatchAfterName(t[nameEnd + 1..], close)
      case None => None
      case Some(n) => Some(nameEnd + 1 + n)
  }

  /** After the name: `[^\n]*\n`, the rest of the opening line, then `.*?\nFENCE`, the
      shortest body up to a closing fence. */
  function MatchAfterName(u: string, close: string): (r: Option<nat>)
    ensures r.Some? ==> 0 < r.value <= |u|
  {
    var lineEnd := IndexOf(u, '\n');
    if lineEnd == |u| then None
    else
      match Find(u[lineEnd + 1..], close)
      case None => None
      case Some(q) => Some(lineEnd + 1 + q + |close|)
  }

  /** The body runs up to the first closing fence and no further. */
  predicate ShortestBody(body: string, close: string) {
    Find(body + close, close) == Some(|body|)
  }

  /** What a successful `MatchAfterName` consists of: the rest of the line up to the
      first line feed, and the first closing fence after it. */
  lemma AfterNameParts(u: string, close: string, n: nat) returns (k: nat, q: nat)
    requires MatchAfterName(u, close) == Some(n)
    ensures k < |u| && u[k] == '\n' && '\n' !in u[..k]
    ensures Find(u[k + 1..], close) == Some(q) && n == k + 1 + q + |close|
  {
    k := IndexOf(u, '\n');
    assert k != |u|;
    var r := Find(u[k + 1..], close);
    assert r.Some?;
    q := r.value;
  }

  /** The text before the first closing fence is a shortest body. */
  lemma BodyBeforeClose(tail: string, close: string, q: nat)
    requires Find(tail, close) == Some(q)
    ensures q + |close| <= |tail| && ShortestBody(tail[..q], close)
    ensures tail[..q + |close|] == tail[..q] + close
  {
    assert tail[..q + |close|] == tail[..q] + tail[q..q + |close|];
    FindPrefix(tail, close, q, q + |close|);
  }

  /** A match after the name splits into the rest of the line, a line feed, and a body
      ending at its first closing fence. */
  lemma AfterNameSound(u: string, close: string, n: nat) returns (rest: string, body: string)
    requires MatchAfterName(u, close) == Some(n)
    ensures '\n' !in rest && ShortestBody(body, close)
    ensures u[..n] == rest + ("\n" + (body + close))
  {
    var k, q := AfterNameParts(u, close, n);
    var tail := u[k + 1..];
    BodyBeforeClose(tail, close, q);
    CutAround(u, k, q + |close|);
    rest, body := u[..k], tail[..q];
  }

  /** What a successful `MatchAfterOpen` consists of: the name up to the first `}`, and
      the match after it. */
  lemma AfterOpenParts(t: string, close: string, n: nat) returns (k: nat, m: nat)
    requires MatchAfterOpen(t, close) == Some(n)
    ensures k < |t| && t[k] == '}' && '}' !in t[..k]
    ensures MatchAfterName(t[k + 1..], close) == Some(m) && n == k + 1 + m
  {
    k := IndexOf(t, '}');
    assert k != |t|;
    var r := MatchAfterName(t[k + 1..], close);
    assert r.Some?;
    m := r.value;
  }

  /** A match after the opening splits into a name, its brace, and what follows it. */
  lemma AfterOpenSound(t: string, close: string, n: nat) returns (name: string, rest: string, body: string)
    requires MatchAfterOpen(t, close) == Some(n)
    ensures '}' !in name && '\n' !in rest && ShortestBody(body, close)
    ensures t[..n] == name + ("}" + (rest + ("\n" + (body + close))))
  {
    var k, m := AfterOpenParts(t, close, n);
    rest, body := AfterNameSound(t[k + 1..], close, m);
    CutAround(t, k, m);
    name := t[..k];
  }

  lemma FencedSound(s: string, open: string, close: string, n: nat)
    returns (name: string, rest: string, body: string)
    requires MatchFenced(s, open, close) == Some(n)
    ensures '}' !in name && '\n' !in rest && ShortestBody(body, close)
    ensures s[..n] == open + (name + ("}" + (rest + ("\n" + (body + close)))))
  {
    var t := s[|open|..];
    var m := MatchAfterOpen(t, close).value;
    name, rest, body := AfterOpenSound(t, close, m);
    assert s == open + t;
    PrefixOfAppend(open, t, m);
  }

  /** Every match is a well-formed block. */
  lemma MatchBlockSound(s: string, f: Fence)
    requires MatchBlock(s, f).Some?
    ensures exists name, rest, body ::
              WellFormed(f, name, rest, body) && s[..MatchBlock(s, f).value] == Block(f, name, rest, body)
  {
    var name, rest, body := FencedSound(s, f.Open(), f.Close(), MatchBlock(s, f).value);
    assert WellFormed(f, name, rest, body);
  }

  lemma AfterNameComplete(rest: string, body: string, close: string, post: string)
    requires '\n' !in rest && ShortestBody(body, close)
    ensures MatchAfterName(rest + ("\n" + ((body + close) + post)), close)
            == Some(|rest| + 1 + |body| + |close|)
  {
    var w := (body + close) + post;
    var u := rest + ("\n" + w);
    IndexOfIs(u, '\n', |rest|);
    assert u[|rest| + 1..] == w;
    FindExtend(body + close, post, close, |body|);
  }

  /** The first `}` after a name without one is the one that follows it. */
  lemma BraceAfterName(name: string, u: string)
    requires '}' !in name
    ensures IndexOf(name + ("}" + u), '}') == |name|
    ensures (name + ("}" + u))[|name| + 1..] == u
  {
    IndexOfIs(name + ("}" + u), '}', |name|);
  }

  lemma AfterBrace(name: string, u: string, close: string, n: nat, t: string)
    requires t == name + ("}" + u) && '}' !in name
    requires MatchAfterName(u, close) == Some(n)
    ensures MatchAfterOpen(t, close) == Some(|name| + 1 + n)
  {
    BraceAfterName(name, u);
  }

  lemma AfterOpenComplete(name: string, rest: string, body: string, close: string, post: string)
    requires '}' !in name && '\n' !in rest && ShortestBody(body, close)
    ensures MatchAfterOpen(name + ("}" + (rest + ("\n" + ((body + close) + post)))), close)
            == Some(|name| + 1 + |rest| + 1 + |body| + |close|)
  {
    var u := rest + ("\n" + ((body + close) + post));
    var n := |rest| + 1 + |body| + |close|;
    AfterNameComplete(rest, body, close, post);
    AfterBrace(name, u, close, n, name + ("}" + u));
  }

  /** `open + name + "}" + rest + "\n" + body + close + post`, regrouped from the
      innermost piece outwards. */
  lemma Regroup(open: string, name: string, rest: string, body: string, close: string, post: string)
    ensures (open + (name + ("}" + (rest + ("\n" + (body + close)))))) + post
            == open + (name + ("}" + (rest + ("\n" + ((body + close) + post)))))
  {
    var v := body + close;
    var w := "\n" + v;
    var z := rest + w;
    var y := "}" + z;
    var x := name + y;
    assert w + post == "\n" + (v + post);
    assert z + post == rest + (w + post);
    assert y + post == "}" + (z + post);
    assert x + post == name + (y + post);
    assert (open + x) + post == open + (x + post);
  }

  /** An opening followed by a match of the rest is a match of the whole. */
  lemma FencedComplete(open: string, t: string, close: string, m: nat)
    requires MatchAfterOpen(t, close) == Some(m)
    ensures MatchFenced(open + t, open, close) == Some(|open| + m)
  {
    assert (open + t)[..|open|] == open;
    assert (open + t)[|open|..] == t;
  }

  lemma AfterOpenUnclosed(name: string, rest: string, w: string, close: string)
    requires '}' !in name && '\n' !in rest
    requires forall i: nat :: !OccursAt(w, close, i)
    ensures MatchAfterOpen(name + ("}" + (rest + ("\n" + w))), close) == None
  {
    var u := rest + ("\n" + w);
    var t := name + ("}" + u);
    IndexOfIs(t, '}', |name|);
    assert t[|name| + 1..] == u;
    IndexOfIs(u, '\n', |rest|);
    assert u[|rest| + 1..] == w;
  }

  /** An opening whose line is followed at once by the closing fence does not match
      unless a later closing fence exists: the close must begin after the opening
      line's line feed. */
  lemma EmptyBodyNotClosed(f: Fence, name: string, rest: string, post: string)
    requires '}' !in name && '\n' !in rest
    requires forall i: nat :: !OccursAt(f.Colons() + post, f.Close(), i)
    ensures MatchBlock(f.Open() + (name + ("}" + (rest + ("\n" + (f.Colons() + post))))), f) == None
  {
    FencedUnclosed(f.Open(), name, rest, f.Colons() + post, f.Close());
  }

  lemma FencedUnclosed(open: string, name: string, rest: string, w: string, close: string)
    requires '}' !in name && '\n' !in rest
    requires forall i: nat :: !OccursAt(w, close, i)
    ensures MatchFenced(open + (name + ("}" + (rest + ("\n" + w)))), open, close) == None
  {
    var t := name + ("}" + (rest + ("\n" + w)));
    var s := open + t;
    assert s[..|open|] == open;
    assert s[|open|..] == t;
    AfterOpenUnclosed(name, rest, w, close);
  }

  /** One substitution pass: every block of width `f` removed, leftmost first. Removal
      never lengthens the text. */
  function StripBlocks(s: string, f: Fence): (r: string)
    ensures |r| <= |s|
  {
    StripFenced(s, f.Open(), f.Close())
  }

  /** The pass for the pattern with opening `open` and closing `close`. */
  function StripFenced(s: string, open: string, close: string): (r: string)
    ensures |r| <= |s|
    decreases |s|
  {
    if s == [] then []
    else
      match MatchFenced(s, open, close)
      case Some(e) => StripFenced(s[e..], open, close)
      case None => [s[0]] + StripFenced(s[1..], open, close)
  }

  /** A match at the head of the text is removed, and the scan goes on after it. */
  lemma StripAtMatch(s: string, open: string, close: string, n: nat, post: string)
    requires MatchFenced(s, open, close) == Some(n) && s[n..] == post
    ensures StripFenced(s, open, close) == StripFenced(post, open, close)
  {
  }

  lemma StripAtOpen(open: string, close: string, t: string, m: nat, post: string)
    requires MatchAfterOpen(t, close) == Some(m) && t[m..] == post
    ensures StripFenced(open + t, open, close) == StripFenced(post, open, close)
  {
    FencedComplete(open, t, close, m);
    DropAppended(open, t, m);
    StripAtMatch(open + t, open, close, |open| + m, post);
  }

  /** The text after a block's closing fence. */
  lemma AfterBlock(name: string, rest: string, body: string, close: string, post: string)
    ensures (name + ("}" + (rest + ("\n" + ((body + close) + post)))))[|name| + 1 + |rest| + 1 + |body| + |close|..]
            == post
  {
    var t := name + ("}" + (rest + ("\n" + ((body + close) + post))));
    var n := |name| + 1 + |rest| + 1 + |body| + |close|;
    assert t == (name + ("}" + (rest + ("\n" + (body + close))))) + post;
  }

  lemma StripAtBlock(open: string, name: string, rest: string, body: string, close: string, post: string)
    requires '}' !in name && '\n' !in rest && ShortestBody(body, close)
    ensures StripFenced((open + (name + ("}" + (rest + ("\n" + (body + close)))))) + post, open, close)
            == StripFenced(post, open, close)
  {
    var t := name + ("}" + (rest + ("\n" + ((body + close) + post))));
    Regroup(open, name, rest, body, close, post);
    AfterOpenComplete(name, rest, body, close, post);
    AfterBlock(name, rest, body, close, post);
    StripAtOpen(open, close, t, |name| + 1 + |rest| + 1 + |body| + |close|, post);
  }

  /** A block at the head of the text is removed whole and the scan goes on after it. */
  lemma StripBlocksAtBlock(f: Fence, name: string, rest: string, body: string, post: string)
    requires WellFormed(f, name, rest, body)
    ensures StripBlocks(Block(f, name, rest, body) + post, f) == StripBlocks(post, f)
  {
    StripAtBlock(f.Open(), name, rest, body, f.Close(), post);
  }

  /** A body without line feeds ends at the closing fence that follows it. */
  lemma SingleLineBody(body: string, f: Fence)
    requires '\n' !in body
    ensures ShortestBody(body, f.Close())
  {
    var s, close := body + f.Close(), f.Close();
    assert s[|body|..] == close;
    forall i: nat | i < |body| ensures !OccursAt(s, close, i) {
      if i + |close| <= |s| {
        assert s[i..i + |close|][0] == s[i] == body[i];
      }
    }
    FindIs(s, close, |body|);
  }

  /** Where no opening begins, the pass keeps the character and moves on. */
  lemma StripKeptChar(c: char, u: string, open: string, close: string)
    requires !OccursAt([c] + u, open, 0)
    ensures StripFenced([c] + u, open, close) == [c] + StripFenced(u, open, close)
  {
    var s := [c] + u;
    assert !StartsWith(s, open);
    assert s[1..] == u;
  }

  /** One kept character in front of a prefix already known to be kept. */
  lemma StripKeepsOneMore(gap: string, rest: string, open: string, close: string)
    requires gap != [] && !OccursAt(gap + rest, open, 0)
    requires StripFenced(gap[1..] + rest, open, close) == gap[1..] + StripFenced(rest, open, close)
    ensures StripFenced(gap + rest, open, close) == gap + StripFenced(rest, open, close)
  {
    var c, tail := gap[0], gap[1..];
    assert gap == [c] + tail;
    assert gap + rest == [c] + (tail + rest);
    StripKeptChar(c, tail + rest, open, close);
  }

  /** Text in front of which no opening begins is kept as it is. */
  lemma {:induction false} StripKeepsPrefix(gap: string, rest: string, open: string, close: string)
    requires forall i: nat :: i < |gap| ==> !OccursAt(gap + rest, open, i)
    ensures StripFenced(gap + rest, open, close) == gap + StripFenced(rest, open, close)
    decreases |gap|
  {
    if gap == [] {
      assert gap + rest == rest;
    } else {
      NoOccurrenceInTail(gap, rest, open);
      StripKeepsPrefix(gap[1..], rest, open, close);
      StripKeepsOneMore(gap, rest, open, close);
    }
  }

  /** Text in front of which no opening begins is kept as it is. */
  lemma StripBlocksKeepsPrefix(gap: string, rest: string, f: Fence)
    requires forall i: nat :: i < |gap| ==> !OccursAt(gap + rest, f.Open(), i)
    ensures StripBlocks(gap + rest, f) == gap + StripBlocks(rest, f)
  {
    StripKeepsPrefix(gap, rest, f.Open(), f.Close());
  }

  /** Text in which the opening never occurs passes a pass unchanged. */
  lemma StripBlocksWithoutOpening(s: string, f: Fence)
    requires forall i: nat :: !OccursAt(s, f.Open(), i)
    ensures StripBlocks(s, f) == s
  {
    assert s + "" == s;
    StripKeepsPrefix(s, "", f.Open(), f.Close());
  }

  /** No three consecutive line feeds. */
  predicate NoTripleNewline(s: string) {
    forall i :: 0 <= i < |s| - 2 ==> !(s[i] == '\n' && s[i + 1] == '\n' && s[i + 2] == '\n')
  }

  /** The length of the run of line feeds at the head of `s`. */
  function LeadingNewlines(s: string): (n: nat)
    ensures n <= |s|
    ensures forall i :: 0 <= i < n ==> s[i] == '\n'
    ensures n < |s| ==> s[n] != '\n'
  {
    if s != [] && s[0] == '\n' then 1 + LeadingNewlines(s[1..]) else 0
  }

  /** The substitution of `\n{3,}` by two line feeds: a run of three or more line feeds
      becomes exactly two, shorter runs and all other characters stay. */
  function CollapseBlankLines(s: string): (r: string)
    ensures NoTripleNewline(r)
    ensures |r| <= |s|
    ensures s != [] && s[0] != '\n' ==> r != [] && r[0] == s[0]
    decreases |s|
  {
    if s == [] then []
    else if s[0] != '\n' then [s[0]] + CollapseBlankLines(s[1..])
    else
      var n := LeadingNewlines(s);
      var run := if n >= 3 then "\n\n" else s[..n];
      var r := run + CollapseBlankLines(s[n..]);
      assert forall i :: 0 <= i < |run| ==> run[i] == '\n';
      assert |run| <= 2;
      r
  }

  /** A run of `n` line feeds. */
  function Run(n: nat): (r: string)
    ensures |r| == n && forall i :: 0 <= i < n ==> r[i] == '\n'
  {
    seq(n, _ => '\n')
  }

  /** `LeadingNewlines` is determined by its contract. */
  lemma {:induction false} LeadingNewlinesIs(s: string, n: nat)
    requires n <= |s|
    requires forall i :: 0 <= i < n ==> s[i] == '\n'
    requires n < |s| ==> s[n] != '\n'
    ensures LeadingNewlines(s) == n
    decreases n
  {
    if n > 0 {
      LeadingNewlinesIs(s[1..], n - 1);
    }
  }

  /** A run of three or more line feeds, followed by text that does not start with one,
      becomes exactly two line feeds. */
  lemma CollapseLongRun(n: nat, t: string)
    requires n >= 3 && (t == [] || t[0] != '\n')
    ensures CollapseBlankLines(Run(n) + t) == "\n\n" + CollapseBlankLines(t)
  {
    var s := Run(n) + t;
    LeadingNewlinesIs(s, n);
    assert s[n..] == t;
  }

  /** A run of fewer than three line feeds is kept as it is. */
  lemma CollapseShortRun(n: nat, t: string)
    requires n < 3 && (t == [] || t[0] != '\n')
    ensures CollapseBlankLines(Run(n) + t) == Run(n) + CollapseBlankLines(t)
  {
    var s := Run(n) + t;
    if n == 0 {
      assert s == t;
    } else {
      LeadingNewlinesIs(s, n);
      assert s[..n] == Run(n);
      assert s[n..] == t;
    }
  }

  /** Text without three consecutive line feeds is left as it is. */
  lemma {:induction false} CollapseKeepsClean(s: string)
    requires NoTripleNewline(s)
    ensures CollapseBlankLines(s) == s
    decreases |s|
  {
    if s != [] {
      if s[0] != '\n' {
        CollapseKeepsClean(s[1..]);
        assert s == [s[0]] + s[1..];
      } else {
        var n := LeadingNewlines(s);
        assert 2 < |s| ==> !(s[0] == '\n' && s[1] == '\n' && s[2] == '\n');
        assert n < 3;
        CollapseKeepsClean(s[n..]);
        assert s == s[..n] + s[n..];
      }
    }
  }

  /** Collapsing twice is collapsing once. */
  lemma CollapseIdempotent(s: string)
    ensures CollapseBlankLines(CollapseBlankLines(s)) == CollapseBlankLines(s)
  {
    CollapseKeepsClean(CollapseBlankLines(s));
  }

  /** `s` with every line feed taken out. */
  function WithoutNewlines(s: string): string
    decreases |s|
  {
    if s == [] then []
    else if s[0] == '\n' then WithoutNewlines(s[1..])
    else [s[0]] + WithoutNewlines(s[1..])
  }

  lemma {:induction false} WithoutNewlinesAppend(a: string, b: string)
    ensures WithoutNewlines(a + b) == WithoutNewlines(a) + WithoutNewlines(b)
    decreases |a|
  {
    if a != [] {
      assert (a + b)[1..] == a[1..] + b;
      WithoutNewlinesAppend(a[1..], b);
    } else {
      assert a + b == b;
    }
  }

  lemma {:induction false} WithoutNewlinesOfRun(run: string)
    requires forall i :: 0 <= i < |run| ==> run[i] == '\n'
    ensures WithoutNewlines(run) == []
    decreases |run|
  {
    if run != [] {
      WithoutNewlinesOfRun(run[1..]);
    }
  }

  /** Collapsing changes nothing but the lengths of line-feed runs: every other character
      stays, in order. */
  lemma {:induction false} CollapseKeepsText(s: string)
    ensures WithoutNewlines(CollapseBlankLines(s)) == WithoutNewlines(s)
    decreases |s|
  {
    if s != [] {
      if s[0] != '\n' {
        CollapseKeepsText(s[1..]);
        WithoutNewlinesAppend([s[0]], CollapseBlankLines(s[1..]));
      } else {
        var n := LeadingNewlines(s);
        var run := if n >= 3 then "\n\n" else s[..n];
        CollapseKeepsText(s[n..]);
        WithoutNewlinesAppend(run, CollapseBlankLines(s[n..]));
        WithoutNewlinesOfRun(run);
        WithoutNewlinesAppend(s[..n], s[n..]);
        WithoutNewlinesOfRun(s[..n]);
        assert s == s[..n] + s[n..];
      }
    }
  }

  /** What `remove_myst_directives` returns. */
  function RemoveMystDirectives(s: string): (r: string)
    ensures NoTripleNewline(r)
    ensures |r| <= |s|
  {
    CollapseBlankLines(StripBlocks(StripBlocks(s, Four), Three))
  }

  /** Text with no three-colon opening anywhere (hence no four-colon one either) is
      changed only by collapsing line-feed runs. */
  lemma PlainTextOnlyCollapsed(s: string)
    requires forall i: nat :: !OccursAt(s, Three.Open(), i)
    ensures RemoveMystDirectives(s) == CollapseBlankLines(s)
  {
    forall i: nat ensures !OccursAt(s, Four.Open(), i) {
      if OccursAt(s, Four.Open(), i) {
        assert s[i + 1..i + 5] == s[i..i + 5][1..];
        assert OccursAt(s, Three.Open(), i + 1);
      }
    }
    StripBlocksWithoutOpening(s, Four);
    StripBlocksWithoutOpening(s, Three);
  }

  /** A well-formed four-colon block followed by a well-formed three-colon block are
      both removed, fences included, when no further opening follows. */
  lemma TwoBlocksRemoved(name4: string, rest4: string, body4: string, gap: string,
                         name3: string, rest3: string, body3: string, post: string)
    requires WellFormed(Four, name4, rest4, body4)
    requires WellFormed(Three, name3, rest3, body3)
    requires forall i: nat :: !OccursAt(gap + (Block(Three, name3, rest3, body3) + post), Four.Open(), i)
    requires forall i: nat :: i < |gap| ==> !OccursAt(gap + (Block(Three, name3, rest3, body3) + post), Three.Open(), i)
    requires forall i: nat :: !OccursAt(post, Three.Open(), i)
    ensures RemoveMystDirectives(Block(Four, name4, rest4, body4) + (gap + (Block(Three, name3, rest3, body3) + post)))
            == CollapseBlankLines(gap + post)
  {
    var b3 := Block(Three, name3, rest3, body3);
    StripBlocksAtBlock(Four, name4, rest4, body4, gap + (b3 + post));
    StripBlocksWithoutOpening(gap + (b3 + post), Four);
    StripBlocksKeepsPrefix(gap, b3 + post, Three);
    StripBlocksAtBlock(Three, name3, rest3, body3, post);
    StripBlocksWithoutOpening(post, Three);
  }

  /** A note block and a tip block, separated by a line feed, leave only that line feed. */
  lemma NoteAndTipRemoved()
    ensures RemoveMystDirectives("::::{note}\nbody\n::::\n:::{tip}\nmore\n:::") == "\n"
  {
    NoteAndTipShape();
    SingleLineBody("body", Four);
    SingleLineBody("more", Three);
    TipHasNoOpening();
    TwoBlocksRemoved("note", "", "body", "\n", "tip", "", "more", "");
    assert LeadingNewlines("\n" + "") == 1;
  }

  lemma NoteAndTipShape()
    ensures "::::{note}\nbody\n::::\n:::{tip}\nmore\n:::"
            == Block(Four, "note", "", "body") + ("\n" + (Block(Three, "tip", "", "more") + ""))
  {
  }

  lemma TipHasNoOpening()
    ensures forall i: nat :: !OccursAt("\n" + (Block(Three, "tip", "", "more") + ""), Four.Open(), i)
    ensures forall i: nat :: i < |"\n"| ==> !OccursAt("\n" + (Block(Three, "tip", "", "more") + ""), Three.Open(), i)
  {
    var t := "\n" + (Block(Three, "tip", "", "more") + "");
    assert t == "\n:::{tip}\nmore\n:::";
    forall i: nat ensures !OccursAt(t, Four.Open(), i) {
      if i + 5 <= |t| {
        assert t[i..i + 5][0] == t[i] && t[i..i + 5][4] == t[i + 4];
      }
    }
    assert t[0..4][0] == t[0];
  }
}
