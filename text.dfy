/**
 * The pieces of Python's string library that the script relies on, restricted to what
 * it uses: searching for a character or a substring, `str.split(sep)`, `sep.join(parts)`
 * and `str.strip()`.
 */
module TextUtil {
  import opened Wrappers

  /** Python's `str.isspace()` on ASCII: space, tab, line feed, vertical tab, form feed,
      carriage return and the four separators U+001C..U+001F. */
  predicate IsWhitespace(c: char) {
    c == ' ' || (9 <= c as int <= 13) || (28 <= c as int <= 31)
  }

  predicate AllWhitespace(s: string) {
    forall i :: 0 <= i < |s| ==> IsWhitespace(s[i])
  }

  predicate StartsWith(s: string, prefix: string) {
    |prefix| <= |s| && s[..|prefix|] == prefix
  }

  predicate EndsWith(s: string, suffix: string) {
    |suffix| <= |s| && s[|s| - |suffix|..] == suffix
  }

  /** `pat` occurs in `s` starting at index `i`. */
  predicate OccursAt(s: string, pat: string, i: nat) {
    i + |pat| <= |s| && s[i..i + |pat|] == pat
  }

  /** Occurrences in `s[1..]` are the occurrences in `s` shifted by one. */
  lemma OccursAtTail(s: string, pat: string)
    requires |s| > 0
    ensures forall i: nat :: i >= 1 ==> OccursAt(s, pat, i) == OccursAt(s[1..], pat, i - 1)
  {
    forall i: nat | i >= 1 ensures OccursAt(s, pat, i) == OccursAt(s[1..], pat, i - 1) {
      if i + |pat| <= |s| {
        assert s[1..][i - 1..i - 1 + |pat|] == s[i..i + |pat|];
      }
    }
  }

  /** A text with no occurrence starting inside `gap` keeps that after losing its first
      character. */
  lemma NoOccurrenceInTail(gap: string, rest: string, pat: string)
    requires gap != []
    requires forall i: nat :: i < |gap| ==> !OccursAt(gap + rest, pat, i)
    ensures (gap + rest)[1..] == gap[1..] + rest
    ensures forall i: nat :: i < |gap[1..]| ==> !OccursAt(gap[1..] + rest, pat, i)
  {
    var s := gap + rest;
    assert s[1..] == gap[1..] + rest;
    OccursAtTail(s, pat);
    forall i: nat | i < |gap[1..]| ensures !OccursAt(gap[1..] + rest, pat, i) {
      assert !OccursAt(s, pat, i + 1);
    }
  }

  /** An occurrence that ends inside `s` is unaffected by what is appended. */
  lemma OccursAtAppend(s: string, t: string, pat: string, i: nat)
    requires i + |pat| <= |s|
    ensures OccursAt(s + t, pat, i) == OccursAt(s, pat, i)
  {
    assert (s + t)[i..i + |pat|] == s[i..i + |pat|];
  }

  /** A prefix of `a + b` that covers `a` is `a` followed by a prefix of `b`. */
  lemma PrefixOfAppend(a: string, b: string, k: nat)
    requires k <= |b|
    ensures (a + b)[..|a| + k] == a + b[..k]
  {
  }

  /** Dropping more than `a` from `a + b` drops from `b`. */
  lemma DropAppended(a: string, b: string, m: nat)
    requires m <= |b|
    ensures (a + b)[|a| + m..] == b[m..]
  {
  }

  /** `s` split around its `k`th character. */
  lemma SplitAt(s: string, k: nat)
    requires k < |s|
    ensures s == s[..k] + ([s[k]] + s[k + 1..])
  {
  }

  /** A prefix of `s` reaching past its `k`th character, split around that character. */
  lemma CutAround(s: string, k: nat, m: nat)
    requires k < |s| && k + 1 + m <= |s|
    ensures s[..k + 1 + m] == s[..k] + ([s[k]] + s[k + 1..][..m])
  {
    SplitAt(s, k);
    PrefixOfAppend(s[..k], [s[k]] + s[k + 1..], 1 + m);
    PrefixOfAppend([s[k]], s[k + 1..], m);
  }

  /** Index of the first `c` in `s`, or `|s|` when there is none (`str.find` with the
      not-found case moved to the end). */
  function IndexOf(s: string, c: char): (k: nat)
    ensures k <= |s|
    ensures k < |s| ==> s[k] == c
    ensures c !in s[..k]
  {
    if s == [] then 0
    else if s[0] == c then 0
    else 1 + IndexOf(s[1..], c)
  }

  /** `IndexOf` is determined by its contract. */
  lemma IndexOfIs(s: string, c: char, k: nat)
    requires k <= |s|
    requires k < |s| ==> s[k] == c
    requires forall i :: 0 <= i < k ==> s[i] != c
    ensures IndexOf(s, c) == k
  {
  }

  /** Index of the last `c` in `s` (`str.rfind`). */
  function LastIndexOf(s: string, c: char): (r: Option<nat>)
    ensures r.Some? ==> r.value < |s| && s[r.value] == c
    ensures r.Some? ==> forall i :: r.value < i < |s| ==> s[i] != c
    ensures r.None? ==> c !in s
  {
    if s == [] then None
    else if s[|s| - 1] == c then Some(|s| - 1)
    else LastIndexOf(s[..|s| - 1], c)
  }

  /** `LastIndexOf` is determined by its contract. */
  lemma {:induction false} LastIndexOfIs(s: string, c: char, k: nat)
    requires k < |s| && s[k] == c && c !in s[k + 1..]
    ensures LastIndexOf(s, c) == Some(k)
    decreases |s|
  {
    if k < |s| - 1 {
      assert s[k + 1..][|s| - k - 2] == s[|s| - 1];
      var p := s[..|s| - 1];
      assert p[k + 1..] == s[k + 1..][..|s| - k - 2];
      LastIndexOfIs(p, c, k);
    }
  }

  /** The first occurrence of `pat` in `s` at or after index `from`. */
  function FindFrom(s: string, pat: string, from: nat): (r: Option<nat>)
    requires from <= |s|
    ensures r.Some? ==> from <= r.value && OccursAt(s, pat, r.value)
    ensures r.Some? ==> forall i: nat :: from <= i < r.value ==> !OccursAt(s, pat, i)
    ensures r.None? ==> forall i: nat :: from <= i ==> !OccursAt(s, pat, i)
    decreases |s| - from
  {
    if from + |pat| > |s| then None
    else if OccursAt(s, pat, from) then Some(from)
    else FindFrom(s, pat, from + 1)
  }

  /** The first occurrence of `pat` in `s` (`str.find`). */
  function Find(s: string, pat: string): (r: Option<nat>)
    ensures r.Some? ==> OccursAt(s, pat, r.value)
    ensures r.Some? ==> forall i: nat :: i < r.value ==> !OccursAt(s, pat, i)
    ensures r.None? ==> forall i: nat :: !OccursAt(s, pat, i)
  {
    FindFrom(s, pat, 0)
  }

  /** `Find` is determined by its contract. */
  lemma FindIs(s: string, pat: string, k: nat)
    requires OccursAt(s, pat, k)
    requires forall i: nat :: i < k ==> !OccursAt(s, pat, i)
    ensures Find(s, pat) == Some(k)
  {
  }

  /** The first occurrence stays the first when text is appended after it. */
  lemma FindExtend(s: string, t: string, pat: string, k: nat)
    requires Find(s, pat) == Some(k)
    ensures Find(s + t, pat) == Some(k)
  {
    OccursAtAppend(s, t, pat, k);
    forall i: nat | i < k ensures !OccursAt(s + t, pat, i) {
      OccursAtAppend(s, t, pat, i);
    }
    FindIs(s + t, pat, k);
  }

  /** The first occurrence stays the first in any prefix that still holds it. */
  lemma FindPrefix(s: string, pat: string, k: nat, m: nat)
    requires Find(s, pat) == Some(k)
    requires k + |pat| <= m <= |s|
    ensures Find(s[..m], pat) == Some(k)
  {
    assert s == s[..m] + s[m..];
    OccursAtAppend(s[..m], s[m..], pat, k);
    forall i: nat | i < k ensures !OccursAt(s[..m], pat, i) {
      OccursAtAppend(s[..m], s[m..], pat, i);
    }
    FindIs(s[..m], pat, k);
  }

  /** Python's `s.split(sep)` for a one-character separator: the maximal separator-free
      pieces, including empty ones, so there is always at least one. */
  function Split(s: string, sep: char): (parts: seq<string>)
    ensures |parts| >= 1
    ensures forall i :: 0 <= i < |parts| ==> sep !in parts[i]
    decreases |s|
  {
    var k := IndexOf(s, sep);
    if k == |s| then [s] else [s[..k]] + Split(s[k + 1..], sep)
  }

  /** Python's `sep.join(parts)`. */
  function Join(parts: seq<string>, sep: string): string
  {
    if |parts| == 0 then ""
    else if |parts| == 1 then parts[0]
    else parts[0] + sep + Join(parts[1..], sep)
  }

  /** Joining the pieces of a split gives back the text. */
  lemma {:induction false} JoinSplit(s: string, sep: char)
    ensures Join(Split(s, sep), [sep]) == s
    decreases |s|
  {
    var k := IndexOf(s, sep);
    if k < |s| {
      var rest := Split(s[k + 1..], sep);
      JoinSplit(s[k + 1..], sep);
      assert Split(s, sep) == [s[..k]] + rest;
      assert ([s[..k]] + rest)[1..] == rest;
      assert s == s[..k] + [sep] + s[k + 1..];
    }
  }

  /** Splitting a join of separator-free pieces gives back the pieces. */
  lemma {:induction false} SplitJoin(parts: seq<string>, sep: char)
    requires |parts| >= 1
    requires forall i :: 0 <= i < |parts| ==> sep !in parts[i]
    ensures Split(Join(parts, [sep]), sep) == parts
  {
    if |parts| > 1 {
      var s := Join(parts, [sep]);
      var p := parts[0];
      SplitJoin(parts[1..], sep);
      assert s == p + [sep] + Join(parts[1..], [sep]);
      assert s[|p|] == sep;
      assert forall i :: 0 <= i < |p| ==> s[i] == p[i];
      assert IndexOf(s, sep) == |p|;
      assert s[..|p|] == p;
      assert s[|p| + 1..] == Join(parts[1..], [sep]);
      assert parts == [p] + parts[1..];
    } else {
      assert IndexOf(parts[0], sep) == |parts[0]|;
    }
  }

  /** Joining two non-empty runs of pieces puts one separator between their joins. */
  lemma {:induction false} JoinAppend(a: seq<string>, b: seq<string>, sep: string)
    requires |a| >= 1 && |b| >= 1
    ensures Join(a + b, sep) == Join(a, sep) + sep + Join(b, sep)
  {
    if |a| > 1 {
      JoinAppend(a[1..], b, sep);
      assert (a + b)[1..] == a[1..] + b;
    } else {
      assert (a + b)[1..] == b;
    }
  }

  /** The join of a run of consecutive pieces is a contiguous piece of the whole join. */
  lemma JoinInfix(parts: seq<string>, lo: nat, hi: nat, sep: string)
    requires lo < hi <= |parts|
    ensures exists pre, post :: Join(parts, sep) == pre + Join(parts[lo..hi], sep) + post
  {
    var pre := JoinDropFront(parts, lo, sep);
    var post := JoinDropBack(parts[lo..], hi - lo, sep);
    assert parts[lo..][..hi - lo] == parts[lo..hi];
    assert Join(parts, sep) == pre + Join(parts[lo..hi], sep) + post;
  }

  /** Dropping the first `lo` pieces drops a prefix of the join. */
  lemma JoinDropFront(parts: seq<string>, lo: nat, sep: string) returns (pre: string)
    requires lo < |parts|
    ensures Join(parts, sep) == pre + Join(parts[lo..], sep)
  {
    if lo == 0 {
      pre := "";
      assert parts[lo..] == parts;
    } else {
      JoinAppend(parts[..lo], parts[lo..], sep);
      assert parts[..lo] + parts[lo..] == parts;
      pre := Join(parts[..lo], sep) + sep;
    }
  }

  /** Keeping the first `hi` pieces keeps a prefix of the join. */
  lemma JoinDropBack(parts: seq<string>, hi: nat, sep: string) returns (post: string)
    requires 0 < hi <= |parts|
    ensures Join(parts, sep) == Join(parts[..hi], sep) + post
  {
    if hi == |parts| {
      post := "";
      assert parts[..hi] == parts;
    } else {
      JoinAppend(parts[..hi], parts[hi..], sep);
      assert parts[..hi] + parts[hi..] == parts;
      post := sep + Join(parts[hi..], sep);
    }
  }

  /** A join starts with its first piece. */
  lemma {:induction false} JoinStartsWithFirst(parts: seq<string>, sep: string)
    requires |parts| >= 1
    ensures StartsWith(Join(parts, sep), parts[0])
  {
    if |parts| > 1 {
      assert Join(parts, sep) == parts[0] + (sep + Join(parts[1..], sep));
    }
  }

  /** `s` without its leading whitespace (`str.lstrip()`). */
  function TrimStart(s: string): string
  {
    if s != [] && IsWhitespace(s[0]) then TrimStart(s[1..]) else s
  }

  /** `s` without its trailing whitespace (`str.rstrip()`). */
  function TrimEnd(s: string): string
  {
    if s != [] && IsWhitespace(s[|s| - 1]) then TrimEnd(s[..|s| - 1]) else s
  }

  /** `str.strip()`: the text between the leading and the trailing whitespace. It is an
      infix of the text that neither starts nor ends with whitespace. */
  function Strip(s: string): (r: string)
    ensures |r| <= |s|
    ensures r == [] || (!IsWhitespace(r[0]) && !IsWhitespace(r[|r| - 1]))
  {
    var t := TrimStart(s);
    TrimStartSpec(s);
    TrimEndSpec(t);
    var r := TrimEnd(t);
    assert r != [] ==> r[0] == t[0];
    r
  }

  /** What `TrimStart` removes is a whitespace prefix, and what it keeps does not start
      with whitespace. */
  lemma {:induction false} TrimStartSpec(s: string)
    ensures EndsWith(s, TrimStart(s))
    ensures TrimStart(s) == [] || !IsWhitespace(TrimStart(s)[0])
    ensures AllWhitespace(s[..|s| - |TrimStart(s)|])
  {
    if s != [] && IsWhitespace(s[0]) {
      var p := s[1..];
      var r := TrimStart(p);
      TrimStartSpec(p);
      var k := |p| - |r|;
      assert s[k + 1..] == p[k..];
      var front := s[..k + 1];
      forall i | 0 <= i < |front| ensures IsWhitespace(front[i]) {
        if i > 0 {
          assert front[i] == p[..k][i - 1];
        }
      }
    }
  }

  /** What `TrimEnd` removes is a whitespace suffix, and what it keeps does not end
      with whitespace. */
  lemma {:induction false} TrimEndSpec(s: string)
    ensures StartsWith(s, TrimEnd(s))
    ensures TrimEnd(s) == [] || !IsWhitespace(TrimEnd(s)[|TrimEnd(s)| - 1])
    ensures AllWhitespace(s[|TrimEnd(s)|..])
  {
    if s != [] && IsWhitespace(s[|s| - 1]) {
      var p := s[..|s| - 1];
      var r := TrimEnd(p);
      TrimEndSpec(p);
      assert s[..|r|] == p[..|r|];
      assert s[|r|..] == p[|r|..] + [s[|s| - 1]];
    }
  }

  /** Stripping gives `core` only when the text is `core` padded with whitespace. */
  lemma StripShape(s: string) returns (a: string, b: string)
    ensures AllWhitespace(a) && AllWhitespace(b) && s == a + Strip(s) + b
  {
    var t := TrimStart(s);
    TrimStartSpec(s);
    a := s[..|s| - |t|];
    assert s == a + t by {
      assert s[|s| - |t|..] == t;
    }
    var r := TrimEnd(t);
    TrimEndSpec(t);
    b := t[|r|..];
    assert t == r + b by {
      assert t[..|r|] == r;
    }
  }

  /** Whitespace padding around a `core` that neither starts nor ends with whitespace is
      exactly what stripping removes. */
  lemma StripPadded(a: string, core: string, b: string)
    requires AllWhitespace(a) && AllWhitespace(b)
    requires |core| > 0 && !IsWhitespace(core[0]) && !IsWhitespace(core[|core| - 1])
    ensures Strip(a + core + b) == core
  {
    TrimStartPadded(a, core + b);
    assert a + core + b == a + (core + b);
    TrimEndPadded(core, b);
  }

  lemma {:induction false} TrimStartPadded(a: string, t: string)
    requires AllWhitespace(a)
    requires t != [] && !IsWhitespace(t[0])
    ensures TrimStart(a + t) == t
  {
    if a != [] {
      assert (a + t)[1..] == a[1..] + t;
      TrimStartPadded(a[1..], t);
    }
  }

  lemma {:induction false} TrimEndPadded(t: string, b: string)
    requires AllWhitespace(b)
    requires t != [] && !IsWhitespace(t[|t| - 1])
    ensures TrimEnd(t + b) == t
  {
    if b != [] {
      assert (t + b)[..|t + b| - 1] == t + b[..|b| - 1];
      TrimEndPadded(t, b[..|b| - 1]);
    } else {
      assert t + b == t;
    }
  }
}
