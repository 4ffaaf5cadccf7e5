/**
 * The title derived from the file name (`extract_title_from_filename`): the raw stem with
 * `_` and `-` read as spaces, split into words, each all-lowercase word capitalised and
 * every other word kept as it is, joined by single spaces. Case mapping is ASCII.
 */
module Titles {
  import opened TextUtil
  import opened Naming

  predicate IsUpper(c: char) { 'A' <= c <= 'Z' }

  predicate IsLower(c: char) { 'a' <= c <= 'z' }

  function Lower(c: char): char {
    if IsUpper(c) then (c as int + 32) as char else c
  }

  function Upper(c: char): char {
    if IsLower(c) then (c as int - 32) as char else c
  }

  /** `str.lower()`. */
  function ToLower(w: string): (r: string)
    ensures |r| == |w|
  {
    seq(|w|, i requires 0 <= i < |w| => Lower(w[i]))
  }

  predicate HasUpper(w: string) {
    exists i :: 0 <= i < |w| && IsUpper(w[i])
  }

  /** A word equals its lower-case form exactly when it has no upper-case letter. */
  lemma LowerFixedIffNoUpper(w: string)
    ensures ToLower(w) == w <==> !HasUpper(w)
  {
    if HasUpper(w) {
      var i :| 0 <= i < |w| && IsUpper(w[i]);
      assert ToLower(w)[i] != w[i];
    } else {
      assert forall i :: 0 <= i < |w| ==> ToLower(w)[i] == w[i];
    }
  }

  /** `str.capitalize()`: the first character upper-case, the rest lower-case. */
  function Capitalize(w: string): (r: string)
    ensures |r| == |w|
    ensures w != [] ==> r[0] == Upper(w[0])
    ensures forall i :: 1 <= i < |w| ==> r[i] == Lower(w[i])
  {
    if w == [] then [] else [Upper(w[0])] + ToLower(w[1..])
  }

  /** The per-word rule of the loop: all-lowercase words are capitalised, others kept.
      The word keeps its length, and a word with an upper-case letter is kept whole. */
  function SmartCapitalize(w: string): (r: string)
    ensures |r| == |w|
    ensures HasUpper(w) ==> r == w
  {
    LowerFixedIffNoUpper(w);
    if ToLower(w) == w then Capitalize(w) else w
  }

  /** A word with an upper-case letter is kept verbatim; any other word gets only its
      first letter upper-cased. */
  lemma SmartCapitalizeSpec(w: string)
    ensures HasUpper(w) ==> SmartCapitalize(w) == w
    ensures !HasUpper(w) && w != [] ==> SmartCapitalize(w) == [Upper(w[0])] + w[1..]
  {
    LowerFixedIffNoUpper(w);
    if !HasUpper(w) && w != [] {
      assert !HasUpper(w[1..]) by {
        forall i | 0 <= i < |w[1..]| ensures !IsUpper(w[1..][i]) {
          assert w[1..][i] == w[i + 1];
        }
      }
      LowerFixedIffNoUpper(w[1..]);
    }
  }

  /** Two texts of the same length that agree up to the case of letters. */
  predicate SameUpToCase(a: string, b: string) {
    |a| == |b| && forall i :: 0 <= i < |a| ==> Lower(a[i]) == Lower(b[i])
  }

  /** Capitalising changes letters' case and nothing else. */
  lemma SmartCapitalizeOnlyCase(w: string)
    ensures SameUpToCase(SmartCapitalize(w), w)
  {
    var r := SmartCapitalize(w);
    if ToLower(w) == w && w != [] {
      assert Lower(r[0]) == Lower(w[0]);
      forall i | 1 <= i < |w| ensures Lower(r[i]) == Lower(w[i]) {
        assert r[i] == ToLower(w[1..])[i - 1];
      }
    }
  }

  /** Characters that are not letters survive a change of case only as themselves. */
  lemma SameUpToCaseKeepsOthers(a: string, b: string, i: nat)
    requires SameUpToCase(a, b) && i < |a|
    requires !IsUpper(b[i]) && !IsLower(b[i])
    ensures a[i] == b[i]
  {
    assert Lower(a[i]) == b[i];
  }

  /** `str.replace(from, to)` for single characters. */
  function ReplaceChar(s: string, from: char, to: char): (r: string)
    ensures |r| == |s|
    ensures forall i :: 0 <= i < |s| && s[i] == from ==> r[i] == to
    ensures forall i :: 0 <= i < |s| && s[i] != from ==> r[i] == s[i]
  {
    seq(|s|, i requires 0 <= i < |s| => if s[i] == from then to else s[i])
  }

  /** The raw stem with `_` and then `-` replaced by spaces. */
  function Spaced(s: string): (r: string)
    ensures '_' !in r && '-' !in r
    ensures |r| == |s|
    ensures forall i :: 0 <= i < |s| && (s[i] == '_' || s[i] == '-') ==> r[i] == ' '
    ensures forall i :: 0 <= i < |s| && s[i] != '_' && s[i] != '-' ==> r[i] == s[i]
  {
    ReplaceChar(ReplaceChar(s, '_', ' '), '-', ' ')
  }

  /** A word as `str.split()` produces it: non-empty and without whitespace. */
  predicate IsWord(w: string) {
    w != [] && forall i :: 0 <= i < |w| ==> !IsWhitespace(w[i])
  }

  /** The length of the leading run of non-whitespace. */
  function WordEnd(s: string): (k: nat)
    ensures k <= |s|
    ensures forall i :: 0 <= i < k ==> !IsWhitespace(s[i])
    ensures k < |s| ==> IsWhitespace(s[k])
  {
    if s == [] || IsWhitespace(s[0]) then 0 else 1 + WordEnd(s[1..])
  }

  /** `str.split()` without arguments: the maximal runs of non-whitespace. */
  function Words(s: string): (ws: seq<string>)
    ensures forall i :: 0 <= i < |ws| ==> IsWord(ws[i])
    decreases |s|
  {
    if s == [] then []
    else if IsWhitespace(s[0]) then Words(s[1..])
    else
      var k := WordEnd(s);
      [s[..k]] + Words(s[k..])
  }

  /** The run of non-whitespace ends at the first whitespace. */
  lemma {:induction false} WordEndIs(s: string, k: nat)
    requires k <= |s|
    requires forall i :: 0 <= i < k ==> !IsWhitespace(s[i])
    requires k < |s| ==> IsWhitespace(s[k])
    ensures WordEnd(s) == k
    decreases k
  {
    if k > 0 {
      WordEndIs(s[1..], k - 1);
    }
  }

  /** Leading whitespace yields no word: the words are those of what follows it. */
  lemma {:induction false} WordsSkipWhitespace(ws: string, t: string)
    requires AllWhitespace(ws)
    ensures Words(ws + t) == Words(t)
    decreases |ws|
  {
    if ws != [] {
      assert (ws + t)[1..] == ws[1..] + t;
      WordsSkipWhitespace(ws[1..], t);
    } else {
      assert ws + t == t;
    }
  }

  /** A word followed by whitespace or the end is the first word of the text, and the
      rest are the words of what follows it. Together with `WordsSkipWhitespace` this
      determines the words of every text. */
  lemma WordsOfWordThen(w: string, t: string)
    requires IsWord(w) && (t == [] || IsWhitespace(t[0]))
    ensures Words(w + t) == [w] + Words(t)
  {
    var s := w + t;
    WordEndIs(s, |w|);
    assert s[..|w|] == w;
    assert s[|w|..] == t;
  }

  /** A word followed by a space is the first word of the text. */
  lemma WordsAfterWord(w: string, rest: string)
    requires IsWord(w)
    ensures Words(w + (" " + rest)) == [w] + Words(rest)
  {
    WordsOfWordThen(w, " " + rest);
    WordsSkipWhitespace(" ", rest);
  }

  /** A single word splits to itself. */
  lemma WordsOfWord(w: string)
    requires IsWord(w)
    ensures Words(w) == [w]
  {
    WordsOfWordThen(w, []);
    assert w + [] == w;
  }

  /** Splitting words joined by single spaces gives the words back. */
  lemma {:induction false} WordsOfJoin(ws: seq<string>)
    requires forall i :: 0 <= i < |ws| ==> IsWord(ws[i])
    ensures Words(Join(ws, " ")) == ws
    decreases |ws|
  {
    if |ws| == 1 {
      WordsOfWord(ws[0]);
    } else if |ws| > 1 {
      var rest := Join(ws[1..], " ");
      assert Join(ws, " ") == ws[0] + (" " + rest);
      WordsAfterWord(ws[0], rest);
      WordsOfJoin(ws[1..]);
      assert ws == [ws[0]] + ws[1..];
    }
  }

  /** A character absent from the text is absent from its words. */
  lemma {:induction false} WordsOmit(s: string, c: char)
    requires c !in s
    ensures forall i :: 0 <= i < |Words(s)| ==> c !in Words(s)[i]
    decreases |s|
  {
    if s != [] {
      if IsWhitespace(s[0]) {
        WordsOmit(s[1..], c);
      } else {
        var k := WordEnd(s);
        WordsOmit(s[k..], c);
        assert Words(s) == [s[..k]] + Words(s[k..]);
      }
    }
  }

  /** The loop's result: every word passed through the per-word rule. */
  function SmartWords(ws: seq<string>): (r: seq<string>)
    ensures |r| == |ws|
  {
    seq(|ws|, i requires 0 <= i < |ws| => SmartCapitalize(ws[i]))
  }

  /** The title built from a raw stem. */
  function TitleOfRaw(raw: string): string {
    Join(SmartWords(Words(Spaced(raw))), " ")
  }

  /** What `extract_title_from_filename` returns: no `_` or `-`, and single spaces
      between words only. */
  function Title(filename: string): (title: string)
    ensures '_' !in title && '-' !in title
    ensures SingleSpaced(title)
  {
    TitleIsClean(RawStem(filename));
    TitleOfRaw(RawStem(filename))
  }

  /** The loop of `extract_title_from_filename`: the words collected one by one in a
      list, each through the per-word rule. */
  method CapitalizeWords(words: seq<string>) returns (titleWords: seq<string>)
    ensures titleWords == SmartWords(words)
  {
    titleWords := [];
    var i := 0;
    while i < |words|
      invariant 0 <= i <= |words|
      invariant |titleWords| == i
      invariant forall j :: 0 <= j < i ==> titleWords[j] == SmartCapitalize(words[j])
    {
      var word := words[i];
      if ToLower(word) == word {
        titleWords := titleWords + [Capitalize(word)];
      } else {
        titleWords := titleWords + [word];
      }
      i := i + 1;
    }
  }

  /** `extract_title_from_filename`: the raw stem with `_` and `-` replaced by spaces, split
      into words, the words passed through the loop and joined by spaces. */
  method ExtractTitleFromFilename(filename: string) returns (title: string)
    ensures title == Title(filename)
  {
    var titleRaw := RawStem(filename);
    titleRaw := Spaced(titleRaw);
    var words := Words(titleRaw);
    var titleWords := CapitalizeWords(words);
    title := Join(titleWords, " ");
  }

  /** No whitespace but single spaces between non-whitespace characters. */
  predicate SingleSpaced(s: string) {
    forall i :: 0 <= i < |s| && IsWhitespace(s[i]) ==>
      s[i] == ' ' && 0 < i < |s| - 1 && !IsWhitespace(s[i - 1]) && !IsWhitespace(s[i + 1])
  }

  /** Words joined by single spaces are single-spaced. */
  lemma {:induction false} JoinSingleSpaced(ws: seq<string>)
    requires forall i :: 0 <= i < |ws| ==> IsWord(ws[i])
    ensures SingleSpaced(Join(ws, " "))
    decreases |ws|
  {
    if |ws| > 1 {
      var w, rest := ws[0], Join(ws[1..], " ");
      var s := Join(ws, " ");
      assert s == w + " " + rest;
      JoinSingleSpaced(ws[1..]);
      JoinStartsWithFirst(ws[1..], " ");
      assert rest[0] == ws[1][0];
      forall i | 0 <= i < |s| && IsWhitespace(s[i])
        ensures s[i] == ' ' && 0 < i < |s| - 1 && !IsWhitespace(s[i - 1]) && !IsWhitespace(s[i + 1])
      {
        if i > |w| {
          assert s[i] == rest[i - |w| - 1];
          assert s[i - 1] == rest[i - |w| - 2];
          assert i + 1 < |s| ==> s[i + 1] == rest[i - |w|];
        } else {
          assert i == |w|;
        }
      }
    }
  }

  /** A character other than the space that no word holds is not in their join. */
  lemma {:induction false} JoinOmits(ws: seq<string>, c: char)
    requires c != ' '
    requires forall i :: 0 <= i < |ws| ==> c !in ws[i]
    ensures c !in Join(ws, " ")
    decreases |ws|
  {
    if |ws| > 1 {
      JoinOmits(ws[1..], c);
    }
  }

  /** The per-word rule keeps words words, and keeps out a non-letter they lack. */
  lemma SmartWordsAreWords(ws: seq<string>, c: char)
    requires forall i :: 0 <= i < |ws| ==> IsWord(ws[i]) && c !in ws[i]
    requires !IsUpper(c) && !IsLower(c)
    ensures forall i :: 0 <= i < |ws| ==> IsWord(SmartWords(ws)[i]) && c !in SmartWords(ws)[i]
  {
    forall i | 0 <= i < |ws| ensures IsWord(SmartWords(ws)[i]) && c !in SmartWords(ws)[i] {
      var w, r := ws[i], SmartWords(ws)[i];
      SmartCapitalizeOnlyCase(w);
      forall j | 0 <= j < |r| ensures !IsWhitespace(r[j]) && r[j] != c {
        if IsUpper(w[j]) || IsLower(w[j]) {
          assert IsUpper(Lower(r[j])) == false;
          assert IsLower(Lower(r[j]));
        } else {
          SameUpToCaseKeepsOthers(r, w, j);
        }
      }
    }
  }

  /** The title has no `_` or `-`, no leading, trailing or repeated spaces, and no other
      whitespace. */
  lemma TitleIsClean(raw: string)
    ensures '_' !in TitleOfRaw(raw) && '-' !in TitleOfRaw(raw)
    ensures SingleSpaced(TitleOfRaw(raw))
  {
    var spaced := Spaced(raw);
    var words := Words(spaced);
    WordsOmit(spaced, '_');
    WordsOmit(spaced, '-');
    SmartWordsAreWords(words, '_');
    SmartWordsAreWords(words, '-');
    JoinOmits(SmartWords(words), '_');
    JoinOmits(SmartWords(words), '-');
    JoinSingleSpaced(SmartWords(words));
  }

  /** The words of the title are the words of the spaced raw stem, each through the
      per-word rule. */
  lemma TitleWords(filename: string)
    ensures Words(Title(filename)) == SmartWords(Words(Spaced(RawStem(filename))))
  {
    var spaced := Spaced(RawStem(filename));
    var words := Words(spaced);
    WordsOmit(spaced, '_');
    SmartWordsAreWords(words, '_');
    WordsOfJoin(SmartWords(words));
  }

  lemma SpacedMixed()
    ensures Spaced("Make_tRNAs") == "Make tRNAs"
  {
  }

  lemma WordsMixed()
    ensures Words("Make tRNAs") == ["Make", "tRNAs"]
  {
    var ws := ["Make", "tRNAs"];
    assert Join(ws, " ") == "Make tRNAs";
    WordsOfJoin(ws);
  }

  lemma SmartWordsMixed()
    ensures SmartWords(["Make", "tRNAs"]) == ["Make", "tRNAs"]
  {
    assert IsUpper("Make"[0]) && IsUpper("tRNAs"[1]);
    SmartCapitalizeSpec("Make");
    SmartCapitalizeSpec("tRNAs");
  }

  /** Mixed-case words are kept: `Make_tRNAs` becomes `Make tRNAs`. */
  lemma MixedCaseExample()
    ensures TitleOfRaw("Make_tRNAs") == "Make tRNAs"
  {
    SpacedMixed();
    WordsMixed();
    SmartWordsMixed();
    assert Join(["Make", "tRNAs"], " ") == "Make tRNAs";
  }

  lemma SpacedLower()
    ensures Spaced("some_file_name") == "some file name"
  {
  }

  lemma WordsLower()
    ensures Words("some file name") == ["some", "file", "name"]
  {
    var ws := ["some", "file", "name"];
    assert Join(ws, " ") == "some file name";
    WordsOfJoin(ws);
  }

  /** An all-lowercase word gets its first letter upper-cased. */
  lemma CapitalizeLower(w: string, first: char)
    requires w != [] && first == Upper(w[0])
    requires forall i :: 0 <= i < |w| ==> !IsUpper(w[i])
    ensures SmartCapitalize(w) == [first] + w[1..]
  {
    SmartCapitalizeSpec(w);
  }

  lemma SmartWordsLower()
    ensures SmartWords(["some", "file", "name"]) == ["Some", "File", "Name"]
  {
    var ws := ["some", "file", "name"];
    CapitalizeLower(ws[0], 'S');
    CapitalizeLower(ws[1], 'F');
    CapitalizeLower(ws[2], 'N');
    assert ['S'] + ws[0][1..] == "Some";
    assert ['F'] + ws[1][1..] == "File";
    assert ['N'] + ws[2][1..] == "Name";
  }

  /** All-lowercase words are capitalised: `some_file_name` becomes `Some File Name`. */
  lemma LowercaseExample()
    ensures TitleOfRaw("some_file_name") == "Some File Name"
  {
    SpacedLower();
    WordsLower();
    SmartWordsLower();
    JoinCapitalized();
  }

  lemma JoinCapitalized()
    ensures Join(["Some", "File", "Name"], " ") == "Some File Name"
  {
  }

  lemma DocumentedName(filename: string)
    requires filename == "process-Make_tRNAs.md"
    ensures filename == ProcessHyphen + ("Make_tRNAs" + ("." + "md"))
  {
  }

  lemma DocumentedRawStem(filename: string)
    requires filename == ProcessHyphen + ("Make_tRNAs" + ("." + "md"))
    ensures RawStem(filename) == "Make_tRNAs"
  {
    RawStemOfPrefixed(ProcessHyphen, "Make_tRNAs", "md");
  }

  /** The documented example: `process-Make_tRNAs.md` is titled `Make tRNAs`. */
  lemma DocumentedExample(filename: string)
    requires filename == "process-Make_tRNAs.md"
    ensures Title(filename) == "Make tRNAs"
  {
    DocumentedName(filename);
    DocumentedRawStem(filename);
    MixedCaseExample();
  }
}
