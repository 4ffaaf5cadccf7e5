/**
 * Names derived from the input file name: the raw stem that the title and the PDF name
 * are built from, and the name of the file the script writes (`create_output_filename`).
 */
module Naming {
  import opened Wrappers
  import opened TextUtil
  import opened Paths

  const ProcessHyphen := "process-"
  const ProcessUnderscore := "process_"

  /** A name carries one of the two `process` prefixes, both eight characters long. */
  predicate HasProcessPrefix(name: string) {
    StartsWith(name, ProcessHyphen) || StartsWith(name, ProcessUnderscore)
  }

  /** The stem of the file name (basename without extension) with a leading `process-`
      or `process_` dropped. */
  function RawStem(filename: string): (raw: string)
    ensures '/' !in raw
  {
    var stem := SplitExtRoot(Basename(filename));
    if HasProcessPrefix(stem) then stem[8..] else stem
  }

  /** The stem of the file name is an infix of it: a prefix of its basename. */
  lemma StemInFilename(filename: string) returns (offset: nat)
    ensures offset + |SplitExtRoot(Basename(filename))| <= |filename|
    ensures filename[offset..offset + |SplitExtRoot(Basename(filename))|] == SplitExtRoot(Basename(filename))
  {
    var b := Basename(filename);
    var stem := SplitExtRoot(b);
    offset := |filename| - |b|;
    assert filename[offset..] == b;
    assert b[..|stem|] == stem;
    assert filename[offset..offset + |stem|] == b[..|stem|];
  }

  /** The characters of a slice are characters of the text. */
  lemma SliceChars(s: string, lo: nat, hi: nat)
    requires lo <= hi <= |s|
    ensures forall c :: c in s[lo..hi] ==> c in s
  {
    forall c | c in s[lo..hi] ensures c in s {
      var j :| 0 <= j < hi - lo && s[lo..hi][j] == c;
      assert s[lo + j] == c;
    }
  }

  /** Every character of the raw stem comes from the file name. */
  lemma RawStemFromFilename(filename: string)
    ensures forall c :: c in RawStem(filename) ==> c in filename
  {
    var stem := SplitExtRoot(Basename(filename));
    var offset := StemInFilename(filename);
    var skip := if HasProcessPrefix(stem) then 8 else 0;
    assert RawStem(filename) == stem[skip..];
    assert stem[skip..] == filename[offset + skip..offset + |stem|];
    SliceChars(filename, offset + skip, offset + |stem|);
  }

  /** The raw stem of `process-NAME.EXT` or `process_NAME.EXT` is `NAME`. */
  lemma RawStemOfPrefixed(prefix: string, name: string, ext: string)
    requires prefix == ProcessHyphen || prefix == ProcessUnderscore
    requires '/' !in name && '/' !in ext && '.' !in ext
    ensures RawStem(prefix + (name + ("." + ext))) == name
  {
    var p := prefix + (name + ("." + ext));
    var dot := |prefix| + |name|;
    assert '/' !in p;
    BasenameOfName(p);
    assert p[..dot] == prefix + name && p[dot] == '.' && p[dot + 1..] == ext;
    assert !AllDots(p[..dot]) by {
      assert p[0] == prefix[0] == 'p';
    }
    SplitExtRootAt(p, dot);
    assert (prefix + name)[..8] == prefix && (prefix + name)[8..] == name;
  }

  /** `s.replace(pattern, replacement, 1)`: the first occurrence replaced. Without an
      occurrence the text is unchanged; otherwise the text before the first occurrence is
      kept, the replacement follows it, and the text after the occurrence ends the result. */
  function ReplaceFirst(s: string, pattern: string, replacement: string): (r: string)
    ensures Find(s, pattern).None? ==> r == s
    ensures Find(s, pattern).Some? ==>
              var k := Find(s, pattern).value;
              |r| == |s| - |pattern| + |replacement|
              && StartsWith(r, s[..k] + replacement) && EndsWith(r, s[k + |pattern|..])
  {
    match Find(s, pattern)
    case None => s
    case Some(k) => s[..k] + replacement + s[k + |pattern|..]
  }

  /** When the text starts with the pattern, the replaced occurrence is that one. */
  lemma ReplaceFirstAtStart(s: string, pattern: string, replacement: string)
    requires StartsWith(s, pattern)
    ensures ReplaceFirst(s, pattern, replacement) == replacement + s[|pattern|..]
  {
    FindIs(s, pattern, 0);
  }

  /** The output basename: `process-` becomes `protocol-`, `process_` becomes
      `protocol_`, and any other name gets `protocol-` in front. The name grows and
      starts with `protocol`. */
  function OutputBasename(b: string): (out: string)
    ensures |out| > |b| && StartsWith(out, "protocol")
    ensures '/' !in b ==> '/' !in out
  {
    if StartsWith(b, ProcessHyphen) then
      ReplaceFirstAtStart(b, ProcessHyphen, "protocol-");
      ReplaceFirst(b, ProcessHyphen, "protocol-")
    else if StartsWith(b, ProcessUnderscore) then
      ReplaceFirstAtStart(b, ProcessUnderscore, "protocol_");
      ReplaceFirst(b, ProcessUnderscore, "protocol_")
    else
      assert ("protocol-" + b)[..8] == "protocol";
      "protocol-" + b
  }

  /** Which prefix the output basename gets. */
  lemma OutputBasenameCases(b: string)
    ensures StartsWith(b, ProcessHyphen) ==> OutputBasename(b) == "protocol-" + b[8..]
    ensures StartsWith(b, ProcessUnderscore) ==> OutputBasename(b) == "protocol_" + b[8..]
    ensures !HasProcessPrefix(b) ==> OutputBasename(b) == "protocol-" + b
  {
    if StartsWith(b, ProcessHyphen) {
      ReplaceFirstAtStart(b, ProcessHyphen, "protocol-");
    } else if StartsWith(b, ProcessUnderscore) {
      ReplaceFirstAtStart(b, ProcessUnderscore, "protocol_");
    }
  }

  /** What `create_output_filename` returns: the output basename, in the input's
      directory when it has one. The result ends with the output basename and starts
      with the input's directory. */
  function OutputFilename(input: string): (output: string)
    ensures EndsWith(output, OutputBasename(Basename(input)))
    ensures StartsWith(output, Dirname(input))
  {
    var out := OutputBasename(Basename(input));
    var dir := Dirname(input);
    assert out[0] == "protocol"[0];
    if dir != [] then PathJoin(dir, out) else out
  }

  /** The output path keeps the input's directory and carries the output basename. */
  lemma OutputFilenameParts(input: string)
    ensures Dirname(OutputFilename(input)) == Dirname(input)
    ensures Basename(OutputFilename(input)) == OutputBasename(Basename(input))
  {
    var out := OutputBasename(Basename(input));
    var dir := Dirname(input);
    if dir != [] {
      JoinSplitsBack(dir, out);
    } else {
      BasenameOfName(out);
    }
  }

  /** The script never writes over its input. */
  lemma OutputDiffers(input: string)
    ensures OutputFilename(input) != input
  {
    OutputFilenameParts(input);
  }

  /** Deriving a name again puts another `protocol-` in front of it. */
  lemma OutputBasenameAgain(b: string)
    ensures OutputBasename(OutputBasename(b)) == "protocol-" + OutputBasename(b)
  {
    var out := OutputBasename(b);
    assert out[..8] == "protocol";
    assert out[3] == "protocol"[3];
    OutputBasenameCases(out);
  }

  /** Applied to its own output, the derivation does not stop: the second application
      puts another `protocol-` in front of the basename, so it is not idempotent. */
  lemma OutputFilenameTwice(input: string)
    ensures Dirname(OutputFilename(OutputFilename(input))) == Dirname(input)
    ensures Basename(OutputFilename(OutputFilename(input)))
            == "protocol-" + Basename(OutputFilename(input))
  {
    OutputFilenameParts(input);
    OutputFilenameParts(OutputFilename(input));
    OutputBasenameAgain(Basename(input));
  }

  /** A name without a directory stays without one. */
  lemma OutputFilenameOfName(b: string)
    requires '/' !in b
    ensures OutputFilename(b) == OutputBasename(b)
  {
    BasenameOfName(b);
  }

  /** A `process-` name becomes the `protocol-` name with the same rest. */
  lemma HyphenName(rest: string)
    requires '/' !in rest
    ensures OutputFilename(ProcessHyphen + rest) == "protocol-" + rest
  {
    var b := ProcessHyphen + rest;
    assert b[..8] == ProcessHyphen && b[8..] == rest;
    OutputFilenameOfName(b);
    OutputBasenameCases(b);
  }

  /** A `process_` name becomes the `protocol_` name with the same rest. */
  lemma UnderscoreName(rest: string)
    requires '/' !in rest
    ensures OutputFilename(ProcessUnderscore + rest) == "protocol_" + rest
  {
    var b := ProcessUnderscore + rest;
    assert b[..8] == ProcessUnderscore && b[8..] == rest;
    OutputFilenameOfName(b);
    OutputBasenameCases(b);
  }

  /** A path in a directory is put in the same directory. */
  lemma OutputFilenameInDirectory(input: string)
    requires Dirname(input) != []
    ensures OutputFilename(input) == PathJoin(Dirname(input), OutputBasename(Basename(input)))
  {
  }

  /** Joining a directory that does not end in `/` with a relative name puts one `/`
      between them. */
  lemma JoinWithSlash(dir: string, name: string)
    requires dir != [] && dir[|dir| - 1] != '/' && '/' !in name
    ensures PathJoin(dir, name) == dir + "/" + name
  {
    if name != [] {
      assert name[..1][0] == name[0];
    }
  }

  /** A name without a `process` prefix in a directory gets `protocol-` in front and
      stays in that directory. */
  lemma PlainNameInDirectory(dir: string, name: string)
    requires dir != [] && dir[|dir| - 1] != '/' && '/' !in name
    requires !HasProcessPrefix(name)
    ensures OutputFilename(dir + "/" + name) == dir + "/" + ("protocol-" + name)
  {
    var input := dir + "/" + name;
    JoinWithSlash(dir, name);
    JoinSplitsBack(dir, name);
    OutputFilenameInDirectory(input);
    OutputBasenameCases(name);
    JoinWithSlash(dir, "protocol-" + name);
  }
  /** The documented pieces of `process-some_file_name.md`. */
  lemma HyphenExampleParts(input: string, rest: string, output: string)
    requires input == "process-some_file_name.md" && rest == "some_file_name.md"
    requires output == "protocol-some_file_name.md"
    ensures input == ProcessHyphen + rest && '/' !in rest && output == "protocol-" + rest
  {
  }

  /** The documented pieces of `process_Make-tRNAs.md`. */
  lemma UnderscoreExampleParts(input: string, rest: string, output: string)
    requires input == "process_Make-tRNAs.md" && rest == "Make-tRNAs.md"
    requires output == "protocol_Make-tRNAs.md"
    ensures input == ProcessUnderscore + rest && '/' !in rest && output == "protocol_" + rest
  {
  }

  /** The documented example: `process-some_file_name.md` becomes
      `protocol-some_file_name.md`. */
  lemma DocumentedHyphenName(input: string, output: string)
    requires input == "process-some_file_name.md" && output == "protocol-some_file_name.md"
    ensures OutputFilename(input) == output
  {
    var rest := "some_file_name.md";
    HyphenExampleParts(input, rest, output);
    HyphenName(rest);
  }

  /** The documented example: `process_Make-tRNAs.md` becomes `protocol_Make-tRNAs.md`. */
  lemma DocumentedUnderscoreName(input: string, output: string)
    requires input == "process_Make-tRNAs.md" && output == "protocol_Make-tRNAs.md"
    ensures OutputFilename(input) == output
  {
    var rest := "Make-tRNAs.md";
    UnderscoreExampleParts(input, rest, output);
    UnderscoreName(rest);
  }
}
