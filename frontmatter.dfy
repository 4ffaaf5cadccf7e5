/**
 * The YAML header the script puts in front of the cleaned section (`create_frontmatter`):
 * the title, and one export to Typst whose PDF is named after the raw stem.
 */
module Frontmatter {
  import opened TextUtil
  import opened Naming
  import opened Titles

  /** The fixed text of the header, in the pieces the title and the raw stem separate. */
  const Opening := "---\ntitle: "
  const ExportLines := "exports:\n  - format: typst\n    template: https://github.com/antonrmolina/nucleus-typst-test/archive/refs/heads/main.zip"
  const OutputField := "    output: protocol-"
  const Closing := ".pdf\n---\n\n"

  /** What `create_frontmatter` returns: a YAML block delimited by `---` lines and
      followed by a blank line. */
  function CreateFrontmatter(filename: string): (fm: string)
    ensures StartsWith(fm, "---\n")
    ensures EndsWith(fm, "---\n\n")
  {
    var title, raw := Title(filename), RawStem(filename);
    var rest := title + ("\n" + (ExportLines + ("\n" + (OutputField + (raw + Closing)))));
    OpeningLine();
    PrefixThen("---\n", Opening, rest);
    ClosingLines();
    EndsWithAfter(raw, Closing, "---\n\n");
    EndsWithAfter(OutputField, raw + Closing, "---\n\n");
    EndsWithAfter("\n", OutputField + (raw + Closing), "---\n\n");
    EndsWithAfter(ExportLines, "\n" + (OutputField + (raw + Closing)), "---\n\n");
    EndsWithAfter("\n", ExportLines + ("\n" + (OutputField + (raw + Closing))), "---\n\n");
    EndsWithAfter(title, "\n" + (ExportLines + ("\n" + (OutputField + (raw + Closing)))), "---\n\n");
    EndsWithAfter(Opening, rest, "---\n\n");
    Opening + rest
  }

  /** Text ends as whatever it ends with does. */
  lemma EndsWithAfter(a: string, s: string, q: string)
    requires EndsWith(s, q)
    ensures EndsWith(a + s, q)
  {
    assert (a + s)[|a + s| - |q|..] == s[|s| - |q|..];
  }

  /** A piece followed by a line feed and more text starts with that piece and the line
      feed. */
  lemma LineThen(a: string, t: string, rest: string)
    ensures StartsWith(a + (t + ("\n" + rest)), a + t + "\n")
  {
    assert a + (t + ("\n" + rest)) == (a + t + "\n") + rest;
  }

  /** A text followed by more starts with every prefix of it. */
  lemma PrefixThen(p: string, a: string, rest: string)
    requires StartsWith(a, p)
    ensures StartsWith(a + rest, p)
  {
    assert (a + rest)[..|p|] == a[..|p|];
  }

  /** Text after three pieces ends the whole. */
  lemma EndsAfter(a: string, b: string, c: string, tail: string)
    ensures EndsWith(a + (b + (c + tail)), tail)
  {
    assert a + (b + (c + tail)) == (a + b + c) + tail;
  }

  /** A suffix of a suffix is a suffix. */
  lemma SuffixOfSuffix(s: string, tail: string, p: string)
    requires EndsWith(s, tail) && EndsWith(tail, p)
    ensures EndsWith(s, p)
  {
    assert s[|s| - |p|..] == tail[|tail| - |p|..];
  }

  lemma OpeningLine()
    ensures StartsWith(Opening, "---\n")
  {
  }

  lemma ClosingLines()
    ensures EndsWith(Closing, "---\n\n")
  {
  }

  /** The header starts with the `---` line and the title line. */
  lemma FrontmatterStart(filename: string)
    ensures StartsWith(CreateFrontmatter(filename), Opening + Title(filename) + "\n")
  {
    var t := Title(filename);
    var rest := ExportLines + ("\n" + (OutputField + (RawStem(filename) + Closing)));
    LineThen(Opening, t, rest);
  }

  /** The header ends with the output line, the closing `---` line and a blank line. */
  lemma FrontmatterEnd(filename: string)
    ensures EndsWith(CreateFrontmatter(filename), "\n" + (OutputField + (RawStem(filename) + Closing)))
  {
    var raw := RawStem(filename);
    var tail := "\n" + (OutputField + (raw + Closing));
    EndsAfter(Opening, Title(filename), "\n", ExportLines + tail);
    EndsAfter(ExportLines, "", "", tail);
    assert ExportLines + ("" + ("" + tail)) == ExportLines + tail;
    SuffixOfSuffix(CreateFrontmatter(filename), ExportLines + tail, tail);
    EndsAfter("\n", OutputField, raw, Closing);
    ClosingLines();
    SuffixOfSuffix(tail, Closing, "---\n\n");
    SuffixOfSuffix(CreateFrontmatter(filename), tail, "---\n\n");
  }

  /** The title line holds the title alone, and the output line the raw stem alone: no
      line feed can come from either (for the stem, when the file name has none). */
  lemma FrontmatterLinesClean(filename: string)
    ensures '\n' !in Title(filename)
    ensures '\n' !in filename ==> '\n' !in RawStem(filename)
  {
    var title := Title(filename);
    forall i | 0 <= i < |title| ensures title[i] != '\n' {
      if IsWhitespace(title[i]) {
        assert title[i] == ' ';
      }
    }
    RawStemFromFilename(filename);
  }

  /** A `process_` input gets a `protocol_` output file but a `protocol-` PDF. */
  lemma UnderscoreInputHyphenPdf(name: string, ext: string)
    requires '/' !in name && '/' !in ext && '.' !in ext
    ensures RawStem(ProcessUnderscore + (name + ("." + ext))) == name
    ensures OutputFilename(ProcessUnderscore + (name + ("." + ext))) == "protocol_" + (name + ("." + ext))
  {
    RawStemOfPrefixed(ProcessUnderscore, name, ext);
    UnderscoreName(name + ("." + ext));
  }
}
