/**
 * The section extractor: the lines from the first `# Protocol` heading up to, but not
 * including, the next level-1 heading that is not itself a `# Protocol` heading.
 */
module Section {
  import opened TextUtil

  const Marker := "# Protocol"

  /** A line that strips to the marker heading. */
  predicate IsMarker(line: string) {
    Strip(line) == Marker
  }

  /** A marker line is the heading text with nothing but whitespace around it. */
  lemma MarkerIsPaddedHeading(line: string)
    ensures IsMarker(line) <==>
              exists a, b :: AllWhitespace(a) && AllWhitespace(b) && line == a + Marker + b
  {
    if IsMarker(line) {
      var a, b := StripShape(line);
    }
    if exists a, b :: AllWhitespace(a) && AllWhitespace(b) && line == a + Marker + b {
      var a, b :| AllWhitespace(a) && AllWhitespace(b) && line == a + Marker + b;
      StripPadded(a, Marker, b);
    }
  }

  /** A level-1 heading other than the marker: the line that closes the section. */
  predicate EndsSection(line: string) {
    StartsWith(line, "# ") && !IsMarker(line)
  }

  /** Index of the first marker line, or `|lines|` when there is none. */
  function FirstMarker(lines: seq<string>): (k: nat)
    ensures k <= |lines|
    ensures k < |lines| ==> IsMarker(lines[k])
    ensures forall i :: 0 <= i < k ==> !IsMarker(lines[i])
  {
    if lines == [] then 0
    else if IsMarker(lines[0]) then 0
    else 1 + FirstMarker(lines[1..])
  }

  /** Index of the first line at or after `from` that closes the section, or `|lines|`. */
  function SectionEnd(lines: seq<string>, from: nat): (k: nat)
    requires from <= |lines|
    ensures from <= k <= |lines|
    ensures k < |lines| ==> EndsSection(lines[k])
    ensures forall i :: from <= i < k ==> !EndsSection(lines[i])
    decreases |lines| - from
  {
    if from == |lines| then from
    else if EndsSection(lines[from]) then from
    else SectionEnd(lines, from + 1)
  }

  /** The lines the extractor keeps: empty without a marker line, otherwise the run
      from the first marker line to just before the line that closes the section. The run
      starts with a marker line and holds no closing heading after it. */
  function SectionLines(lines: seq<string>): (r: seq<string>)
    ensures |r| <= |lines|
    ensures r == [] <==> forall i :: 0 <= i < |lines| ==> !IsMarker(lines[i])
    ensures r == [] || IsMarker(r[0])
    ensures forall i :: 0 < i < |r| ==> !EndsSection(r[i])
  {
    var first := FirstMarker(lines);
    if first == |lines| then [] else lines[first..SectionEnd(lines, first + 1)]
  }

  /** What `extract_protocol_section` returns for `content`: empty, or text that starts
      with a marker line. */
  function ProtocolSection(content: string): (section: string)
    ensures section == "" || exists line :: IsMarker(line) && StartsWith(section, line)
  {
    var kept := SectionLines(Split(content, '\n'));
    if kept == [] then ""
    else
      JoinStartsWithFirst(kept, "\n");
      assert IsMarker(kept[0]) && StartsWith(Join(kept, "\n"), kept[0]);
      Join(kept, "\n")
  }

  /** The extractor as the script runs it: split into lines, collect the section's
      lines in one pass, and join them back. */
  method ExtractProtocolSection(content: string) returns (section: string)
    ensures section == ProtocolSection(content)
  {
    var lines := Split(content, '\n');
    var protocolLines := CollectSectionLines(lines);
    section := Join(protocolLines, "\n");
  }

  /** The loop of the extractor: one pass over the lines with an `inProtocol` flag,
      collecting lines and leaving the loop at the closing heading. */
  method CollectSectionLines(lines: seq<string>) returns (protocolLines: seq<string>)
    ensures protocolLines == SectionLines(lines)
  {
    ghost var first := FirstMarker(lines);
    protocolLines := [];
    var inProtocol := false;
    var i := 0;
    while i < |lines|
      invariant 0 <= i <= |lines|
      invariant inProtocol <==> first < i
      invariant !inProtocol ==> protocolLines == []
      invariant inProtocol ==> protocolLines == lines[first..i]
      invariant inProtocol ==> forall m :: first < m < i ==> !EndsSection(lines[m])
    {
      var line := lines[i];
      if Strip(line) == Marker {
        assert first <= i;
        assert lines[first..i + 1] == lines[first..i] + [line];
        inProtocol := true;
        protocolLines := protocolLines + [line];
        i := i + 1;
        continue;
      }
      if inProtocol && StartsWith(line, "# ") && Strip(line) != Marker {
        SectionEndIs(lines, first + 1, i);
        break;
      }
      if inProtocol {
        assert lines[first..i + 1] == lines[first..i] + [line];
        protocolLines := protocolLines + [line];
      }
      i := i + 1;
    }
    if i == |lines| && inProtocol {
      SectionEndIs(lines, first + 1, i);
    }
  }

  /** The section is empty exactly when no line strips to the marker; that is the
      case in which the pipeline stops without output. */
  lemma EmptyIffNoMarker(content: string)
    ensures ProtocolSection(content) == "" <==>
              forall line :: line in Split(content, '\n') ==> !IsMarker(line)
  {
    var lines := Split(content, '\n');
    var first := FirstMarker(lines);
    if first < |lines| {
      var kept := SectionLines(lines);
      JoinStartsWithFirst(kept, "\n");
      assert kept[0] == lines[first];
      assert Strip("") == "";
      assert lines[first] != "";
    } else {
      forall line | line in lines ensures !IsMarker(line) {
        var k :| 0 <= k < |lines| && lines[k] == line;
      }
    }
  }

  /** The section is a contiguous piece of the input text. */
  lemma SectionIsInfix(content: string)
    ensures exists pre, post :: content == pre + ProtocolSection(content) + post
  {
    var lines := Split(content, '\n');
    var first := FirstMarker(lines);
    JoinSplit(content, '\n');
    if first == |lines| {
      assert content == "" + ProtocolSection(content) + content;
    } else {
      var last := SectionEnd(lines, first + 1);
      JoinInfix(lines, first, last, "\n");
      var pre, post :| Join(lines, "\n") == pre + Join(lines[first..last], "\n") + post;
      assert ProtocolSection(content) == Join(lines[first..last], "\n");
      assert content == pre + ProtocolSection(content) + post;
    }
  }

  /** `FirstMarker` and `SectionEnd` are determined by their contracts. */
  lemma FirstMarkerIs(lines: seq<string>, k: nat)
    requires k <= |lines|
    requires k < |lines| ==> IsMarker(lines[k])
    requires forall i :: 0 <= i < k ==> !IsMarker(lines[i])
    ensures FirstMarker(lines) == k
  {
  }

  lemma SectionEndIs(lines: seq<string>, from: nat, k: nat)
    requires from <= k <= |lines|
    requires k < |lines| ==> EndsSection(lines[k])
    requires forall i :: from <= i < k ==> !EndsSection(lines[i])
    ensures SectionEnd(lines, from) == k
  {
  }

  /** On newline-free lines, extracting from their join keeps the section's lines. */
  lemma SectionOfJoin(lines: seq<string>)
    requires |lines| >= 1
    requires forall i :: 0 <= i < |lines| ==> '\n' !in lines[i]
    ensures ProtocolSection(Join(lines, "\n")) == Join(SectionLines(lines), "\n")
  {
    SplitJoin(lines, '\n');
  }

  /** For a document whose line `start` is its first marker line and whose line `close`
      is the first later level-1 heading other than the marker, the section is exactly
      the lines from `start` up to `close`, whatever comes before or after them and
      however many subheadings or repeated marker lines lie between. */
  lemma SectionBetweenHeadings(lines: seq<string>, start: nat, close: nat)
    requires start < close < |lines|
    requires forall i :: 0 <= i < |lines| ==> '\n' !in lines[i]
    requires forall i :: 0 <= i < start ==> !IsMarker(lines[i])
    requires IsMarker(lines[start])
    requires forall i :: start < i < close ==> !EndsSection(lines[i])
    requires EndsSection(lines[close])
    ensures ProtocolSection(Join(lines, "\n")) == Join(lines[start..close], "\n")
  {
    SectionLinesBetween(lines, start, close);
    SectionOfJoin(lines);
  }

  lemma SectionLinesBetween(lines: seq<string>, start: nat, close: nat)
    requires start < close < |lines|
    requires forall i :: 0 <= i < start ==> !IsMarker(lines[i])
    requires IsMarker(lines[start])
    requires forall i :: start < i < close ==> !EndsSection(lines[i])
    requires EndsSection(lines[close])
    ensures SectionLines(lines) == lines[start..close]
  {
    FirstMarkerIs(lines, start);
    SectionEndIs(lines, start + 1, close);
  }

  /** For a document whose line `start` is its first marker line and in which no later
      line closes the section, the section runs from `start` to the end of the input. */
  lemma SectionToEnd(lines: seq<string>, start: nat)
    requires start < |lines|
    requires forall i :: 0 <= i < |lines| ==> '\n' !in lines[i]
    requires forall i :: 0 <= i < start ==> !IsMarker(lines[i])
    requires IsMarker(lines[start])
    requires forall i :: start < i < |lines| ==> !EndsSection(lines[i])
    ensures ProtocolSection(Join(lines, "\n")) == Join(lines[start..], "\n")
  {
    SectionLinesToEnd(lines, start);
    SectionOfJoin(lines);
  }

  lemma SectionLinesToEnd(lines: seq<string>, start: nat)
    requires start < |lines|
    requires forall i :: 0 <= i < start ==> !IsMarker(lines[i])
    requires IsMarker(lines[start])
    requires forall i :: start < i < |lines| ==> !EndsSection(lines[i])
    ensures SectionLines(lines) == lines[start..]
  {
    FirstMarkerIs(lines, start);
    SectionEndIs(lines, start + 1, |lines|);
  }

  /** When the first marker line is the last line, the section is that line alone. */
  lemma SectionAtEnd(lines: seq<string>)
    requires |lines| >= 1
    requires forall i :: 0 <= i < |lines| ==> '\n' !in lines[i]
    requires forall i :: 0 <= i < |lines| - 1 ==> !IsMarker(lines[i])
    requires IsMarker(lines[|lines| - 1])
    ensures ProtocolSection(Join(lines, "\n")) == lines[|lines| - 1]
  {
    SectionLinesAtEnd(lines);
    SectionOfJoin(lines);
  }

  lemma SectionLinesAtEnd(lines: seq<string>)
    requires |lines| >= 1
    requires forall i :: 0 <= i < |lines| - 1 ==> !IsMarker(lines[i])
    requires IsMarker(lines[|lines| - 1])
    ensures SectionLines(lines) == [lines[|lines| - 1]]
  {
    FirstMarkerIs(lines, |lines| - 1);
    assert lines[|lines| - 1..|lines|] == [lines[|lines| - 1]];
  }
}
