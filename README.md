# parse_protocol in Dafny

This project models `scripts/parse_protocol.py`, the script that turns a protocol write-up
in MyST Markdown into a document ready for a Typst PDF export. Given the text of the input
file and its name, the script:

1. keeps the lines of the `# Protocol` section;
2. removes MyST directive blocks fenced by `::::` and then by `:::`;
3. collapses runs of blank lines;
4. replaces each web link by its caption;
5. puts a YAML header in front, holding a title derived from the file name and a PDF
   export;
6. writes the result next to the input, under a `protocol` file name.

Each step is modelled in Dafny in its own module:

- `TextUtil` (`text.dfy`) holds the Python string operations the script relies on. `split`,
  `strip`, `find` and `rfind` are proved against their own specifications, and `join`
  through its round-trip lemmas with `split`.
- `Section` (`section.dfy`) is `extract_protocol_section`. It has a specification function,
  `Section.ProtocolSection`, and the one-pass loop with the `in_protocol` flag as a method
  proved equal to it.
- `Directives` (`directives.dfy`) is `remove_myst_directives`. Each regular-expression
  substitution is a leftmost, non-overlapping scan that tries the one pattern at each
  position. The blank-line collapse is its own function.
- `Links` (`links.dfy`) is `remove_links`, written as the same kind of scan.
- `Paths` (`paths.dfy`) holds the POSIX `os.path` functions the script calls: `basename`,
  `dirname`, two-argument `join`, and the root of `splitext`.
- `Naming` (`names.dfy`) holds the raw stem shared by the title and the PDF name, and
  `create_output_filename`.
- `Titles` (`title.dfy`) is `extract_title_from_filename`. It has a specification function,
  `Titles.Title`, and the word loop as a method proved equal to it.
- `Frontmatter` (`frontmatter.dfy`) is `create_frontmatter`.
- `Pipeline` (`pipeline.dfy`) is the middle of `main` as a pure function. It returns either
  the warning that stops the script, or the path and text of the output file.

Two properties of the code are worth knowing before reading the model:

- **Output names are not idempotent.** Applied to its own output, the output-name
  derivation puts another `protocol-` in front of the basename. `Naming.OutputFilenameTwice`
  proves this.
- **Blank-line collapse.** The collapse replaces every run of three or more line feeds by
  two line feeds, that is, two or more blank lines by one. `Directives.CollapseLongRun` and
  `Directives.CollapseShortRun` state this run by run.

## Model

| member | source | states |
|---|---|---|
| TextUtil.IndexOf | scripts/parse_protocol.py:40 | the first position of a character, or the length when it is absent: nothing before it is that character |
| TextUtil.LastIndexOf | scripts/parse_protocol.py:87 | the last position of a character: no later position holds it, and none when it is absent |
| TextUtil.LastIndexOfIs | scripts/parse_protocol.py:87 | the last occurrence is determined by the absence of the character after it |
| TextUtil.Find | scripts/parse_protocol.py:91 | `str.find`: the returned position is an occurrence, no earlier position is one, and none is returned only when there is no occurrence at all |
| TextUtil.FindIs | scripts/parse_protocol.py:91 | an occurrence with none before it is the one `Find` returns |
| TextUtil.Split | scripts/parse_protocol.py:12 | `str.split(sep)` gives at least one piece, and no piece holds the separator |
| TextUtil.Join | scripts/parse_protocol.py:31 | `sep.join(parts)`: its partners `JoinSplit`, `SplitJoin` and `JoinAppend` state what it gives back |
| TextUtil.JoinSplit | scripts/parse_protocol.py:12-31 | joining the pieces of a split by the separator gives the text back |
| TextUtil.SplitJoin | scripts/parse_protocol.py:12-31 | splitting a join of separator-free pieces gives the pieces back |
| TextUtil.JoinAppend | scripts/parse_protocol.py:31 | the join of two runs of pieces is their joins with one separator between |
| TextUtil.JoinInfix | scripts/parse_protocol.py:31 | the join of consecutive pieces is a contiguous piece of the join of all of them |
| TextUtil.JoinStartsWithFirst | scripts/parse_protocol.py:78 | a join starts with its first piece |
| TextUtil.Strip | scripts/parse_protocol.py:18 | `str.strip()`: no longer than the text, and the result neither starts nor ends with whitespace |
| TextUtil.TrimStartSpec | scripts/parse_protocol.py:18 | `lstrip` removes a whitespace prefix and keeps a text that does not start with whitespace |
| TextUtil.TrimEndSpec | scripts/parse_protocol.py:18 | `rstrip` removes a whitespace suffix and keeps a text that does not end with whitespace |
| TextUtil.StripShape | scripts/parse_protocol.py:18 | every text is its `strip()` padded on both sides with whitespace only |
| TextUtil.StripPadded | scripts/parse_protocol.py:18 | whitespace padding around a core that neither starts nor ends with whitespace strips back to the core |
| Section.SectionLines | scripts/parse_protocol.py:16-29 | the kept lines: none exactly when no line is a marker (both directions), otherwise starting with a marker line, with no closing heading after the first |
| Section.ProtocolSection | scripts/parse_protocol.py:10-31 | the section is empty or starts with a line that strips to `# Protocol` |
| Section.MarkerIsPaddedHeading | scripts/parse_protocol.py:18 | a line strips to `# Protocol` exactly when it is `# Protocol` with whitespace around it (both directions) |
| Section.FirstMarker | scripts/parse_protocol.py:16-21 | the index of the first marker line: no earlier line is one |
| Section.SectionEnd | scripts/parse_protocol.py:24-25 | the first later line that starts with `# ` and is not a marker, or the end: no line before it closes the section |
| Section.ExtractProtocolSection | scripts/parse_protocol.py:10-31 | splitting, collecting and joining computes `Section.ProtocolSection` |
| Section.CollectSectionLines | scripts/parse_protocol.py:13-29 | the loop with the `in_protocol` flag and the early `break` collects exactly `Section.SectionLines` |
| Section.EmptyIffNoMarker | scripts/parse_protocol.py:12-31 | the section is empty exactly when no line of the input strips to `# Protocol` (both directions) |
| Section.SectionIsInfix | scripts/parse_protocol.py:12-31 | the section is a contiguous piece of the input text |
| Section.FirstMarkerIs | scripts/parse_protocol.py:16-21 | a marker line with no marker before it is where collecting starts |
| Section.SectionEndIs | scripts/parse_protocol.py:24-25 | a closing heading with none before it is where collecting stops |
| Section.SectionOfJoin | scripts/parse_protocol.py:12-31 | for newline-free lines, the section of their join is the join of the kept lines |
| Section.SectionBetweenHeadings | scripts/parse_protocol.py:16-29 | the section runs from the first marker line up to but not including the first later non-marker level-1 heading; `## ` lines and repeated markers do not cut it |
| Section.SectionLinesBetween | scripts/parse_protocol.py:16-29 | the kept lines are exactly the lines from the first marker up to the closing heading |
| Section.SectionToEnd | scripts/parse_protocol.py:16-31 | with no closing heading after the first marker line, the section runs from that line to the end of the input |
| Section.SectionLinesToEnd | scripts/parse_protocol.py:16-29 | with no closing heading after the first marker line, the kept lines are all lines from it to the end |
| Section.SectionAtEnd | scripts/parse_protocol.py:16-31 | a marker on the last line, with none before it, gives that line alone |
| Section.SectionLinesAtEnd | scripts/parse_protocol.py:16-29 | with the only marker on the last line, the kept lines are that line alone |
| Directives.MatchFenced | scripts/parse_protocol.py:40-45 | a match of one fenced pattern covers more than its opening and no more than the text |
| Directives.StripFenced | scripts/parse_protocol.py:41 | `re.sub` of one fenced pattern by nothing never lengthens the text |
| Directives.StripBlocks | scripts/parse_protocol.py:40-45 | one pass for one fence width never lengthens the text |
| Directives.MatchBlock | scripts/parse_protocol.py:40-45 | a match of the block pattern at the head of the text covers more than the opening and no more than the text |
| Directives.AfterNameParts | scripts/parse_protocol.py:40 | after the name, a match is the rest of the line, its line feed, and the text up to the first closing fence |
| Directives.BodyBeforeClose | scripts/parse_protocol.py:40 | the text before the first closing fence is a shortest body (`.*?`) |
| Directives.AfterNameSound | scripts/parse_protocol.py:40 | a match after the name splits into a line without line feed, a line feed, a shortest body and the closing fence |
| Directives.AfterOpenParts | scripts/parse_protocol.py:40 | after the opening, a match runs to the first `}`, then the match after the name |
| Directives.AfterOpenSound | scripts/parse_protocol.py:40 | a match after the opening is a name without `}`, the brace, the rest of the line, a shortest body and the fence |
| Directives.FencedSound | scripts/parse_protocol.py:40-45 | every match of either pattern is an opening, a name, the rest of the line, a shortest body and the closing fence |
| Directives.MatchBlockSound | scripts/parse_protocol.py:40-45 | every match is a well-formed directive block of that fence width |
| Directives.AfterNameComplete | scripts/parse_protocol.py:40 | a line, a line feed, a shortest body and the fence are matched whole, whatever follows |
| Directives.BraceAfterName | scripts/parse_protocol.py:40 | `[^}]*\}` stops at the brace that follows a name without one |
| Directives.AfterOpenComplete | scripts/parse_protocol.py:40 | every well-formed rest of a block after its opening is matched whole, and the match ends at the closing fence |
| Directives.FencedComplete | scripts/parse_protocol.py:40-45 | an opening followed by a match of the rest is a match of the whole |
| Directives.AfterOpenUnclosed | scripts/parse_protocol.py:40 | an opening with no closing fence after its line is not matched |
| Directives.FencedUnclosed | scripts/parse_protocol.py:40-45 | an opening with no later closing fence does not match at that position |
| Directives.EmptyBodyNotClosed | scripts/parse_protocol.py:40-45 | a block whose opening line is followed at once by its fence is not closed by that fence (the closing `\n` must come after the opening line's) |
| Directives.StripAtMatch | scripts/parse_protocol.py:41 | a match at the head of the text is dropped and the scan resumes after it |
| Directives.StripAtBlock | scripts/parse_protocol.py:41 | a block at the head of the text is dropped whole |
| Directives.StripBlocksAtBlock | scripts/parse_protocol.py:41-45 | each pass drops a well-formed block at the head of the text and goes on after it |
| Directives.SingleLineBody | scripts/parse_protocol.py:40-45 | a body without line feeds ends at the fence that follows it |
| Directives.StripKeptChar | scripts/parse_protocol.py:41 | where no opening begins, the scan keeps the character and moves on |
| Directives.StripKeepsOneMore | scripts/parse_protocol.py:41 | one more kept character in front of a prefix already kept is kept |
| Directives.StripKeepsPrefix | scripts/parse_protocol.py:41 | text in which no opening begins is kept as it is, and the scan goes on after it |
| Directives.StripBlocksKeepsPrefix | scripts/parse_protocol.py:41-45 | the same for either fence width |
| Directives.StripBlocksWithoutOpening | scripts/parse_protocol.py:41-45 | a text in which the opening never occurs passes a pass unchanged |
| Directives.LeadingNewlines | scripts/parse_protocol.py:48 | the length of the run of line feeds at the head of the text: all line feeds, then a non-line-feed or the end |
| Directives.CollapseBlankLines | scripts/parse_protocol.py:48 | the result has no three consecutive line feeds, is no longer than the text, and a text that does not start with a line feed keeps its first character |
| Directives.LeadingNewlinesIs | scripts/parse_protocol.py:48 | a run of `n` line feeds followed by another character or the end is the leading run |
| Directives.CollapseLongRun | scripts/parse_protocol.py:48 | a leading run of three or more line feeds becomes exactly two, and the collapse goes on after the run |
| Directives.CollapseShortRun | scripts/parse_protocol.py:48 | a leading run of fewer than three line feeds is kept as it is, and the collapse goes on after the run |
| Directives.CollapseKeepsClean | scripts/parse_protocol.py:48 | a text without three consecutive line feeds is left as it is |
| Directives.CollapseIdempotent | scripts/parse_protocol.py:48 | collapsing twice is collapsing once |
| Directives.WithoutNewlinesAppend | scripts/parse_protocol.py:48 | taking line feeds out distributes over concatenation |
| Directives.WithoutNewlinesOfRun | scripts/parse_protocol.py:48 | a run of line feeds leaves nothing |
| Directives.CollapseKeepsText | scripts/parse_protocol.py:48 | collapsing changes only the lengths of line-feed runs: every other character is kept, in order |
| Directives.RemoveMystDirectives | scripts/parse_protocol.py:33-50 | the result has no three consecutive line feeds and is no longer than the text |
| Directives.PlainTextOnlyCollapsed | scripts/parse_protocol.py:33-50 | a text with no `:::{` anywhere is changed only by the blank-line collapse |
| Directives.TwoBlocksRemoved | scripts/parse_protocol.py:39-48 | a four-colon block and a later three-colon block are both removed, fences included, and the text between and after them is kept, then collapsed |
| Directives.NoteAndTipRemoved | scripts/parse_protocol.py:39-48 | `::::{note}\nbody\n::::\n:::{tip}\nmore\n:::` becomes the single line feed between the blocks, so no `:::` remains |
| Directives.NoteAndTipShape | scripts/parse_protocol.py:40-44 | that text is a four-colon `note` block, a line feed, and a three-colon `tip` block |
| Directives.TipHasNoOpening | scripts/parse_protocol.py:40-44 | after the note block no `::::{` begins, and none of the three-colon kind begins before the tip block |
| Links.RemoveLinks | scripts/parse_protocol.py:163-168 | removing links never lengthens the text |
| Links.MatchLink | scripts/parse_protocol.py:167 | a match of the link pattern at the head of the text covers at least one character and no more than the text |
| Links.MatchTarget | scripts/parse_protocol.py:167 | a match of `\(https?://[^\)]+\)` is no longer than the text |
| Links.AddressComplete | scripts/parse_protocol.py:167 | a non-empty address without `)` followed by `)` is matched whole |
| Links.TargetComplete | scripts/parse_protocol.py:167 | an `http` or `https` address is matched whole, and `http` is not taken for `https` |
| Links.CaptionComplete | scripts/parse_protocol.py:167 | a non-empty caption without `]` followed by a matched target is a link match whose caption is kept |
| Links.AddressSound | scripts/parse_protocol.py:167 | a matched address is non-empty, has no `)`, and is followed by `)` |
| Links.TargetSound | scripts/parse_protocol.py:167 | a matched target is one scheme's opening, such an address and `)` |
| Links.CaptionParts | scripts/parse_protocol.py:167 | a caption match runs to the first `]`, then a matched target |
| Links.CaptionSound | scripts/parse_protocol.py:167 | a caption match is a well-formed caption, `]`, and an address |
| Links.MatchLinkSound | scripts/parse_protocol.py:167 | every match is a well-formed link, and what it keeps is that link's caption |
| Links.RemoveLinksAtMatch | scripts/parse_protocol.py:167 | a match at the head is replaced by its caption and the scan goes on after it |
| Links.RemoveLinksAtCaption | scripts/parse_protocol.py:167 | a caption followed by a matched target is replaced by the caption |
| Links.RemoveLinksAtAddress | scripts/parse_protocol.py:167 | a well-formed link written out piece by piece is replaced by its caption |
| Links.RemoveLinksAtLink | scripts/parse_protocol.py:163-168 | every well-formed web link at the head of the text is replaced by its caption and the scan goes on after it |
| Links.RemoveLinksWithoutBracket | scripts/parse_protocol.py:163-168 | a text without `[` is left as it is |
| Links.BracketedTextKept | scripts/parse_protocol.py:167 | bracketed text with an empty caption, or not followed by a web address, is kept |
| Links.TargetNeedsScheme | scripts/parse_protocol.py:167 | every matched target starts with `(http` |
| Links.NonWebLinkKept | scripts/parse_protocol.py:167 | bracketed text followed by anything but an `http` or `https` address is kept |
| Links.ExampleLinkRemoved | scripts/parse_protocol.py:163-168 | `[Example](https://x.test/y_z)` becomes `Example` |
| Links.RelativeLinkKept | scripts/parse_protocol.py:163-168 | `[Local](./file.md)` is kept |
| Links.EmptyCaptionKept | scripts/parse_protocol.py:163-168 | `[](https://x)` is kept |
| Paths.Basename | scripts/parse_protocol.py:87 | `os.path.basename`: a suffix of the path without `/`, preceded by `/` when it is not the whole path |
| Paths.BasenameOfName | scripts/parse_protocol.py:87 | a name without `/` is its own basename |
| Paths.LastSlashOfAppend | scripts/parse_protocol.py:87 | the last `/` of a text ending in `/` followed by a name is the text's last character |
| Paths.TrimSlashes | scripts/parse_protocol.py:99 | the prefix left after removing trailing slashes: it does not end in `/`, and only slashes were removed |
| Paths.Dirname | scripts/parse_protocol.py:99 | `os.path.dirname`: a prefix of the path, empty exactly when the path has no `/`, ending in `/` only when it is all slashes |
| Paths.DirnameBasename | scripts/parse_protocol.py:87-99 | every path is its directory, a run of slashes and its basename |
| Paths.PathJoin | scripts/parse_protocol.py:103 | `os.path.join`: an absolute second part replaces the first, and otherwise the result starts with the first part, ends with the second, and adds at most one `/` |
| Paths.JoinSplitsBack | scripts/parse_protocol.py:99-103 | joining a directory as `dirname` returns it with a name gives back that directory and that name |
| Paths.SplitExtRoot | scripts/parse_protocol.py:55 | the root half of `os.path.splitext`: a prefix of the path, and what it drops starts with the last `.` and holds no other `.` or `/` |
| Paths.SplitExtRootAt | scripts/parse_protocol.py:55 | the extension from the last dot of a name is dropped when a non-dot comes before that dot |
| Paths.SplitExtRootOfDotfile | scripts/parse_protocol.py:55 | a name whose dots all lead it keeps its extension |
| Naming.RawStem | scripts/parse_protocol.py:55-63 | the stem without `process-` or `process_` has no `/` |
| Naming.StemInFilename | scripts/parse_protocol.py:55 | the stem of the basename sits in the file name at a position the lemma returns |
| Naming.RawStemFromFilename | scripts/parse_protocol.py:114-122 | every character of the raw stem comes from the file name |
| Naming.RawStemOfPrefixed | scripts/parse_protocol.py:55-63 | the raw stem of `process-NAME.EXT` or `process_NAME.EXT` is `NAME` |
| Naming.ReplaceFirstAtStart | scripts/parse_protocol.py:91-93 | `replace(p, r, 1)` on a text starting with `p` replaces exactly that leading `p` |
| Naming.ReplaceFirst | scripts/parse_protocol.py:91-93 | `replace(p, r, 1)`: without an occurrence the text is unchanged; otherwise the text before the first occurrence, then the replacement, then the text after it |
| Naming.OutputBasename | scripts/parse_protocol.py:90-96 | the output basename is longer than the input's, starts with `protocol`, and has no `/` when the input's has none |
| Naming.OutputBasenameCases | scripts/parse_protocol.py:90-96 | `process-` becomes `protocol-`, `process_` becomes `protocol_`, and any other name gets `protocol-` in front |
| Naming.OutputFilename | scripts/parse_protocol.py:80-107 | the output path starts with the input's directory and ends with the output basename of the input's basename |
| Naming.OutputFilenameParts | scripts/parse_protocol.py:80-107 | the output path keeps the input's directory and has the output basename as its basename |
| Naming.OutputDiffers | scripts/parse_protocol.py:80-107 | the output path never equals the input path |
| Naming.OutputBasenameAgain | scripts/parse_protocol.py:90-96 | a name the derivation produced gets another `protocol-` when derived again |
| Naming.OutputFilenameTwice | scripts/parse_protocol.py:80-107 | applied to its own output, the derivation keeps the directory and puts another `protocol-` in front of the basename, so it is not idempotent |
| Naming.OutputFilenameOfName | scripts/parse_protocol.py:102-105 | a name without a directory stays without one |
| Naming.HyphenName | scripts/parse_protocol.py:90-91 | `process-REST` becomes `protocol-REST` |
| Naming.UnderscoreName | scripts/parse_protocol.py:92-93 | `process_REST` becomes `protocol_REST` |
| Naming.OutputFilenameInDirectory | scripts/parse_protocol.py:99-103 | an input in a directory is joined with the output basename in that directory |
| Naming.JoinWithSlash | scripts/parse_protocol.py:103 | a directory not ending in `/` and a relative name are joined with one `/` |
| Naming.PlainNameInDirectory | scripts/parse_protocol.py:94-103 | a name without a `process` prefix in a directory gets `protocol-` in front and stays in that directory |
| Naming.DocumentedHyphenName | scripts/parse_protocol.py:84 | `process-some_file_name.md` becomes `protocol-some_file_name.md` |
| Naming.DocumentedUnderscoreName | scripts/parse_protocol.py:85 | `process_Make-tRNAs.md` becomes `protocol_Make-tRNAs.md` |
| Titles.Capitalize | scripts/parse_protocol.py:74 | `str.capitalize()`: same length, the first letter upper-cased and every other letter lower-cased |
| Titles.SmartCapitalize | scripts/parse_protocol.py:72-76 | same length, and a word with an upper-case letter is kept verbatim |
| Titles.ToLower | scripts/parse_protocol.py:73 | `str.lower()` keeps the length |
| Titles.LowerFixedIffNoUpper | scripts/parse_protocol.py:73 | a word equals its lower-case form exactly when it has no upper-case letter (both directions) |
| Titles.SmartCapitalizeSpec | scripts/parse_protocol.py:72-76 | a word with an upper-case letter is kept verbatim, and any other word gets only its first letter upper-cased |
| Titles.SmartCapitalizeOnlyCase | scripts/parse_protocol.py:72-76 | the per-word rule changes the case of letters and nothing else |
| Titles.SameUpToCaseKeepsOthers | scripts/parse_protocol.py:72-76 | a character that is not a letter survives a change of case only as itself |
| Titles.CapitalizeLower | scripts/parse_protocol.py:73-74 | an all-lowercase word gets its first letter upper-cased and keeps the rest |
| Titles.ReplaceChar | scripts/parse_protocol.py:66 | `str.replace` of one character: every occurrence becomes the replacement and every other character stays in place |
| Titles.Spaced | scripts/parse_protocol.py:66 | every `_` and `-` becomes a space, every other character stays in place, and none of either is left |
| Titles.WordEnd | scripts/parse_protocol.py:69 | the end of the leading run of non-whitespace: everything before it is non-whitespace and it is followed by whitespace or the end |
| Titles.WordEndIs | scripts/parse_protocol.py:69 | a run of non-whitespace followed by whitespace or the end is the leading run |
| Titles.Words | scripts/parse_protocol.py:69 | `str.split()` yields non-empty words without whitespace |
| Titles.WordsSkipWhitespace | scripts/parse_protocol.py:69 | leading whitespace yields no word |
| Titles.WordsOfWordThen | scripts/parse_protocol.py:69 | a maximal run of non-whitespace at the head is the first word, and the split goes on after it; with the lemma above this fixes the words of every text |
| Titles.WordsAfterWord | scripts/parse_protocol.py:69 | a word followed by a space is the first word of the text |
| Titles.WordsOfWord | scripts/parse_protocol.py:69 | a single word splits to itself |
| Titles.WordsOfJoin | scripts/parse_protocol.py:69-78 | splitting words joined by single spaces gives the words back |
| Titles.WordsOmit | scripts/parse_protocol.py:69 | a character absent from the text is absent from its words |
| Titles.SmartWords | scripts/parse_protocol.py:72-76 | the loop's result has one entry per word |
| Titles.CapitalizeWords | scripts/parse_protocol.py:70-76 | the loop that appends to `title_words` collects every word through the per-word rule, in order |
| Titles.ExtractTitleFromFilename | scripts/parse_protocol.py:52-78 | the function as written computes `Titles.Title` |
| Titles.JoinSingleSpaced | scripts/parse_protocol.py:78 | words joined by single spaces have no leading, trailing or repeated whitespace |
| Titles.JoinOmits | scripts/parse_protocol.py:78 | a character other than the space that is in no word is absent from the join |
| Titles.SmartWordsAreWords | scripts/parse_protocol.py:72-76 | the per-word rule keeps words non-empty and whitespace-free, and adds no character that is not a letter |
| Titles.Title | scripts/parse_protocol.py:52-78 | the title has no `_` and no `-`, and no leading, trailing or double spaces |
| Titles.TitleIsClean | scripts/parse_protocol.py:66-78 | the title built from any raw stem has no `_` and no `-`, and no leading, trailing or double spaces |
| Titles.TitleWords | scripts/parse_protocol.py:69-78 | the words of the title are the words of the spaced raw stem, each through the per-word rule |
| Titles.MixedCaseExample | scripts/parse_protocol.py:53 | `Make_tRNAs` becomes `Make tRNAs`: a mixed-case word is kept |
| Titles.LowercaseExample | scripts/parse_protocol.py:72-78 | `some_file_name` becomes `Some File Name` |
| Titles.DocumentedExample | scripts/parse_protocol.py:53 | `process-Make_tRNAs.md` is titled `Make tRNAs` |
| Frontmatter.CreateFrontmatter | scripts/parse_protocol.py:109-133 | the header starts with the `---` line and ends with the `---` line and a blank line |
| Frontmatter.FrontmatterStart | scripts/parse_protocol.py:124-125 | the header starts with the line `title: ` followed by the derived title, after the `---` line |
| Frontmatter.FrontmatterEnd | scripts/parse_protocol.py:129-132 | the header ends with the line `    output: protocol-` + raw stem + `.pdf`, followed by the closing `---` line and a blank line |
| Frontmatter.FrontmatterLinesClean | scripts/parse_protocol.py:111-129 | the title cannot break its line, and neither can the raw stem when the file name has no line feed |
| Frontmatter.UnderscoreInputHyphenPdf | scripts/parse_protocol.py:117-129 | a `process_` input gets a `protocol_` output file but a `protocol-` PDF named after its raw stem |
| Pipeline.CleanSection | scripts/parse_protocol.py:189-192 | neither the directive removal nor the link removal lengthens the section |
| Pipeline.Process | scripts/parse_protocol.py:182-201 | the only failure is the missing-heading warning |
| Pipeline.ProcessFailsIffNoMarker | scripts/parse_protocol.py:182-186 | the script stops exactly when no line of the input strips to `# Protocol` (both directions) |
| Pipeline.ProcessWritesBeside | scripts/parse_protocol.py:195-201 | when it writes, the output path differs from the input, lies in the same directory, and its text starts with the header and `---\n` |

## Left out

- Reading and writing files, the argument-count check, printing, `sys.exit` codes and
  exception handling in `main` are left out. They are I/O and process plumbing, so the
  pipeline is a pure function.
- The unused `subprocess` import and the closing `myst build` advice are left out. They
  invoke nothing.
- The commented-out `fix_url_underscores` and `convert_to_typst_links` are left out. They
  are dead code.
- General regular-expression semantics are not modelled. Only the four patterns the script
  uses are, each as an explicit scan:
  - the two directive patterns;
  - `\n{3,}`;
  - the link pattern.
- `os.path` is modelled for POSIX paths only, with `/` as the only separator. Windows
  drives and backslashes are not modelled.
- Whitespace is modelled as the ASCII characters Python's `str.isspace()` accepts:
  - space;
  - code points 9 to 13;
  - code points 28 to 31.

  Other Unicode whitespace is not modelled.
- Case mapping (`lower`, `capitalize`) is modelled for ASCII letters only. Unicode case
  rules are not modelled.
- Naming.DocumentedHyphenName: stated through parameters fixed by `requires` to the
  documented literals, rather than on the literals directly.
- Naming.DocumentedUnderscoreName: stated the same way.
- Titles.DocumentedExample: stated the same way.
- Directives.RemoveMystDirectives: its `ensures` states only the collapse guarantee. What
  the passes remove is stated by the lemmas beside it, for the text shapes they name.
- Links.RemoveLinks: its `ensures` bounds the length only. What is kept and what is replaced
  is stated by the lemmas beside it, for the text shapes they name.
- Directives.StripBlocks: its `ensures` bounds the length only. What a pass removes is
  stated by the lemmas beside it, for the text shapes they name.
- Directives.StripFenced: the same.
