/**
 * The middle of the script's `main`: from the text of the input file and its name to
 * either the warning that stops the script or the path and text of the output file.
 * Reading and writing the files, the argument check and the messages are left out.
 */
module Pipeline {
  import opened Wrappers
  import opened TextUtil
  import opened Paths
  import opened Section
  import opened Directives
  import opened Links
  import opened Naming
  import opened Frontmatter

  datatype Output = Output(path: string, text: string)

  const NoHeading := "Warning: No '# Protocol' heading found in the file."

  /** The cleaned section: directive blocks removed, then links replaced by captions.
      Neither step lengthens the text. */
  function CleanSection(section: string): (r: string)
    ensures |r| <= |RemoveMystDirectives(section)| <= |section|
  {
    RemoveLinks(RemoveMystDirectives(section))
  }

  /** What `main` writes, and where, for a given input; the warning when the input has
      no `# Protocol` section. */
  function Process(content: string, filename: string): (r: Result<Output, string>)
    ensures r.Failure? ==> r.error == NoHeading
  {
    var section := ProtocolSection(content);
    if section == "" then Failure(NoHeading)
    else Success(Output(OutputFilename(filename), CreateFrontmatter(filename) + CleanSection(section)))
  }

  /** The script stops exactly when no line of the input strips to `# Protocol`. */
  lemma ProcessFailsIffNoMarker(content: string, filename: string)
    ensures Process(content, filename).Failure? <==>
              forall line :: line in Split(content, '\n') ==> !IsMarker(line)
  {
    EmptyIffNoMarker(content);
  }

  /** When it writes, the script writes a new file next to its input, and the file
      starts with the header for that input. */
  lemma ProcessWritesBeside(content: string, filename: string)
    requires Process(content, filename).Success?
    ensures Process(content, filename).value.path != filename
    ensures Dirname(Process(content, filename).value.path) == Dirname(filename)
    ensures StartsWith(Process(content, filename).value.text, CreateFrontmatter(filename))
    ensures StartsWith(Process(content, filename).value.text, "---\n")
  {
    var fm := CreateFrontmatter(filename);
    var body := CleanSection(ProtocolSection(content));
    assert Process(content, filename).value == Output(OutputFilename(filename), fm + body);
    OutputDiffers(filename);
    OutputFilenameParts(filename);
    HeaderThenBody(fm, body);
  }

  /** A header followed by a body starts with the header, and so with its first line. */
  lemma HeaderThenBody(fm: string, body: string)
    requires StartsWith(fm, "---\n")
    ensures StartsWith(fm + body, fm)
    ensures StartsWith(fm + body, "---\n")
  {
    PrefixThen(fm, fm, body);
    PrefixThen("---\n", fm, body);
  }
}
