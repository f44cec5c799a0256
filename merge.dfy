/**
 * merge_pdfs (pdf_tool/merge.py): concatenate the pages of two or more PDFs,
 * in the order given, into one output file.
 */
module Merge {
  import opened Results
  import opened Text
  import opened Documents
  import opened Files
  import opened Split

  /** The index of the first path that is not an existing file, or |paths| when every one is. */
  function FirstMissing<P>(files: map<Path, Doc<P>>, paths: seq<Path>): (k: nat)
    ensures k <= |paths|
    ensures forall j :: 0 <= j < k ==> paths[j] in files
    ensures k < |paths| ==> paths[k] !in files
  {
    if paths == [] || paths[0] !in files then 0
    else
      var m := FirstMissing(files, paths[1..]);
      assert forall j :: 1 <= j < 1 + m ==> paths[j] == paths[1..][j - 1];
      1 + m
  }

  /** The index of the first encrypted document, or |docs| when none is. */
  function FirstEncrypted<P>(docs: seq<Doc<P>>): (k: nat)
    ensures k <= |docs|
    ensures forall j :: 0 <= j < k ==> !docs[j].encrypted
    ensures k < |docs| ==> docs[k].encrypted
  {
    if docs == [] || docs[0].encrypted then 0
    else
      var m := FirstEncrypted(docs[1..]);
      assert forall j :: 1 <= j < 1 + m ==> docs[j] == docs[1..][j - 1];
      1 + m
  }

  /**
   * What merge_pdfs does to a file system (files0, dirs0), as the result r and the final
   * state (files1, dirs1). In order: at least two inputs; every input an existing file
   * (checked for all before anything else); the output's directory created; the output
   * writable under the overwrite flag; no input encrypted; the output opened. The first
   * check that fails decides the error, and only the directory creation survives a later
   * failure. On success the output holds the inputs' pages, input after input.
   */
  ghost predicate MergeOutcome<P>(files0: map<Path, Doc<P>>, dirs0: set<Path>, inputs: seq<Path>, output: Path,
                                  overwrite: bool, r: Result<(), ToolError>, files1: map<Path, Doc<P>>, dirs1: set<Path>)
  {
    var missing := FirstMissing(files0, inputs);
    var made := MakeDirsCheck(files0, DirectoryFor(output));
    var dirs := dirs0 + Prefixes(DirectoryFor(output));
    if |inputs| < 2 then
      r == Err(TooFewInputs) && files1 == files0 && dirs1 == dirs0
    else if missing < |inputs| then
      r == Err(Fs(NotFound(inputs[missing]))) && files1 == files0 && dirs1 == dirs0
    else if made.Fail? then
      r == Err(Fs(made.error)) && files1 == files0 && dirs1 == dirs0
    else
      var docs := DocsAt(files0, inputs);
      var encrypted := FirstEncrypted(docs);
      && dirs1 == dirs
      && if AssertCanWrite(files0, dirs, output, overwrite).Fail? then
           r == Err(Fs(AlreadyExists(output))) && files1 == files0
         else if encrypted < |inputs| then
           r == Err(Encrypted(inputs[encrypted])) && files1 == files0
         else if OpenCheck(files0, dirs, output).Fail? then
           r == Err(Fs(OpenCheck(files0, dirs, output).error)) && files1 == files0
         else
           r == Ok(()) && files1 == files0[output := Doc(false, ConcatPages(docs))]
  }

  method MergePdfs<P>(fs: FileSystem<P>, inputFiles: seq<Path>, outputFile: Path, overwrite: bool)
    returns (r: Result<(), ToolError>)
    requires fs.Valid()
    modifies fs
    ensures fs.Valid()
    ensures MergeOutcome(old(fs.files), old(fs.dirs), inputFiles, outputFile, overwrite, r, fs.files, fs.dirs)
  {
    var inputPaths := inputFiles;
    if |inputPaths| < 2 {
      return Err(TooFewInputs);
    }
    var found := CheckInputsExist(fs.files, inputPaths);
    if found.Fail? {
      return Err(Fs(found.error));
    }
    var made := fs.EnsureOutputDirectoryExists(outputFile);
    if made.Fail? {
      return Err(Fs(made.error));
    }
    var can := AssertCanWrite(fs.files, fs.dirs, outputFile, overwrite);
    if can.Fail? {
      return Err(Fs(can.error));
    }
    var writer :- ReadInputs(fs.files, inputPaths);
    var written := fs.WriteFile(outputFile, Doc(false, writer));
    if written.Fail? {
      return Err(Fs(written.error));
    }
    return Ok(());
  }

  /** pdf_tool/merge.py:23-24: every input must be an existing file; the first that is not is reported. */
  method CheckInputsExist<P>(files: map<Path, Doc<P>>, inputPaths: seq<Path>) returns (r: Check<FsError>)
    ensures var missing := FirstMissing(files, inputPaths);
            r == if missing < |inputPaths| then Fail(NotFound(inputPaths[missing])) else Pass
  {
    for i := 0 to |inputPaths|
      invariant i <= FirstMissing(files, inputPaths)
    {
      var found := EnsureFileExists(files, inputPaths[i]);
      if found.Fail? {
        return found;
      }
    }
    return Pass;
  }

  /**
   * pdf_tool/merge.py:29-39: read the inputs in order into one writer; the first encrypted input stops
   * the merge, otherwise the writer holds every input's pages, input after input.
   */
  method ReadInputs<P>(files: map<Path, Doc<P>>, inputPaths: seq<Path>) returns (r: Result<seq<P>, ToolError>)
    requires forall k :: 0 <= k < |inputPaths| ==> inputPaths[k] in files
    ensures var docs := DocsAt(files, inputPaths);
            var encrypted := FirstEncrypted(docs);
            r == if encrypted < |inputPaths| then Err(Encrypted(inputPaths[encrypted])) else Ok(ConcatPages(docs))
  {
    ghost var docs := DocsAt(files, inputPaths);
    var writer: seq<P> := [];
    for i := 0 to |inputPaths|
      invariant i <= FirstEncrypted(docs)
      invariant writer == ConcatPages(docs[..i])
    {
      var reader := files[inputPaths[i]];
      assert reader == docs[i];
      if reader.encrypted {
        assert FirstEncrypted(docs) == i;
        return Err(Encrypted(inputPaths[i]));
      }
      writer := AppendPages(writer, reader.pages);
      assert docs[..i + 1][..i] == docs[..i];
    }
    assert docs[..|inputPaths|] == docs;
    return Ok(writer);
  }

  /**
   * A merge succeeds only when there are at least two inputs, all existing and unencrypted;
   * then the output holds their pages, input after input, and no other file changes.
   */
  lemma MergeSuccess<P>(files0: map<Path, Doc<P>>, dirs0: set<Path>, inputs: seq<Path>, output: Path,
                        overwrite: bool, r: Result<(), ToolError>, files1: map<Path, Doc<P>>, dirs1: set<Path>)
    requires MergeOutcome(files0, dirs0, inputs, output, overwrite, r, files1, dirs1)
    requires r.Ok?
    ensures |inputs| >= 2 && forall k :: 0 <= k < |inputs| ==> inputs[k] in files0
    ensures forall k :: 0 <= k < |inputs| ==> !files0[inputs[k]].encrypted
    ensures files1 == files0[output := Doc(false, ConcatPages(DocsAt(files0, inputs)))]
  {
    var docs := DocsAt(files0, inputs);
    assert FirstMissing(files0, inputs) == |inputs|;
    assert FirstEncrypted(docs) == |inputs|;
    forall k | 0 <= k < |inputs| ensures !files0[inputs[k]].encrypted {
      assert docs[k] == files0[inputs[k]];
    }
  }

  /** A merged file has as many pages as its inputs together. */
  lemma MergedLength<P>(files0: map<Path, Doc<P>>, dirs0: set<Path>, inputs: seq<Path>, output: Path,
                        overwrite: bool, r: Result<(), ToolError>, files1: map<Path, Doc<P>>, dirs1: set<Path>)
    requires MergeOutcome(files0, dirs0, inputs, output, overwrite, r, files1, dirs1)
    requires r.Ok?
    ensures forall k :: 0 <= k < |inputs| ==> inputs[k] in files0
    ensures output in files1 && |files1[output].pages| == TotalPages(DocsAt(files0, inputs))
  {
    ConcatPagesLength(DocsAt(files0, inputs));
  }

  /**
   * An existing output, file or directory, without the overwrite flag is refused before any input is read, so the
   * refusal does not depend on the inputs' contents; no file is written on any failure.
   */
  lemma ExistingOutputRefused<P>(files0: map<Path, Doc<P>>, dirs0: set<Path>, inputs: seq<Path>, output: Path,
                                 overwrite: bool, r: Result<(), ToolError>, files1: map<Path, Doc<P>>, dirs1: set<Path>)
    requires MergeOutcome(files0, dirs0, inputs, output, overwrite, r, files1, dirs1)
    ensures r.Err? ==> files1 == files0
    ensures (&& |inputs| >= 2 && FirstMissing(files0, inputs) == |inputs|
             && MakeDirsCheck(files0, DirectoryFor(output)).Pass? && (output in files0 || output in dirs0) && !overwrite)
            ==> r == Err(Fs(AlreadyExists(output)))
  {
  }

  /**
   * An output path without a suffix never receives the merge: ensure_output_directory_exists
   * creates it as a directory, so assert_can_write or the open then fails.
   */
  lemma {:induction false} SuffixlessOutputFails<P>(files0: map<Path, Doc<P>>, dirs0: set<Path>, inputs: seq<Path>, output: Path,
                                                    overwrite: bool, r: Result<(), ToolError>, files1: map<Path, Doc<P>>, dirs1: set<Path>)
    requires MergeOutcome(files0, dirs0, inputs, output, overwrite, r, files1, dirs1)
    requires Suffix(Name(output)) == ""
    ensures r.Err? && files1 == files0
    ensures |inputs| >= 2 && FirstMissing(files0, inputs) == |inputs| && MakeDirsCheck(files0, output).Pass? ==>
              if overwrite then r.error.Encrypted? || r.error == Fs(IsADirectory(output))
              else r.error == Fs(AlreadyExists(output))
  {
    OutputDirectoryReady(dirs0, output);
  }

  /** Merging respects input order: the output holds the first inputs' pages, then the rest's. */
  lemma MergeOrder<P>(files0: map<Path, Doc<P>>, inputs: seq<Path>, i: nat)
    requires forall k :: 0 <= k < |inputs| ==> inputs[k] in files0
    requires i <= |inputs|
    ensures ConcatPages(DocsAt(files0, inputs)) == ConcatPages(DocsAt(files0, inputs[..i])) + ConcatPages(DocsAt(files0, inputs[i..]))
  {
    assert DocsAt(files0, inputs) == DocsAt(files0, inputs[..i]) + DocsAt(files0, inputs[i..]);
    ConcatPagesAppend(DocsAt(files0, inputs[..i]), DocsAt(files0, inputs[i..]));
  }

  /** Files holding one page each, read back in order and concatenated, give those pages in order. */
  lemma ReadBackPerPage<P>(pages: seq<P>, paths: seq<Path>, files: map<Path, Doc<P>>)
    requires |paths| == |pages|
    requires forall k :: 0 <= k < |paths| ==> paths[k] in files && files[paths[k]] == Doc(false, [pages[k]])
    ensures ConcatPages(DocsAt(files, paths)) == pages
  {
    var outs := PerPageOutputs(pages, "");
    ConcatOutputs(outs, DocsAt(files, paths));
    PerPageRoundTrip(pages, "");
  }

  /**
   * Splitting a document page by page and merging the returned files, in the returned order,
   * gives a file with the document's pages, in order.
   */
  lemma SplitThenMerge<P>(files0: map<Path, Doc<P>>, dirs0: set<Path>, input: Path, outputDir: Path, overwrite: bool,
                          r1: Result<seq<Path>, ToolError>, files1: map<Path, Doc<P>>, dirs1: set<Path>,
                          output: Path, overwrite2: bool,
                          r2: Result<(), ToolError>, files2: map<Path, Doc<P>>, dirs2: set<Path>)
    requires SplitOutcome(files0, dirs0, input, outputDir, None, overwrite, r1, files1, dirs1) && r1.Ok?
    requires MergeOutcome(files1, dirs1, r1.value, output, overwrite2, r2, files2, dirs2) && r2.Ok?
    ensures input in files0 && output in files2
    ensures files2[output] == Doc(false, files0[input].pages)
  {
    SplitSuccess(files0, dirs0, input, outputDir, None, overwrite, r1, files1, dirs1);
    var pages := files0[input].pages;
    assert forall k :: 0 <= k < |r1.value| ==> r1.value[k] in files1 && files1[r1.value[k]] == Doc(false, [pages[k]]);
    ReadBackPerPage(pages, r1.value, files1);
    MergeSuccess(files1, dirs1, r1.value, output, overwrite2, r2, files2, dirs2);
  }
}
