/**
 * split_pdf_by_ranges (pdf_tool/split.py): split one PDF into several files in
 * an output directory, one per page or one per range token.
 */
module Split {
  import opened Results
  import opened Text
  import opened Ranges
  import opened Documents
  import opened Files

  /** output_dir / name, for each output in order. */
  function OutputPaths<P>(dir: Path, outs: seq<Output<P>>): (paths: seq<Path>)
    ensures |paths| == |outs|
  {
    seq(|outs|, k requires 0 <= k < |outs| => dir + [outs[k].name])
  }

  /** The files after writing each output, one after another, into dir. */
  function Written<P>(files: map<Path, Doc<P>>, dir: Path, outs: seq<Output<P>>): map<Path, Doc<P>> {
    if outs == [] then files
    else Written(files, dir, outs[..|outs| - 1])[dir + [outs[|outs| - 1].name] := Doc(false, outs[|outs| - 1].pages)]
  }

  /** How many outputs, from the first, are saved before the first one that cannot be. */
  function SavedCount<P>(files: map<Path, Doc<P>>, dirs: set<Path>, dir: Path, outs: seq<Output<P>>, overwrite: bool): (n: nat)
    ensures n <= |outs|
    ensures forall k :: 0 <= k < n ==> SaveCheck(files, dirs, dir + [outs[k].name], overwrite).Pass?
    ensures n < |outs| ==> SaveCheck(files, dirs, dir + [outs[n].name], overwrite).Fail?
  {
    if outs == [] || SaveCheck(files, dirs, dir + [outs[0].name], overwrite).Fail? then 0
    else
      var m := SavedCount(files, dirs, dir, outs[1..], overwrite);
      assert forall k :: 1 <= k < 1 + m ==> outs[k] == outs[1..][k - 1];
      1 + m
  }

  /**
   * Saving the outputs one after another into dir, from a file system (files0, dirs), stops at
   * the first output that cannot be saved: the outputs before it are written and the error
   * is the one that output raises; when every output is saved, their paths are returned in order.
   */
  ghost predicate SavedOutcome<P>(files0: map<Path, Doc<P>>, dirs: set<Path>, dir: Path, outs: seq<Output<P>>,
                                  overwrite: bool, r: Result<seq<Path>, ToolError>, files1: map<Path, Doc<P>>)
  {
    var n := SavedCount(files0, dirs, dir, outs, overwrite);
    && files1 == Written(files0, dir, outs[..n])
    && r == if n == |outs| then Ok(OutputPaths(dir, outs))
            else Err(Fs(SaveCheck(files0, dirs, dir + [outs[n].name], overwrite).error))
  }

  /**
   * What split_pdf_by_ranges does to a file system (files0, dirs0), as the result r and the
   * final state (files1, dirs1): the input must be an unencrypted file and the output
   * directory creatable, and nothing changes otherwise; then the directory is created, the
   * outputs are planned from the range text, and they are saved in order until one cannot be.
   */
  ghost predicate SplitOutcome<P>(files0: map<Path, Doc<P>>, dirs0: set<Path>, input: Path, outputDir: Path,
                                  ranges: Option<string>, overwrite: bool,
                                  r: Result<seq<Path>, ToolError>, files1: map<Path, Doc<P>>, dirs1: set<Path>)
  {
    var made := MakeDirsCheck(files0, DirectoryFor(outputDir));
    if input !in files0 then
      r == Err(Fs(NotFound(input))) && files1 == files0 && dirs1 == dirs0
    else if files0[input].encrypted then
      r == Err(Encrypted(input)) && files1 == files0 && dirs1 == dirs0
    else if made.Fail? then
      r == Err(Fs(made.error)) && files1 == files0 && dirs1 == dirs0
    else
      var dirs := dirs0 + Prefixes(DirectoryFor(outputDir));
      var plan := SplitOutputs(files0[input].pages, Stem(Name(input)), ranges);
      && dirs1 == dirs
      && if plan.Err? then r == Err(BadRanges(plan.error)) && files1 == files0
         else SavedOutcome(files0, dirs, outputDir, plan.value, overwrite, r, files1)
  }

  /** pdf_tool/split.py:47-52 and 64-70: assert_can_write, then write a fresh unencrypted PDF holding `pages`. */
  method Save<P>(fs: FileSystem<P>, p: Path, pages: seq<P>, overwrite: bool) returns (r: Check<FsError>)
    requires fs.Valid()
    modifies fs
    ensures fs.Valid()
    ensures r == SaveCheck(old(fs.files), old(fs.dirs), p, overwrite)
    ensures fs.dirs == old(fs.dirs)
    ensures fs.files == if r.Pass? then old(fs.files)[p := Doc(false, pages)] else old(fs.files)
  {
    r := AssertCanWrite(fs.files, fs.dirs, p, overwrite);
    if r.Fail? {
      return;
    }
    r := fs.WriteFile(p, Doc(false, pages));
  }

  method SplitPdfByRanges<P>(fs: FileSystem<P>, input: Path, outputDir: Path, rangesText: Option<string>, overwrite: bool)
    returns (r: Result<seq<Path>, ToolError>)
    requires fs.Valid()
    modifies fs
    ensures fs.Valid()
    ensures SplitOutcome(old(fs.files), old(fs.dirs), input, outputDir, rangesText, overwrite, r, fs.files, fs.dirs)
  {
    var found := EnsureFileExists(fs.files, input);
    if found.Fail? {
      return Err(Fs(found.error));
    }
    var reader := fs.files[input];
    if reader.encrypted {
      return Err(Encrypted(input));
    }
    var totalPages := |reader.pages|;
    var made := fs.EnsureOutputDirectoryExists(outputDir);
    if made.Fail? {
      return Err(Fs(made.error));
    }
    var basename := Stem(Name(input));
    if rangesText.None? {
      r := SplitPerPage(fs, reader.pages, basename, outputDir, overwrite);
      return;
    }
    var parsed := ParseRangesToGroups(rangesText.value, totalPages);
    if parsed.Err? {
      return Err(BadRanges(parsed.error));
    }
    GroupsWithinBounds(rangesText.value, totalPages);
    r := SplitByGroups(fs, reader.pages, basename, outputDir, parsed.value, overwrite);
  }

  /** pdf_tool/split.py:43-55: without range text, save one file per page, in page order. */
  method SplitPerPage<P>(fs: FileSystem<P>, pages: seq<P>, basename: string, outputDir: Path, overwrite: bool)
    returns (r: Result<seq<Path>, ToolError>)
    requires fs.Valid()
    modifies fs
    ensures fs.Valid() && fs.dirs == old(fs.dirs)
    ensures SavedOutcome(old(fs.files), old(fs.dirs), outputDir, PerPageOutputs(pages, basename), overwrite, r, fs.files)
  {
    ghost var files0, dirs := fs.files, fs.dirs;
    ghost var outs := PerPageOutputs(pages, basename);
    SplitNamesDistinct(pages, basename, None);
    var outputFiles: seq<Path> := [];
    for pageIndex := 0 to |pages|
      invariant fs.Valid() && fs.dirs == dirs
      invariant pageIndex <= SavedCount(files0, dirs, outputDir, outs, overwrite)
      invariant fs.files == Written(files0, outputDir, outs[..pageIndex])
      invariant outputFiles == OutputPaths(outputDir, outs[..pageIndex])
    {
      var outputPath := outputDir + [PageName(basename, pageIndex + 1)];
      SaveUnaffected(files0, dirs, outputDir, outs, pageIndex, overwrite);
      var saved := Save(fs, outputPath, [pages[pageIndex]], overwrite);
      if saved.Fail? {
        assert SavedCount(files0, dirs, outputDir, outs, overwrite) == pageIndex;
        return Err(Fs(saved.error));
      }
      assert pageIndex < SavedCount(files0, dirs, outputDir, outs, overwrite);
      SavedStep(files0, outputDir, outs, pageIndex);
      outputFiles := outputFiles + [outputPath];
    }
    assert outs[..|pages|] == outs;
    return Ok(outputFiles);
  }

  /** pdf_tool/split.py:62-73: with range text, save one file per group, holding the group's pages in its order. */
  method SplitByGroups<P>(fs: FileSystem<P>, pages: seq<P>, basename: string, outputDir: Path,
                          groups: seq<seq<int>>, overwrite: bool)
    returns (r: Result<seq<Path>, ToolError>)
    requires fs.Valid()
    requires GroupsIn(groups, |pages|)
    modifies fs
    ensures fs.Valid() && fs.dirs == old(fs.dirs)
    ensures SavedOutcome(old(fs.files), old(fs.dirs), outputDir, GroupOutputs(pages, basename, groups), overwrite, r, fs.files)
  {
    ghost var files0, dirs := fs.files, fs.dirs;
    ghost var outs := GroupOutputs(pages, basename, groups);
    GroupNamesDistinct(pages, basename, groups);
    var outputFiles: seq<Path> := [];
    for groupIndex := 0 to |groups|
      invariant fs.Valid() && fs.dirs == dirs
      invariant groupIndex <= SavedCount(files0, dirs, outputDir, outs, overwrite)
      invariant fs.files == Written(files0, outputDir, outs[..groupIndex])
      invariant outputFiles == OutputPaths(outputDir, outs[..groupIndex])
    {
      var outputPath := outputDir + [PartName(basename, groupIndex + 1)];
      var pageGroup := groups[groupIndex];
      var selected := SelectPages(pages, pageGroup);
      assert outs[groupIndex] == Output(PartName(basename, groupIndex + 1), selected);
      SaveUnaffected(files0, dirs, outputDir, outs, groupIndex, overwrite);
      var saved := Save(fs, outputPath, selected, overwrite);
      if saved.Fail? {
        assert SavedCount(files0, dirs, outputDir, outs, overwrite) == groupIndex;
        return Err(Fs(saved.error));
      }
      assert groupIndex < SavedCount(files0, dirs, outputDir, outs, overwrite);
      SavedStep(files0, outputDir, outs, groupIndex);
      outputFiles := outputFiles + [outputPath];
    }
    assert outs[..|groups|] == outs;
    return Ok(outputFiles);
  }

  /** Writing outputs adds exactly their paths to the files. */
  lemma {:induction false} WrittenKeys<P>(files: map<Path, Doc<P>>, dir: Path, outs: seq<Output<P>>)
    ensures forall p :: p in Written(files, dir, outs) <==> p in files || p in OutputPaths(dir, outs)
  {
    if outs != [] {
      var init := outs[..|outs| - 1];
      WrittenKeys(files, dir, init);
      assert OutputPaths(dir, outs) == OutputPaths(dir, init) + [dir + [outs[|outs| - 1].name]];
    }
  }

  /** Writing outputs leaves every file outside their paths as it was. */
  lemma {:induction false} WrittenElsewhere<P>(files: map<Path, Doc<P>>, dir: Path, outs: seq<Output<P>>)
    ensures forall p :: p in files && p !in OutputPaths(dir, outs) ==> p in Written(files, dir, outs) && Written(files, dir, outs)[p] == files[p]
  {
    if outs != [] {
      var init := outs[..|outs| - 1];
      WrittenElsewhere(files, dir, init);
      assert OutputPaths(dir, outs) == OutputPaths(dir, init) + [dir + [outs[|outs| - 1].name]];
    }
  }

  /** With distinct names, every output's path holds exactly that output's pages, as a fresh unencrypted PDF. */
  lemma {:induction false} WrittenContents<P>(files: map<Path, Doc<P>>, dir: Path, outs: seq<Output<P>>)
    requires DistinctNames(outs)
    ensures forall k :: 0 <= k < |outs| ==>
              var p := dir + [outs[k].name]; p in Written(files, dir, outs) && Written(files, dir, outs)[p] == Doc(false, outs[k].pages)
  {
    if outs != [] {
      var init := outs[..|outs| - 1];
      var last := outs[|outs| - 1];
      WrittenContents(files, dir, init);
      forall k | 0 <= k < |init| ensures dir + [outs[k].name] != dir + [last.name] {
        assert (dir + [outs[k].name])[|dir|] == outs[k].name;
      }
    }
  }

  /** Saving the i-th output is not affected by the earlier ones, which were written under other names. */
  lemma SaveUnaffected<P>(files: map<Path, Doc<P>>, dirs: set<Path>, dir: Path, outs: seq<Output<P>>, i: nat, overwrite: bool)
    requires DistinctNames(outs) && i < |outs|
    ensures SaveCheck(Written(files, dir, outs[..i]), dirs, dir + [outs[i].name], overwrite)
         == SaveCheck(files, dirs, dir + [outs[i].name], overwrite)
  {
    var init := outs[..i];
    WrittenKeys(files, dir, init);
    forall k | 0 <= k < i ensures OutputPaths(dir, init)[k] != dir + [outs[i].name] {
      assert (dir + [outs[k].name])[|dir|] == outs[k].name;
    }
  }

  /** One more saved output extends the written files and the returned paths by that output. */
  lemma SavedStep<P>(files: map<Path, Doc<P>>, dir: Path, outs: seq<Output<P>>, i: nat)
    requires i < |outs|
    ensures Written(files, dir, outs[..i + 1]) == Written(files, dir, outs[..i])[dir + [outs[i].name] := Doc(false, outs[i].pages)]
    ensures OutputPaths(dir, outs[..i + 1]) == OutputPaths(dir, outs[..i]) + [dir + [outs[i].name]]
  {
    assert outs[..i + 1][..i] == outs[..i];
  }

  /**
   * Saving outputs with distinct names succeeds only when every one is written: the paths are
   * returned in order, each holds its output's pages, and no other file was created or changed.
   */
  lemma SavedSuccess<P>(files0: map<Path, Doc<P>>, dirs: set<Path>, dir: Path, outs: seq<Output<P>>,
                        overwrite: bool, r: Result<seq<Path>, ToolError>, files1: map<Path, Doc<P>>)
    requires SavedOutcome(files0, dirs, dir, outs, overwrite, r, files1) && r.Ok?
    requires DistinctNames(outs)
    ensures r.value == OutputPaths(dir, outs)
    ensures forall k :: 0 <= k < |outs| ==> r.value[k] in files1 && files1[r.value[k]] == Doc(false, outs[k].pages)
    ensures forall p :: p in files1 <==> p in files0 || p in r.value
    ensures forall p :: p in files0 && p !in r.value ==> p in files1 && files1[p] == files0[p]
  {
    assert SavedCount(files0, dirs, dir, outs, overwrite) == |outs|;
    assert files1 == Written(files0, dir, outs) by {
      assert outs[..|outs|] == outs;
    }
    WrittenKeys(files0, dir, outs);
    WrittenElsewhere(files0, dir, outs);
    WrittenContents(files0, dir, outs);
  }

  /**
   * Saving is not all-or-nothing: when an output cannot be saved, the outputs before it stay
   * written, each holding its pages, and every other file is as it was.
   */
  lemma SavedFailure<P>(files0: map<Path, Doc<P>>, dirs: set<Path>, dir: Path, outs: seq<Output<P>>,
                        overwrite: bool, r: Result<seq<Path>, ToolError>, files1: map<Path, Doc<P>>)
    requires SavedOutcome(files0, dirs, dir, outs, overwrite, r, files1) && r.Err?
    requires DistinctNames(outs)
    ensures var n := SavedCount(files0, dirs, dir, outs, overwrite);
            && n < |outs|
            && (forall k :: 0 <= k < n ==> dir + [outs[k].name] in files1 && files1[dir + [outs[k].name]] == Doc(false, outs[k].pages))
            && (forall p :: p in files0 && p !in OutputPaths(dir, outs[..n]) ==> p in files1 && files1[p] == files0[p])
  {
    var n := SavedCount(files0, dirs, dir, outs, overwrite);
    assert n < |outs| && files1 == Written(files0, dir, outs[..n]);
    WrittenPrefix(files0, dir, outs, n);
  }

  /** Writing the first n outputs, with distinct names, puts each one's pages at its path and leaves the rest. */
  lemma WrittenPrefix<P>(files: map<Path, Doc<P>>, dir: Path, outs: seq<Output<P>>, n: nat)
    requires DistinctNames(outs) && n <= |outs|
    ensures forall k :: 0 <= k < n ==>
              dir + [outs[k].name] in Written(files, dir, outs[..n])
              && Written(files, dir, outs[..n])[dir + [outs[k].name]] == Doc(false, outs[k].pages)
    ensures forall p :: p in files && p !in OutputPaths(dir, outs[..n]) ==>
              p in Written(files, dir, outs[..n]) && Written(files, dir, outs[..n])[p] == files[p]
  {
    var done := outs[..n];
    assert DistinctNames(done);
    WrittenContents(files, dir, done);
    WrittenElsewhere(files, dir, done);
  }

  /**
   * After a successful split, the returned paths are the planned outputs' paths in order, each
   * holding its output's pages as a fresh unencrypted PDF, and no other file was created or changed.
   */
  lemma SplitSuccess<P>(files0: map<Path, Doc<P>>, dirs0: set<Path>, input: Path, outputDir: Path,
                        ranges: Option<string>, overwrite: bool,
                        r: Result<seq<Path>, ToolError>, files1: map<Path, Doc<P>>, dirs1: set<Path>)
    requires SplitOutcome(files0, dirs0, input, outputDir, ranges, overwrite, r, files1, dirs1)
    requires r.Ok?
    ensures input in files0 && !files0[input].encrypted
    ensures SplitOutputs(files0[input].pages, Stem(Name(input)), ranges).Ok?
    ensures var outs := SplitOutputs(files0[input].pages, Stem(Name(input)), ranges).value;
            && r.value == OutputPaths(outputDir, outs)
            && forall k :: 0 <= k < |outs| ==> r.value[k] in files1 && files1[r.value[k]] == Doc(false, outs[k].pages)
    ensures forall p :: p in files1 <==> p in files0 || p in r.value
    ensures forall p :: p in files0 && p !in r.value ==> p in files1 && files1[p] == files0[p]
  {
    var outs := SplitOutputs(files0[input].pages, Stem(Name(input)), ranges).value;
    SplitNamesDistinct(files0[input].pages, Stem(Name(input)), ranges);
    SavedSuccess(files0, dirs0 + Prefixes(DirectoryFor(outputDir)), outputDir, outs, overwrite, r, files1);
  }

  /**
   * An output directory whose name has a suffix ("out.v2") is not created, only its parent is
   * (ensure_output_directory_exists takes it for a file name), so unless it already exists the
   * first output cannot be opened and nothing is written: the open fails with NotADirectoryError
   * when that name is an existing file, and with FileNotFoundError otherwise.
   */
  lemma SuffixedDirectoryMissing<P>(files0: map<Path, Doc<P>>, dirs0: set<Path>, input: Path, outputDir: Path,
                                    ranges: Option<string>, overwrite: bool,
                                    r: Result<seq<Path>, ToolError>, files1: map<Path, Doc<P>>, dirs1: set<Path>)
    requires WellFormed(files0, dirs0)
    requires SplitOutcome(files0, dirs0, input, outputDir, ranges, overwrite, r, files1, dirs1)
    requires Suffix(Name(outputDir)) != "" && outputDir !in dirs0
    requires input in files0 && !files0[input].encrypted && MakeDirsCheck(files0, DirectoryFor(outputDir)).Pass?
    requires SplitOutputs(files0[input].pages, Stem(Name(input)), ranges).Ok?
    requires |SplitOutputs(files0[input].pages, Stem(Name(input)), ranges).value| >= 1
    ensures var p := outputDir + [SplitOutputs(files0[input].pages, Stem(Name(input)), ranges).value[0].name];
      r == Err(Fs(if outputDir in files0 then NotADirectory(p) else NoSuchDirectory(p)))
    ensures files1 == files0
  {
    var outs := SplitOutputs(files0[input].pages, Stem(Name(input)), ranges).value;
    var dirs := dirs0 + Prefixes(DirectoryFor(outputDir));
    var p := outputDir + [outs[0].name];
    assert Parent(p) == outputDir;
    assert p[..|outputDir|] == outputDir;
    assert outputDir !in Prefixes(Parent(outputDir));
    assert p !in dirs0;
    assert p !in Prefixes(Parent(outputDir));
    if outputDir in files0 {
      assert SaveCheck(files0, dirs, p, overwrite) == Fail(NotADirectory(p));
    } else {
      forall k | 0 < k < |p| ensures p[..k] !in files0 {
        if k < |outputDir| {
          assert p[..k] == Parent(outputDir)[..k];
        }
      }
      assert SaveCheck(files0, dirs, p, overwrite) == Fail(NoSuchDirectory(p));
    }
    assert outs[..0] == [];
  }

  /**
   * Range text that is present but blank is not read as "no ranges": once the input is read and
   * the output directory made, the parser's error is raised and no file is written.
   */
  lemma BlankRangeTextFails<P>(files0: map<Path, Doc<P>>, dirs0: set<Path>, input: Path, outputDir: Path,
                               text: string, overwrite: bool,
                               r: Result<seq<Path>, ToolError>, files1: map<Path, Doc<P>>, dirs1: set<Path>)
    requires SplitOutcome(files0, dirs0, input, outputDir, Some(text), overwrite, r, files1, dirs1)
    requires input in files0 && !files0[input].encrypted && MakeDirsCheck(files0, DirectoryFor(outputDir)).Pass?
    requires Strip(text) == ""
    ensures r == Err(BadRanges(EmptyText)) && files1 == files0
    ensures dirs1 == dirs0 + Prefixes(DirectoryFor(outputDir))
  {
  }
}
