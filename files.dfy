/**
 * The file-system guards of pdf_tool/utils.py over an abstract file system:
 * a set of directories and a map from file paths to the documents stored in
 * them. A path is the sequence of its components; the empty path is the
 * directory the relative paths start from.
 */
module Files {
  import opened Results
  import opened Text
  import opened Ranges
  import opened Documents

  type Path = seq<string>

  /** The OSError subclasses the guards and file writes raise. */
  datatype FsError =
    | NotFound(path: Path)          // FileNotFoundError from ensure_file_exists
    | AlreadyExists(path: Path)     // FileExistsError from assert_can_write, or from mkdir over a file
    | NotADirectory(path: Path)     // NotADirectoryError: a component of the path is a file
    | IsADirectory(path: Path)      // IsADirectoryError from opening a directory for writing
    | NoSuchDirectory(path: Path)   // opening a file for writing in a directory that does not exist

  /** The exceptions split_pdf_by_ranges and merge_pdfs let escape. */
  datatype ToolError =
    | Fs(error: FsError)
    | Encrypted(path: Path)         // PermissionError for an encrypted input
    | TooFewInputs                  // ValueError: fewer than two inputs to merge
    | BadRanges(reason: RangeError) // ValueError from parse_ranges_to_groups

  /** The directory a path lies in (PurePath.parent; the parent of the start directory is itself). */
  function Parent(p: Path): Path {
    if p == [] then [] else p[..|p| - 1]
  }

  /** PurePath.name: the final component. */
  function Name(p: Path): string {
    if p == [] then "" else p[|p| - 1]
  }

  /** A path and every directory above it. */
  function Prefixes(p: Path): set<Path> {
    set k | 0 <= k <= |p| :: p[..k]
  }

  /** The directory ensure_output_directory_exists creates: the path itself when it has no suffix, else its parent. */
  function DirectoryFor(p: Path): Path {
    if Suffix(Name(p)) == "" then p else Parent(p)
  }

  /** ensure_file_exists: the path must name an existing regular file. */
  function EnsureFileExists<P>(files: map<Path, Doc<P>>, p: Path): (r: Check<FsError>)
    ensures r.Pass? <==> p in files
    ensures r.Fail? ==> r == Fail(NotFound(p))
  {
    if p !in files then Fail(NotFound(p)) else Pass
  }

  /** assert_can_write: an existing file or directory may only be replaced with overwrite set. */
  function AssertCanWrite<P>(files: map<Path, Doc<P>>, dirs: set<Path>, p: Path, overwrite: bool): (r: Check<FsError>)
    ensures r.Pass? <==> overwrite || (p !in files && p !in dirs)
    ensures r.Fail? ==> r == Fail(AlreadyExists(p))
  {
    if (p in files || p in dirs) && !overwrite then Fail(AlreadyExists(p)) else Pass
  }

  /** Whether Path.mkdir(parents=True, exist_ok=True) succeeds: no component of the target may be a file. */
  function MakeDirsCheck<P>(files: map<Path, Doc<P>>, target: Path): (r: Check<FsError>)
    ensures r.Pass? <==> target !in files && forall k :: 0 < k <= |target| ==> target[..k] !in files
    ensures r.Fail? ==> r.error.path == target
  {
    if target in files then Fail(AlreadyExists(target))
    else if exists k :: 0 < k < |target| && target[..k] in files then Fail(NotADirectory(target))
    else
      assert target[..|target|] == target;
      Pass
  }

  /**
   * Whether open(p, "wb") succeeds: p is not a directory, no component above p is a file, and
   * p's directory exists.
   */
  function OpenCheck<P>(files: map<Path, Doc<P>>, dirs: set<Path>, p: Path): (r: Check<FsError>)
    ensures r.Pass? <==> p !in dirs && (forall k :: 0 < k < |p| ==> p[..k] !in files) && Parent(p) in dirs
    ensures r.Fail? ==> r.error.path == p
  {
    if p in dirs then Fail(IsADirectory(p))
    else if exists k :: 0 < k < |p| && p[..k] in files then Fail(NotADirectory(p))
    else if Parent(p) !in dirs then Fail(NoSuchDirectory(p))
    else Pass
  }

  /** Saving one output: assert_can_write, then opening the file for writing. */
  function SaveCheck<P>(files: map<Path, Doc<P>>, dirs: set<Path>, p: Path, overwrite: bool): Check<FsError> {
    var c := AssertCanWrite(files, dirs, p, overwrite);
    if c.Fail? then c else OpenCheck(files, dirs, p)
  }

  /** The documents stored at the given paths, in order (one PdfReader per path). */
  function DocsAt<P>(files: map<Path, Doc<P>>, paths: seq<Path>): (docs: seq<Doc<P>>)
    requires forall k :: 0 <= k < |paths| ==> paths[k] in files
    ensures |docs| == |paths|
  {
    seq(|paths|, k requires 0 <= k < |paths| => files[paths[k]])
  }

  /** The start directory exists, every directory's parent exists, and every file lies in a directory and is not one. */
  ghost predicate WellFormed<P>(files: map<Path, Doc<P>>, dirs: set<Path>) {
    && [] in dirs
    && (forall d :: d in dirs ==> Parent(d) in dirs)
    && (forall f :: f in files ==> f != [] && f !in dirs && Parent(f) in dirs)
  }

  class FileSystem<P> {
    var files: map<Path, Doc<P>>
    var dirs: set<Path>

    ghost predicate Valid()
      reads this
    {
      WellFormed(files, dirs)
    }

    /** A file system in a given well-formed state. */
    constructor (files0: map<Path, Doc<P>>, dirs0: set<Path>)
      requires WellFormed(files0, dirs0)
      ensures Valid() && files == files0 && dirs == dirs0
    {
      files := files0;
      dirs := dirs0;
    }

    /**
     * ensure_output_directory_exists: create DirectoryFor(p) and every directory above it.
     * mkdir fails before creating anything when a component is a file, so a failure changes nothing.
     */
    method EnsureOutputDirectoryExists(p: Path) returns (r: Check<FsError>)
      requires Valid()
      modifies this
      ensures Valid()
      ensures r == MakeDirsCheck(old(files), DirectoryFor(p))
      ensures files == old(files)
      ensures dirs == if r.Pass? then old(dirs) + Prefixes(DirectoryFor(p)) else old(dirs)
    {
      var target := if Suffix(Name(p)) == "" then p else Parent(p);
      r := MakeDirsCheck(files, target);
      if r.Fail? {
        return;
      }
      forall d | d in Prefixes(target) ensures Parent(d) in Prefixes(target) {
        var k :| 0 <= k <= |target| && d == target[..k];
        if k > 0 {
          assert Parent(d) == target[..k - 1];
        }
      }
      assert target[..|target|] == target;
      dirs := dirs + Prefixes(target);
      return Pass;
    }

    /** Opening p for writing and writing a document into it: p then holds exactly that document. */
    method WriteFile(p: Path, doc: Doc<P>) returns (r: Check<FsError>)
      requires Valid()
      modifies this
      ensures Valid()
      ensures r == OpenCheck(old(files), old(dirs), p)
      ensures dirs == old(dirs)
      ensures files == if r.Pass? then old(files)[p := doc] else old(files)
    {
      if p in dirs {
        return Fail(IsADirectory(p));
      }
      if exists k :: 0 < k < |p| && p[..k] in files {
        return Fail(NotADirectory(p));
      }
      if Parent(p) !in dirs {
        return Fail(NoSuchDirectory(p));
      }
      files := files[p := doc];
      return Pass;
    }
  }

  /**
   * After ensure_output_directory_exists(p) succeeds, a path with a suffix can be opened for
   * writing unless it is itself a directory, while a path without one has just become a directory.
   */
  lemma OutputDirectoryReady(dirs: set<Path>, p: Path)
    ensures Suffix(Name(p)) != "" ==> Parent(p) in dirs + Prefixes(DirectoryFor(p))
    ensures Suffix(Name(p)) == "" ==> p in dirs + Prefixes(DirectoryFor(p))
  {
    var t := DirectoryFor(p);
    assert t[..|t|] == t;
  }

  /** A failed save names the path it could not write, and only a missing overwrite flag yields AlreadyExists. */
  lemma {:induction false} SaveCheckFailure<P>(files: map<Path, Doc<P>>, dirs: set<Path>, p: Path, overwrite: bool)
    ensures SaveCheck(files, dirs, p, overwrite).Pass? <==>
      && (overwrite || (p !in files && p !in dirs))
      && p !in dirs
      && (forall k :: 0 < k < |p| ==> p[..k] !in files)
      && Parent(p) in dirs
    ensures SaveCheck(files, dirs, p, overwrite).Fail? ==> SaveCheck(files, dirs, p, overwrite).error.path == p
    ensures SaveCheck(files, dirs, p, overwrite) == Fail(AlreadyExists(p)) <==> !overwrite && (p in files || p in dirs)
  {
  }
}
