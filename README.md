# Pdf-Merge-Split-Mini in Dafny

A model of the core of Pdf-Merge-Split-Mini, a small tool that merges PDF files into one and
splits a PDF into one file per page or one file per page range. It has a command-line side
(`pdf_tool/`) and an HTTP side (`app.py`). The model covers:

- the page-range parser `parse_ranges_to_groups` and its helpers (`pdf_tool/utils.py`). It turns
  range text such as `"1-3,5,7-"` and a page count into ordered groups of 0-based page indices,
  or into the reason the text is refused;
- the file-system guards `ensure_file_exists`, `ensure_output_directory_exists` and
  `assert_can_write` (`pdf_tool/utils.py`), over an abstract file system;
- `split_pdf_by_ranges` (`pdf_tool/split.py`) and `merge_pdfs` (`pdf_tool/merge.py`), as methods
  that change that file system;
- the decision logic of the `/merge` and `/split` endpoints (`app.py`): how uploads are checked,
  which outputs are built and which response or HTTP error is chosen.

Modules, one per file:

- `Results`: the `Result`, `Check` and `Option` types. A Python exception becomes an `Err` or a
  `Fail` naming its cause.
- `Text`: the Python string operations the code relies on, over `string`. These are
  `str.strip`, `str.split`, `int()` on a decimal numeral, `str()` of a number,
  `lower().endswith(".pdf")`, `str.replace` of one character, and the `PurePath` name, stem and
  suffix rules.
- `Ranges`: the parser. `ParseRanges` is the parser as a function. `ParseRangesToGroups` is the
  source's loop, proved equal to it. The lemmas state what the parser accepts and what it builds.
- `Documents`: a PDF as the codec presents it: an encryption flag and a sequence of opaque pages
  of type `P`. This module also holds the outputs a split plans (`SplitOutputs`) and their names.
  Both split implementations share them.
- `Files`: the abstract file system, a class `FileSystem` holding a map from paths to documents
  and a set of directories. It also holds the guards and the preconditions of `mkdir` and
  `open(..., "wb")`.
- `Split` and `Merge`: the two file-system operations. Each is proved against a ghost predicate
  (`SplitOutcome`, `MergeOutcome`). The predicate gives the result and the new state as a function
  of the old state, check by check in the source's order. Lemmas then state what success and
  failure mean.
- `Web`: the two endpoints, as functions `MergeResponse` and `SplitResponse` and as methods
  following the handlers' code, proved equal to those functions.

Two behaviours of the code are worth knowing, and the model keeps both:

- Neither operation is all-or-nothing on disk. `split_pdf_by_ranges` writes its outputs one after
  another, so a failure leaves the earlier outputs written (`Split.SavedFailure`). Both
  operations create the output directory before checks that can still fail.
- For `split_pdf_by_ranges`, range text that is present but blank is refused with the parser's
  error (`Split.BlankRangeTextFails`). It is not treated as "no ranges". Only the web endpoint
  strips the text and falls back to one file per page.

## Model

| member | source | states |
|---|---|---|
| Ranges.ParseRangesToGroups | pdf_tool/utils.py:34-96 | The loop over the tokens returns exactly `ParseRanges`: blank text is `EmptyText`, text with no non-blank token is `NoTokens`, otherwise the tokens' groups in token order, stopping at the first token that fails |
| Ranges.TokenToGroup | pdf_tool/utils.py:55-94 | One token yields a single page, a closed range, an open range, or the error of the first failing check (missing start, not a number, not positive, out of range, end before start, too many dashes) |
| Ranges.ParsePositiveInt | pdf_tool/utils.py:99-111 | Succeeds exactly when the text is a decimal numeral whose value is at least 1, and then returns that value; text that is not a numeral is refused as not a number, and a numeral of value 0 as not positive |
| Ranges.PositiveNumeral | pdf_tool/utils.py:99-111 | The decimal numeral of a positive number, after any leading zeros, reads back as that number |
| Ranges.AssertInRange | pdf_tool/utils.py:114-121 | A page number passes exactly when it lies in [low, high], and is otherwise refused as out of range with the number and both bounds; passing implies the bounds admit some page, so with no pages every number is refused |
| Ranges.ParseAllSpec | pdf_tool/utils.py:55-94 | The tokens parse exactly when each token does; then group k is token k's group; otherwise the error is that of the first failing token, with all tokens before it accepted |
| Ranges.ParseAllAppend | pdf_tool/utils.py:53-96 | Parsing two token lists in turn gives their groups in turn |
| Ranges.ParseToken | pdf_tool/utils.py:55-94 | Every group a token yields is a non-empty ascending run of consecutive page indices inside [0, total); which token yields which group or error is stated, case by case, by SingleNumeral and NonNumeralSingle (no dash), StartRequired, RangeStartNotNumeral, SpacedRange, SpacedOpenRange and RangeEndNotNumeral (one dash, white space around it allowed), and TooManyDashes |
| Ranges.GroupsWithinBounds | pdf_tool/utils.py:34-96 | A successful parse yields at least one group, no empty group, and only indices of existing pages |
| Ranges.NoPagesNoRanges | pdf_tool/utils.py:61 | A document without pages admits no range text at all |
| Ranges.BlankOrCommasOnly | pdf_tool/utils.py:46-51 | Blank text is refused as empty; text made only of commas and white space is refused as having no tokens |
| Ranges.CommasOnlyNoTokens | pdf_tool/utils.py:49 | Text of commas and white space has no tokens |
| Ranges.TokensAround | pdf_tool/utils.py:49 | The tokens of `a,b` are the tokens of `a` followed by those of `b` |
| Ranges.OneTokenText | pdf_tool/utils.py:49-94 | A text that is a single token parses to that token's group, or fails with that token's error |
| Ranges.ParseRangesAppend | pdf_tool/utils.py:49-96 | The groups of `a,b` are those of `a` followed by those of `b`: groups are neither merged nor de-duplicated |
| Ranges.DoubledComma | pdf_tool/utils.py:49 | A doubled comma parses like a single one |
| Ranges.TrailingComma | pdf_tool/utils.py:49 | A trailing comma after non-blank text changes nothing |
| Ranges.SingleNumeral | pdf_tool/utils.py:59-63 | A numeral token n selects page n alone (index n-1) when 1 <= n <= total; 0 is not positive and a larger n is out of range |
| Ranges.ClosedRange | pdf_tool/utils.py:66-92 | "A-B" selects indices A-1..B-1 in ascending order when 1 <= A <= B <= total; otherwise the error of the first failing check, in the source's order |
| Ranges.NonNumeralSingle | pdf_tool/utils.py:59-60 | A token without a dash that is not a numeral ("abc", "") is refused as not a number |
| Ranges.SpacedRange | pdf_tool/utils.py:66-92 | A one-dash token is read through its parts with the white space around the dash stripped ("1 - 3" as "1-3"): the pages A..B, or the first failing check in the source's order |
| Ranges.SpacedOpenRange | pdf_tool/utils.py:66-80 | A one-dash token whose end is blank selects pages A..total exactly when 1 <= A <= total, else the start's error |
| Ranges.RangeStartNotNumeral | pdf_tool/utils.py:67-72 | A range whose start is present but not a numeral ("x-3") is refused as not a number, before its end is looked at |
| Ranges.RangeEndNotNumeral | pdf_tool/utils.py:72-84 | A range whose end is present but not a numeral ("2-x") fails on its start first, and otherwise as not a number |
| Ranges.OpenRange | pdf_tool/utils.py:72-80 | "A-" selects indices A-1..total-1 in ascending order when 1 <= A <= total, else the first failing check |
| Ranges.StartRequired | pdf_tool/utils.py:69-70 | A range whose start is blank is refused before any number is read |
| Ranges.TooManyDashes | pdf_tool/utils.py:94 | A token with two or more dashes is malformed |
| Ranges.SinglePage | pdf_tool/utils.py:59-63 | The numeral of page n, with any leading zeros, selects exactly [[n-1]] when 1 <= n <= total |
| Ranges.WholeDocument | pdf_tool/utils.py:83-91 | "1-N" on an N-page document selects the whole document in order, as one group |
| Ranges.DuplicatesKept | pdf_tool/utils.py:55-96 | The same page named twice yields two identical groups, kept apart |
| Ranges.TokensOfStripped | pdf_tool/utils.py:49 | Stripping the whole text first gives the same tokens |
| Ranges.StrippedRanges | pdf_tool/utils.py:46-51 | Stripping the text before parsing changes neither the groups nor the error |
| Text.Split | pdf_tool/utils.py:49 | `str.split` yields at least one piece and no piece holds the separator |
| Text.JoinSplit | pdf_tool/utils.py:49 | Joining the pieces with the separator gives the text back |
| Text.SplitAround | pdf_tool/utils.py:56 | Splitting `a + sep + b` gives the pieces of `a` followed by those of `b` |
| Text.StripEnds | pdf_tool/utils.py:46 | A stripped text is empty or neither starts nor ends with white space |
| Text.StripCore | pdf_tool/utils.py:49 | A text is its stripped core with only white space before and after it |
| Text.StripIdempotent | app.py:119 | Stripping twice is stripping once |
| Text.StripBlank | pdf_tool/utils.py:46 | A text strips to "" exactly when all its characters are white space |
| Text.StripSurrounded | pdf_tool/utils.py:49 | White space added around a text is removed by strip |
| Text.NatToString | pdf_tool/split.py:46 | `str(n)` is a numeral of value n without leading zeros |
| Text.DigitsValueLeadingZeros | pdf_tool/utils.py:104 | Leading zeros do not change a numeral's value |
| Text.DigitsValueZero | pdf_tool/utils.py:108-109 | A numeral has value 0 exactly when all its digits are '0' |
| Text.StemSuffix | pdf_tool/split.py:39 | Stem and suffix split a file name in two; there is a suffix exactly when the name's last dot is neither its first nor its last character, and the suffix then starts at that dot; a name with a suffix has a non-empty stem |
| Text.ReplaceChar | app.py:99 | `replace` keeps the length and changes exactly the occurrences of one character |
| Documents.SelectPages | pdf_tool/split.py:66-68 | The writer receives the pages at the group's indices, in the group's order, repeats included |
| Documents.AppendPages | pdf_tool/merge.py:38-39 | Adding every page of a reader appends its pages, in order, after those already in the writer |
| Documents.ConcatPagesLength | pdf_tool/merge.py:31-39 | The merged pages number as many as the inputs' pages together |
| Documents.ConcatPagesAppend | pdf_tool/merge.py:31-39 | Merging two lists of documents in turn gives the pages of the first list, then those of the second |
| Documents.NamesInjective | pdf_tool/split.py:46 | Different page numbers give different file names, different part numbers too, and a page name never equals a part name |
| Documents.PageNamesDistinct | pdf_tool/split.py:45-46 | A per-page split never plans two outputs with the same name |
| Documents.GroupNamesDistinct | pdf_tool/split.py:62-63 | A split by ranges never plans two outputs with the same name |
| Documents.SplitNamesDistinct | pdf_tool/split.py:43-73 | Every planned split has distinct output names, so no output overwrites another |
| Documents.SplitOutputs | pdf_tool/split.py:43-73 | Without range text the plan always exists, one output per page; with range text it exists exactly when the text parses, and otherwise carries the parser's error; every planned output holds at least one page (names and contents: PerPageRoundTrip, SplitNamesDistinct, SplitOutputCount) |
| Documents.SplitOutputCount | pdf_tool/split.py:43-73 | Without range text there is one output per page; with range text there is one output per group, or the parser's error |
| Documents.PerPageRoundTrip | pdf_tool/split.py:43-55 | The outputs of a per-page split, taken in order, hold the document's pages in order |
| Documents.WholeDocumentSplit | pdf_tool/split.py:58-73 | Range text "1-N" plans a single part holding the whole document |
| Files.EnsureFileExists | pdf_tool/utils.py:7-13 | Passes exactly when the path names an existing file, and otherwise reports that path as not found |
| Files.AssertCanWrite | pdf_tool/utils.py:24-31 | Passes exactly when overwrite is set or nothing exists at the path, and otherwise reports that the path already exists |
| Files.MakeDirsCheck | pdf_tool/utils.py:20-21 | `mkdir(parents=True, exist_ok=True)` succeeds exactly when neither the target nor any directory above it is a file; a failure names the target |
| Files.FileSystem.EnsureOutputDirectoryExists | pdf_tool/utils.py:16-21 | Creates the target, the path itself when it has no suffix and its parent otherwise, with every directory above it; fails without change when a component is a file; files never change |
| Files.OpenCheck | pdf_tool/split.py:51 | Opening a path for writing succeeds exactly when the path is not a directory, no component above it is a file, and its directory exists; a failure names the path |
| Files.FileSystem.WriteFile | pdf_tool/split.py:51-52 | Opening for writing fails on a directory (`IsADirectoryError`), below a file (`NotADirectoryError`) or in a missing directory (`FileNotFoundError`); otherwise the path holds exactly the new document and nothing else changes |
| Files.OutputDirectoryReady | pdf_tool/utils.py:16-21 | After the directory is ensured, a path with a suffix has an existing parent, and a path without one has itself become a directory |
| Files.SaveCheckFailure | pdf_tool/utils.py:24-31 | A save succeeds exactly when the path may be written (absent, or overwrite set), is not a directory, has no file among the components above it, and lies in an existing directory; a failure names the path; `FileExistsError` arises exactly for an existing path without overwrite |
| Split.Save | pdf_tool/split.py:47-52 | `assert_can_write` then the write: the result is the save check, and the file is written exactly when it passes |
| Split.SavedCount | pdf_tool/split.py:45-47 | The outputs before the counted one all pass their save check, and the counted one, if any, fails it |
| Split.SplitPdfByRanges | pdf_tool/split.py:16-73 | Realises `SplitOutcome`: a missing input, an encrypted input and an uncreatable output directory fail without change; otherwise the directory is created, the outputs are planned from the range text, and they are saved in order until one cannot be |
| Split.SplitPerPage | pdf_tool/split.py:43-55 | Saves one file per page, in page order, stopping at the first that cannot be saved |
| Split.SplitByGroups | pdf_tool/split.py:62-73 | Saves one file per group, in group order, stopping at the first that cannot be saved |
| Split.WrittenKeys | pdf_tool/split.py:51-52 | Writing outputs adds exactly their paths to the files |
| Split.WrittenElsewhere | pdf_tool/split.py:51-52 | Writing outputs leaves every other file as it was |
| Split.WrittenContents | pdf_tool/split.py:49-52 | With distinct names, each output's path holds exactly that output's pages |
| Split.WrittenPrefix | pdf_tool/split.py:45-54 | After the first n outputs are written, each holds its pages and every other file is unchanged |
| Split.SaveUnaffected | pdf_tool/split.py:47 | Writing the earlier outputs does not change whether a later one, with another name, can be saved |
| Split.SavedStep | pdf_tool/split.py:49-54 | Saving one more output adds its file and appends its path to the returned list |
| Split.SavedSuccess | pdf_tool/split.py:43-55 | When every output is saved, the returned paths are the outputs' paths in order, each holds its pages, and no other file was created or changed |
| Split.SavedFailure | pdf_tool/split.py:45-54 | When an output cannot be saved, the outputs before it stay written with their pages and other files are unchanged |
| Split.SplitSuccess | pdf_tool/split.py:16-73 | A successful split had an existing unencrypted input and valid ranges; it returns the planned outputs' paths in order, each holding its pages, and changes no other file |
| Split.SuffixedDirectoryMissing | pdf_tool/utils.py:20 | An output directory whose name has a suffix is not created, only its parent, so the first output cannot be opened and nothing is written: the error is `NotADirectoryError` when that name is an existing file and `FileNotFoundError` otherwise |
| Split.BlankRangeTextFails | pdf_tool/split.py:58 | Blank range text is refused with the parser's error after the output directory is made, and no file is written |
| Merge.FirstMissing | pdf_tool/merge.py:23-24 | The inputs before the index exist, and the input at the index, if any, does not |
| Merge.FirstEncrypted | pdf_tool/merge.py:31-36 | The documents before the index are unencrypted, and the one at the index, if any, is encrypted |
| Merge.MergePdfs | pdf_tool/merge.py:11-42 | Realises `MergeOutcome`: fewer than two inputs, then any missing input, then an uncreatable directory, then an existing output without overwrite, then an encrypted input, then an unopenable output; the first that applies is the error, and only the created directory survives it; on success the output holds every input's pages, input after input |
| Merge.CheckInputsExist | pdf_tool/merge.py:23-24 | Fails naming the first input that is not an existing file, else passes |
| Merge.ReadInputs | pdf_tool/merge.py:29-39 | Fails naming the first encrypted input, else yields the inputs' pages, input after input |
| Merge.MergeSuccess | pdf_tool/merge.py:11-42 | A successful merge had at least two existing unencrypted inputs, and it changes only the output, which holds the inputs' pages in order |
| Merge.MergedLength | pdf_tool/merge.py:29-42 | The merged file has as many pages as its inputs together |
| Merge.ExistingOutputRefused | pdf_tool/merge.py:27 | An existing output, file or directory, without overwrite is refused before any input is read, whatever the inputs hold; no failure writes a file |
| Merge.SuffixlessOutputFails | pdf_tool/merge.py:26-27 | An output path without a suffix never receives the merge: it is made a directory, so the write check or the open fails |
| Merge.MergeOrder | pdf_tool/merge.py:31-39 | The merged pages are the first inputs' pages followed by the rest's |
| Merge.ReadBackPerPage | pdf_tool/merge.py:31-39 | Reading back one-page files in order gives those pages in order |
| Merge.SplitThenMerge | pdf_tool/merge.py:29-42 | Splitting a document page by page and merging the returned files, in the returned order, gives a file holding the document's pages |
| Web.UploadCheck | app.py:44-55 | An upload is accepted exactly when its name ends in ".pdf" (any case) and its bytes are a readable unencrypted PDF, which is then the result; a wrong name is reported as such, and the other refusals name the upload exactly when the caller asks (merge does, split does not, app.py:84-96) |
| Web.FirstRejected | app.py:42-55 | The uploads before the index pass every check, and the upload at the index, if any, fails one |
| Web.MergeUploads | app.py:42-58 | The first upload that fails a check stops the merge with that check's reason; otherwise the writer holds every upload's pages, upload after upload |
| Web.AcceptedStep | app.py:57-58 | One more accepted upload adds its document after those before it |
| Web.MergeEndpoint | app.py:31-75 | The handler answers as `MergeResponse`: 400 for fewer than two files or a failed upload check, otherwise the merged pages under the corrected name |
| Web.MergeResponseSpec | app.py:37-63 | A merge succeeds exactly when there are at least two uploads and all pass their checks; the download then has a ".pdf" name and holds every upload's pages, upload after upload, as many as all the uploads together |
| Web.SafeName | app.py:61-63 | The merge download name always ends in ".pdf" (any case) |
| Web.SafeNameSpec | app.py:61-63 | The download name always ends in ".pdf" and has no surrounding white space, so correcting it again changes nothing; blank becomes "merged.pdf"; a stripped ".pdf" name is kept; any other stripped name gets ".pdf" appended |
| Web.SplitEndpoint | app.py:78-150 | The handler answers as `SplitResponse`: 400 for a failed upload check or refused ranges, 500 when nothing is generated, the single PDF for one output, a ZIP for more |
| Web.PagePdfs | app.py:112-115 | One output per page, named `{base}_page_{i}.pdf`, holding that page |
| Web.PartPdfs | app.py:123-125 | One output per group, named `{base}_part_{k}.pdf`, holding the group's pages in order |
| Web.BaseName | app.py:99 | The base name of split outputs is never empty and never holds a double quote |
| Web.BaseNameSpec | app.py:99 | The base name is "document" when the upload's stem is empty; otherwise it is the stem with each double quote made an underscore and nothing else changed, so a quote-free stem is kept as it is |
| Web.SplitServerError | app.py:128-129 | The split answers 500 exactly for an acceptable upload with no pages and no range text |
| Web.RangeText | app.py:112-119 | Absent or blank range text becomes "no ranges" (one file per page); any other text is handed on stripped, non-empty, and unchanged by a further strip (the parser's own strip: SameOutputsAsCommandLine) |
| Web.Respond | app.py:128-150 | No outputs is a 500 answer; exactly one output is answered as that PDF under its own name; two or more are answered as a ZIP of all of them named `{base}_split.zip` |
| Web.SplitResponseShape | app.py:131-150 | A PDF answer carries the only planned output; a ZIP answer carries all of them, at least two, under distinct names, and is named `{base}_split.zip` |
| Web.PerPageDownloadRoundTrip | app.py:112-115 | Without range text, the answer's outputs, taken in order, hold the uploaded document's pages |
| Web.SameOutputsAsCommandLine | app.py:116-125 | For non-blank range text, the web split plans the same outputs as `split_pdf_by_ranges`: its extra strip changes nothing |

## Left out

- The PDF codec (pypdf) is not modelled. A document is an encryption flag and a sequence of opaque pages. Byte-level reading, writing and page serialisation are outside the model.
- The command-line operations never meet an unreadable file. A file that exists but is not a valid PDF makes `PdfReader` raise (pdf_tool/split.py:31, pdf_tool/merge.py:32); the file system here stores only documents the codec can read. The web side does model unreadable uploads (`Unreadable`).
- Ranges.ParsePositiveInt: reads only ASCII decimal numerals. Python's `int()` also accepts a leading `+`, underscores between digits and non-ASCII decimal digits, and refuses numerals of more than 4300 digits. Here those texts are `NotANumber` or are accepted.
- Text.HasPdfExtension: `str.lower()` is modelled for ASCII letters only. Non-ASCII characters whose lower case is an ASCII letter are left out.
- Text.IsSpace: the white-space set is Python's `str.isspace()` set written out as a list of characters, not derived from the Unicode database.
- Paths are sequences of components. No normalisation, symbolic links or permissions are modelled, and `Path(p)` conversions are identity. An upload's file name is read with POSIX rules (`Text.FinalComponent`).
- Only the errors the guards and the open raise are modelled. Other operating-system errors (permissions, a full disk, a failure while writing after the open) are left out.
- The exception messages, which are Korean text, are left out. Each error carries its cause and the path, token or value it names.
- The check-then-write race between `assert_can_write` and the open is left out. The model is sequential.
- pypdf reads pages lazily. When the merge output is also one of its inputs and overwrite is set, the model reads every input before the output is opened.
- The web side's transport is left out: async reading of uploads, `StreamingResponse`, `Content-Disposition` headers, ZIP compression (a ZIP answer is modelled as its named entries) and the `/` and `/health` endpoints with their template.
- Web.MergeEndpoint: a request whose `files` is `None` is not modelled, since FastAPI requires the field; an upload without a file name is modelled as one named "".
- The command-line front end and the helper scripts (main.py, launch.py, run_tests.py, bind_test.py, make_icon.py, make_test_pdf.py) are not part of this model.
- The branch `if len(groups) == 0: return []` in pdf_tool/split.py:59-60 is not modelled because it cannot be taken: `Ranges.GroupsWithinBounds` proves that a successful parse yields at least one group.
