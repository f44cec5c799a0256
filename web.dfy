/**
 * The decision logic of the /merge and /split endpoints of the web service
 * (app.py): validating uploads, choosing the outputs, and choosing the
 * response. Uploaded bytes are represented by what the PDF codec makes of them.
 */
module Web {
  import opened Results
  import opened Text
  import opened Ranges
  import opened Documents

  /** What reading an upload yields: no bytes, bytes the codec rejects, or a parsed document. */
  datatype Payload<P> = NoData | Unreadable | Readable(doc: Doc<P>)

  /** An uploaded file: the client's file name and its contents. */
  datatype Upload<P> = Upload(filename: string, payload: Payload<P>)

  /** Why a request is refused; merge's upload errors name the upload, split's do not. */
  datatype Reason =
    | TooFewFiles
    | NotPdf(filename: string)
    | EmptyFile(shown: Option<string>)
    | InvalidPdf(shown: Option<string>)
    | EncryptedPdf(shown: Option<string>)
    | InvalidRanges(error: RangeError)
    | NothingGenerated

  /** An HTTPException: the status code and the reason behind its detail text. */
  datatype HttpError = HttpError(status: int, reason: Reason)

  /** The body of a successful response: one PDF, or a ZIP archive of named PDFs. */
  datatype Download<P> = PdfDownload(filename: string, pages: seq<P>) | ZipDownload(filename: string, entries: seq<Output<P>>)

  /**
   * The checks every upload passes, in order: a ".pdf" file name (any case), some bytes,
   * bytes the codec can read, and no encryption. `named` says whether errors name the upload.
   */
  function UploadCheck<P>(u: Upload<P>, named: bool): (r: Result<Doc<P>, Reason>)
    ensures r.Ok? <==> HasPdfExtension(u.filename) && u.payload.Readable? && !u.payload.doc.encrypted
    ensures r.Ok? ==> r.value == u.payload.doc
    ensures r.Err? && !HasPdfExtension(u.filename) ==> r.error == NotPdf(u.filename)
    ensures r.Err? && HasPdfExtension(u.filename) ==>
              (r.error.EmptyFile? || r.error.InvalidPdf? || r.error.EncryptedPdf?)
              && r.error.shown == (if named then Some(u.filename) else None)
  {
    var shown := if named then Some(u.filename) else None;
    if !HasPdfExtension(u.filename) then Err(NotPdf(u.filename))
    else match u.payload
      case NoData => Err(EmptyFile(shown))
      case Unreadable => Err(InvalidPdf(shown))
      case Readable(doc) => if doc.encrypted then Err(EncryptedPdf(shown)) else Ok(doc)
  }

  /** The index of the first upload that fails its checks, or |uploads| when none does. */
  function FirstRejected<P>(uploads: seq<Upload<P>>): (k: nat)
    ensures k <= |uploads|
    ensures forall j :: 0 <= j < k ==> UploadCheck(uploads[j], true).Ok?
    ensures k < |uploads| ==> UploadCheck(uploads[k], true).Err?
  {
    if uploads == [] || UploadCheck(uploads[0], true).Err? then 0
    else
      var m := FirstRejected(uploads[1..]);
      assert forall j :: 1 <= j < 1 + m ==> uploads[j] == uploads[1..][j - 1];
      1 + m
  }

  /** The documents of uploads that all pass their checks. */
  function AcceptedDocs<P>(uploads: seq<Upload<P>>): (docs: seq<Doc<P>>)
    requires forall k :: 0 <= k < |uploads| ==> UploadCheck(uploads[k], true).Ok?
    ensures |docs| == |uploads|
  {
    seq(|uploads|, k requires 0 <= k < |uploads| => UploadCheck(uploads[k], true).value)
  }

  /** The download name of a merge: the stripped output name, "merged.pdf" when blank, ".pdf" appended when missing. */
  function SafeName(outputName: string): (r: string)
    ensures HasPdfExtension(r)
  {
    var name := if Strip(outputName) == "" then "merged.pdf" else Strip(outputName);
    if HasPdfExtension(name) then name else name + ".pdf"
  }

  /** The base of the split outputs' names: the upload's stem, "document" when empty, with '"' made '_'. */
  function BaseName(filename: string): (r: string)
    ensures r != ""
    ensures forall k :: 0 <= k < |r| ==> r[k] != '"'
  {
    var stem := Stem(FinalComponent(filename));
    ReplaceChar(if stem == "" then "document" else stem, '"', '_')
  }

  /** The range text the split endpoint hands to the parser: none when absent or blank, else stripped. */
  function RangeText(ranges: Option<string>): (r: Option<string>)
    ensures r.None? <==> ranges.None? || Strip(ranges.value) == ""
    ensures r.Some? ==> r.value != "" && Strip(r.value) == r.value
  {
    if ranges.None? || Strip(ranges.value) == "" then None
    else
      StripIdempotent(ranges.value);
      Some(Strip(ranges.value))
  }

  /** The response for the outputs of a split: an error when there are none, the PDF itself for one, a ZIP otherwise. */
  function Respond<P>(base: string, outs: seq<Output<P>>): (r: Result<Download<P>, HttpError>)
    ensures r.Err? <==> outs == []
    ensures r.Err? ==> r.error == HttpError(500, NothingGenerated)
    ensures r.Ok? ==> (r.value.PdfDownload? <==> |outs| == 1)
    ensures r.Ok? && r.value.PdfDownload? ==> outs == [Output(r.value.filename, r.value.pages)]
    ensures r.Ok? && r.value.ZipDownload? ==> r.value.entries == outs && r.value.filename == base + "_split.zip"
  {
    if |outs| == 0 then Err(HttpError(500, NothingGenerated))
    else if |outs| == 1 then Ok(PdfDownload(outs[0].name, outs[0].pages))
    else Ok(ZipDownload(base + "_split.zip", outs))
  }

  /** merge_endpoint, as a function of the uploads and the requested output name. */
  function MergeResponse<P>(files: seq<Upload<P>>, outputName: string): Result<Download<P>, HttpError> {
    if |files| < 2 then Err(HttpError(400, TooFewFiles))
    else
      var k := FirstRejected(files);
      if k < |files| then Err(HttpError(400, UploadCheck(files[k], true).error))
      else Ok(PdfDownload(SafeName(outputName), ConcatPages(AcceptedDocs(files))))
  }

  /** split_endpoint, as a function of the upload and the range text. */
  function SplitResponse<P>(file: Upload<P>, ranges: Option<string>): Result<Download<P>, HttpError> {
    var checked := UploadCheck(file, false);
    if checked.Err? then Err(HttpError(400, checked.error))
    else
      var base := BaseName(file.filename);
      var plan := SplitOutputs(checked.value.pages, base, RangeText(ranges));
      if plan.Err? then Err(HttpError(400, InvalidRanges(plan.error)))
      else Respond(base, plan.value)
  }

  /**
   * merge_endpoint (app.py:31-75) as the handler runs it, check after check; it is proved equal to
   * MergeResponse, which states the same decisions as a function.
   */
  method MergeEndpoint<P>(files: seq<Upload<P>>, outputName: string) returns (r: Result<Download<P>, HttpError>)
    ensures r == MergeResponse(files, outputName)
  {
    if |files| < 2 {
      return Err(HttpError(400, TooFewFiles));
    }
    var writer := MergeUploads(files);
    if writer.Err? {
      return Err(HttpError(400, writer.error));
    }
    return Ok(PdfDownload(SafeName(outputName), writer.value));
  }

  /**
   * app.py:42-58: check and read the uploads in order into one writer; the first upload that
   * fails a check stops the merge with that check's reason.
   */
  method MergeUploads<P>(files: seq<Upload<P>>) returns (r: Result<seq<P>, Reason>)
    ensures var k := FirstRejected(files);
            r == if k < |files| then Err(UploadCheck(files[k], true).error) else Ok(ConcatPages(AcceptedDocs(files)))
  {
    var writer: seq<P> := [];
    for i := 0 to |files|
      invariant i <= FirstRejected(files)
      invariant writer == ConcatPages(AcceptedDocs(files[..i]))
    {
      var upload := files[i];
      if !HasPdfExtension(upload.filename) {
        assert FirstRejected(files) == i;
        return Err(NotPdf(upload.filename));
      }
      if upload.payload.NoData? {
        assert FirstRejected(files) == i;
        return Err(EmptyFile(Some(upload.filename)));
      }
      if upload.payload.Unreadable? {
        assert FirstRejected(files) == i;
        return Err(InvalidPdf(Some(upload.filename)));
      }
      var reader := upload.payload.doc;
      if reader.encrypted {
        assert FirstRejected(files) == i;
        return Err(EncryptedPdf(Some(upload.filename)));
      }
      assert UploadCheck(upload, true) == Ok(reader);
      AcceptedStep(files, i);
      writer := AppendPages(writer, reader.pages);
    }
    assert files[..|files|] == files;
    return Ok(writer);
  }

  /** One more accepted upload adds its document after those of the uploads before it. */
  lemma AcceptedStep<P>(files: seq<Upload<P>>, i: nat)
    requires i < FirstRejected(files)
    ensures AcceptedDocs(files[..i + 1]) == AcceptedDocs(files[..i]) + [UploadCheck(files[i], true).value]
  {
    assert files[..i + 1][..i] == files[..i];
  }

  /**
   * split_endpoint (app.py:78-150) as the handler runs it, check after check; it is proved equal to
   * SplitResponse, which states the same decisions as a function.
   */
  method SplitEndpoint<P>(file: Upload<P>, ranges: Option<string>) returns (r: Result<Download<P>, HttpError>)
    ensures r == SplitResponse(file, ranges)
  {
    if !HasPdfExtension(file.filename) {
      return Err(HttpError(400, NotPdf(file.filename)));
    }
    if file.payload.NoData? {
      return Err(HttpError(400, EmptyFile(None)));
    }
    if file.payload.Unreadable? {
      return Err(HttpError(400, InvalidPdf(None)));
    }
    var reader := file.payload.doc;
    if reader.encrypted {
      return Err(HttpError(400, EncryptedPdf(None)));
    }
    var totalPages := |reader.pages|;
    var baseName := BaseName(file.filename);
    assert UploadCheck(file, false) == Ok(reader);
    var outputs: seq<Output<P>>;
    if ranges.None? || Strip(ranges.value) == "" {
      outputs := PagePdfs(reader.pages, baseName);
    } else {
      var parsed := ParseRangesToGroups(Strip(ranges.value), totalPages);
      if parsed.Err? {
        return Err(HttpError(400, InvalidRanges(parsed.error)));
      }
      GroupsWithinBounds(Strip(ranges.value), totalPages);
      outputs := PartPdfs(reader.pages, baseName, parsed.value);
    }
    assert SplitOutputs(reader.pages, baseName, RangeText(ranges)) == Ok(outputs);
    if |outputs| == 0 {
      return Err(HttpError(500, NothingGenerated));
    }
    if |outputs| == 1 {
      return Ok(PdfDownload(outputs[0].name, outputs[0].pages));
    }
    return Ok(ZipDownload(baseName + "_split.zip", outputs));
  }

  /** app.py:112-115: one PDF per page, named "{base}_page_{i}.pdf", built by build_single_pdf([i]). */
  method PagePdfs<P>(pages: seq<P>, baseName: string) returns (outputs: seq<Output<P>>)
    ensures outputs == PerPageOutputs(pages, baseName)
  {
    outputs := [];
    for i := 0 to |pages|
      invariant outputs == PerPageOutputs(pages, baseName)[..i]
    {
      var pdf := SelectPages(pages, [i]);
      assert pdf == [pages[i]];
      assert PerPageOutputs(pages, baseName)[..i + 1] == outputs + [Output(PageName(baseName, i + 1), pdf)];
      outputs := outputs + [Output(PageName(baseName, i + 1), pdf)];
    }
    assert PerPageOutputs(pages, baseName)[..|pages|] == PerPageOutputs(pages, baseName);
  }

  /** app.py:123-125: one PDF per group, named "{base}_part_{gi}.pdf", built by build_single_pdf(group). */
  method PartPdfs<P>(pages: seq<P>, baseName: string, groups: seq<seq<int>>) returns (outputs: seq<Output<P>>)
    requires GroupsIn(groups, |pages|)
    ensures outputs == GroupOutputs(pages, baseName, groups)
  {
    outputs := [];
    for gi := 0 to |groups|
      invariant outputs == GroupOutputs(pages, baseName, groups)[..gi]
    {
      var pdf := SelectPages(pages, groups[gi]);
      assert GroupOutputs(pages, baseName, groups)[..gi + 1] == outputs + [Output(PartName(baseName, gi + 1), pdf)];
      outputs := outputs + [Output(PartName(baseName, gi + 1), pdf)];
    }
    assert GroupOutputs(pages, baseName, groups)[..|groups|] == GroupOutputs(pages, baseName, groups);
  }

  /**
   * The merge download name always ends in ".pdf" (in any case) and has no surrounding white space,
   * so correcting it again changes nothing; a stripped name that already ends in ".pdf" is kept.
   */
  lemma {:induction false} SafeNameSpec(outputName: string)
    ensures HasPdfExtension(SafeName(outputName))
    ensures Strip(SafeName(outputName)) == SafeName(outputName)
    ensures SafeName(SafeName(outputName)) == SafeName(outputName)
    ensures HasPdfExtension(Strip(outputName)) ==> SafeName(outputName) == Strip(outputName)
    ensures Strip(outputName) == "" ==> SafeName(outputName) == "merged.pdf"
    ensures Strip(outputName) != "" && !HasPdfExtension(Strip(outputName)) ==> SafeName(outputName) == Strip(outputName) + ".pdf"
  {
    var n := Strip(outputName);
    StripEnds(outputName);
    if n == "" {
      StripTrimmed("merged.pdf");
    } else if HasPdfExtension(n) {
      StripTrimmed(n);
    } else {
      var m := n + ".pdf";
      assert m[0] == n[0] && m[|m| - 1] == 'f';
      StripTrimmed(m);
    }
  }

  /** The base name of split outputs is never empty and never holds a double quote. */
  lemma BaseNameSpec(filename: string)
    ensures BaseName(filename) != ""
    ensures '"' !in BaseName(filename)
    ensures var stem := Stem(FinalComponent(filename));
            stem != "" && '"' !in stem ==> BaseName(filename) == stem
    ensures Stem(FinalComponent(filename)) == "" ==> BaseName(filename) == "document"
    ensures var stem := Stem(FinalComponent(filename));
            stem != "" ==>
              && |BaseName(filename)| == |stem|
              && forall k :: 0 <= k < |stem| ==> BaseName(filename)[k] == (if stem[k] == '"' then '_' else stem[k])
  {
    var stem := Stem(FinalComponent(filename));
    var named := if stem == "" then "document" else stem;
    var b := ReplaceChar(named, '"', '_');
    forall k | 0 <= k < |b| ensures b[k] != '"' {
    }
  }

  /** The split endpoint answers 500 exactly for an acceptable upload with no pages and no range text. */
  lemma {:induction false} SplitServerError<P>(file: Upload<P>, ranges: Option<string>)
    ensures SplitResponse(file, ranges).Err? && SplitResponse(file, ranges).error.status == 500
            <==> UploadCheck(file, false).Ok? && RangeText(ranges).None? && |UploadCheck(file, false).value.pages| == 0
  {
    if UploadCheck(file, false).Ok? {
      SplitOutputCount(UploadCheck(file, false).value.pages, BaseName(file.filename), RangeText(ranges));
    }
  }

  /**
   * A PDF answer carries the only output; a ZIP answer carries at least two, under distinct
   * entry names, and is named after the upload.
   */
  lemma {:induction false} SplitResponseShape<P>(file: Upload<P>, ranges: Option<string>)
    ensures SplitResponse(file, ranges).Ok? ==>
              UploadCheck(file, false).Ok?
              && var plan := SplitOutputs(UploadCheck(file, false).value.pages, BaseName(file.filename), RangeText(ranges));
              && plan.Ok?
              && match SplitResponse(file, ranges).value
                 case PdfDownload(name, pages) => plan.value == [Output(name, pages)]
                 case ZipDownload(name, entries) =>
                   && entries == plan.value && |entries| >= 2
                   && name == BaseName(file.filename) + "_split.zip"
                   && forall k1, k2 :: 0 <= k1 < k2 < |entries| ==> entries[k1].name != entries[k2].name
  {
    if UploadCheck(file, false).Ok? {
      SplitNamesDistinct(UploadCheck(file, false).value.pages, BaseName(file.filename), RangeText(ranges));
    }
  }

  /** Without range text, the outputs of a split, taken in order, hold the uploaded document's pages. */
  lemma PerPageDownloadRoundTrip<P>(file: Upload<P>, ranges: Option<string>)
    requires RangeText(ranges).None? && SplitResponse(file, ranges).Ok?
    ensures UploadCheck(file, false).Ok?
    ensures match SplitResponse(file, ranges).value
            case PdfDownload(_, pages) => pages == UploadCheck(file, false).value.pages
            case ZipDownload(_, entries) => OutputPages(entries) == UploadCheck(file, false).value.pages
  {
    var pages := UploadCheck(file, false).value.pages;
    PerPageRoundTrip(pages, BaseName(file.filename));
    var outs := PerPageOutputs(pages, BaseName(file.filename));
    if |outs| == 1 {
      assert outs[..0] == [];
    }
  }

  /** A merge answer is a ".pdf" download of every upload's pages, upload after upload. */
  lemma MergeResponseSpec<P>(files: seq<Upload<P>>, outputName: string)
    ensures MergeResponse(files, outputName).Ok? <==>
              |files| >= 2 && forall k :: 0 <= k < |files| ==> UploadCheck(files[k], true).Ok?
    ensures MergeResponse(files, outputName).Ok? ==>
              var d := MergeResponse(files, outputName).value;
              && d.PdfDownload? && HasPdfExtension(d.filename)
              && d.pages == ConcatPages(AcceptedDocs(files))
              && |d.pages| == TotalPages(AcceptedDocs(files))
  {
    SafeNameSpec(outputName);
    if |files| >= 2 && FirstRejected(files) == |files| {
      ConcatPagesLength(AcceptedDocs(files));
    }
  }

  /**
   * For range text that is not blank, the web split plans the same outputs as split_pdf_by_ranges
   * does for the same pages, base name and text: its extra strip() changes nothing.
   */
  lemma {:induction false} SameOutputsAsCommandLine<P>(pages: seq<P>, base: string, text: string)
    requires Strip(text) != ""
    ensures SplitOutputs(pages, base, RangeText(Some(text))) == SplitOutputs(pages, base, Some(text))
  {
    StrippedRanges(text, |pages|);
  }
}
