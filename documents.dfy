/**
 * Documents as the PDF codec presents them, and the outputs a split produces.
 * The naming and page-selection rules here are shared by the command-line
 * split (pdf_tool/split.py) and the web split (app.py).
 */
module Documents {
  import opened Results
  import opened Text
  import opened Ranges

  /** A PDF as the codec reads it: its encryption flag and its pages, of an opaque page type P. */
  datatype Doc<P> = Doc(encrypted: bool, pages: seq<P>)

  /** One output file of a split: its file name and the pages written into it. */
  datatype Output<P> = Output(name: string, pages: seq<P>)

  /** "{base}_page_{n}.pdf", the name of the n-th file of a per-page split. */
  function PageName(base: string, n: nat): string {
    base + "_page_" + NatToString(n) + ".pdf"
  }

  /** "{base}_part_{k}.pdf", the name of the k-th file of a split by ranges. */
  function PartName(base: string, k: nat): string {
    base + "_part_" + NatToString(k) + ".pdf"
  }

  /** Every index of every group is a page of a document with `count` pages. */
  predicate GroupsIn(groups: seq<seq<int>>, count: nat) {
    forall k, j :: 0 <= k < |groups| && 0 <= j < |groups[k]| ==> 0 <= groups[k][j] < count
  }

  /** The pages at the given indices, in the order of the indices (repeats allowed). */
  function Select<P>(pages: seq<P>, indices: seq<int>): (r: seq<P>)
    requires forall j :: 0 <= j < |indices| ==> 0 <= indices[j] < |pages|
  {
    seq(|indices|, j requires 0 <= j < |indices| => pages[indices[j]])
  }

  /** A PdfWriter receiving the pages at the given indices, one add_page call per index. */
  method SelectPages<P>(pages: seq<P>, indices: seq<int>) returns (selected: seq<P>)
    requires forall m :: 0 <= m < |indices| ==> 0 <= indices[m] < |pages|
    ensures selected == Select(pages, indices)
  {
    selected := [];
    for j := 0 to |indices|
      invariant selected == Select(pages, indices[..j])
    {
      assert Select(pages, indices[..j + 1]) == Select(pages, indices[..j]) + [pages[indices[j]]];
      selected := selected + [pages[indices[j]]];
    }
    assert indices[..|indices|] == indices;
  }

  /** A PdfWriter receiving every page of one reader, in order, after the pages it already holds. */
  method AppendPages<P>(writer: seq<P>, pages: seq<P>) returns (extended: seq<P>)
    ensures extended == writer + pages
  {
    extended := writer;
    for j := 0 to |pages|
      invariant extended == writer + pages[..j]
    {
      extended := extended + [pages[j]];
    }
    assert pages[..|pages|] == pages;
  }

  /** Without range text: one output per page, in page order, each holding that page alone. */
  function PerPageOutputs<P>(pages: seq<P>, base: string): seq<Output<P>> {
    seq(|pages|, i requires 0 <= i < |pages| => Output(PageName(base, i + 1), [pages[i]]))
  }

  /** With range text: one output per group, in group order, holding the group's pages in the group's order. */
  function GroupOutputs<P>(pages: seq<P>, base: string, groups: seq<seq<int>>): seq<Output<P>>
    requires GroupsIn(groups, |pages|)
  {
    seq(|groups|, k requires 0 <= k < |groups| => Output(PartName(base, k + 1), Select(pages, groups[k])))
  }

  /** The outputs of a split of `pages`: per page when there is no range text, per parsed group otherwise. */
  function SplitOutputs<P>(pages: seq<P>, base: string, ranges: Option<string>): (r: Result<seq<Output<P>>, RangeError>)
    ensures ranges.None? ==> r.Ok? && |r.value| == |pages|
    ensures ranges.Some? ==> (r.Ok? <==> ParseRanges(ranges.value, |pages|).Ok?)
    ensures r.Err? ==> ranges.Some? && r.error == ParseRanges(ranges.value, |pages|).error
    ensures r.Ok? ==> forall k :: 0 <= k < |r.value| ==> r.value[k].pages != []
  {
    match ranges
    case None => Ok(PerPageOutputs(pages, base))
    case Some(text) =>
      var groups :- ParseRanges(text, |pages|);
      GroupsWithinBounds(text, |pages|);
      Ok(GroupOutputs(pages, base, groups))
  }

  /** The pages of several documents, document after document, each in its own page order. */
  function ConcatPages<P>(docs: seq<Doc<P>>): seq<P> {
    if docs == [] then [] else ConcatPages(docs[..|docs| - 1]) + docs[|docs| - 1].pages
  }

  /** The total number of pages of several documents. */
  function TotalPages<P>(docs: seq<Doc<P>>): nat {
    if docs == [] then 0 else TotalPages(docs[..|docs| - 1]) + |docs[|docs| - 1].pages|
  }

  /** The pages of several outputs, output after output. */
  function OutputPages<P>(outs: seq<Output<P>>): seq<P> {
    if outs == [] then [] else OutputPages(outs[..|outs| - 1]) + outs[|outs| - 1].pages
  }

  /** Reading outputs back as unencrypted documents and concatenating them gives the outputs' pages in order. */
  lemma {:induction false} ConcatOutputs<P>(outs: seq<Output<P>>, docs: seq<Doc<P>>)
    requires |docs| == |outs|
    requires forall k :: 0 <= k < |outs| ==> docs[k] == Doc(false, outs[k].pages)
    ensures ConcatPages(docs) == OutputPages(outs)
  {
    if outs != [] {
      ConcatOutputs(outs[..|outs| - 1], docs[..|docs| - 1]);
    }
  }

  /** The concatenation has as many pages as the documents together. */
  lemma {:induction false} ConcatPagesLength<P>(docs: seq<Doc<P>>)
    ensures |ConcatPages(docs)| == TotalPages(docs)
  {
    if docs != [] {
      ConcatPagesLength(docs[..|docs| - 1]);
    }
  }

  /** Concatenation respects document order: the pages of a list of documents followed by another are those of the first, then those of the second. */
  lemma {:induction false} ConcatPagesAppend<P>(d1: seq<Doc<P>>, d2: seq<Doc<P>>)
    ensures ConcatPages(d1 + d2) == ConcatPages(d1) + ConcatPages(d2)
  {
    if d2 == [] {
      assert d1 + d2 == d1;
      assert ConcatPages(d1) + [] == ConcatPages(d1);
    } else {
      var init, last := d2[..|d2| - 1], d2[|d2| - 1];
      assert (d1 + d2)[..|d1 + d2| - 1] == d1 + init;
      assert (d1 + d2)[|d1 + d2| - 1] == last;
      ConcatPagesAppend(d1, init);
      var c1, ci := ConcatPages(d1), ConcatPages(init);
      assert ConcatPages(d1 + d2) == (c1 + ci) + last.pages;
      assert (c1 + ci) + last.pages == c1 + (ci + last.pages);
    }
  }

  /** A name cannot be read two ways: equal strings with the same prefix and suffix have the same middle. */
  lemma Infix(p: string, m1: string, m2: string, q: string)
    requires p + m1 + q == p + m2 + q
    ensures m1 == m2
  {
    var s1, s2 := p + m1 + q, p + m2 + q;
    assert m1 == s1[|p|..|p| + |m1|];
    assert m2 == s2[|p|..|p| + |m2|];
  }

  /** Distinct page numbers give distinct file names, and a per-page name is never a per-range name. */
  lemma {:induction false} NamesInjective(base: string, i: nat, j: nat)
    ensures PageName(base, i) == PageName(base, j) ==> i == j
    ensures PartName(base, i) == PartName(base, j) ==> i == j
    ensures PageName(base, i) != PartName(base, j)
  {
    if PageName(base, i) == PageName(base, j) {
      Infix(base + "_page_", NatToString(i), NatToString(j), ".pdf");
    }
    if PartName(base, i) == PartName(base, j) {
      Infix(base + "_part_", NatToString(i), NatToString(j), ".pdf");
    }
    assert PageName(base, i)[|base| + 3] == 'g';
    assert PartName(base, j)[|base| + 3] == 'r';
  }

  /** No two outputs share a file name. */
  predicate DistinctNames<P>(outs: seq<Output<P>>) {
    forall k1, k2 :: 0 <= k1 < k2 < |outs| ==> outs[k1].name != outs[k2].name
  }

  /** Page numbers never repeat, so the outputs of a per-page split have distinct names. */
  lemma PageNamesDistinct<P>(pages: seq<P>, base: string)
    ensures DistinctNames(PerPageOutputs(pages, base))
  {
    var outs := PerPageOutputs(pages, base);
    forall k1, k2 | 0 <= k1 < k2 < |outs| ensures outs[k1].name != outs[k2].name {
      assert outs[k1].name == PageName(base, k1 + 1) && outs[k2].name == PageName(base, k2 + 1);
      NamesInjective(base, k1 + 1, k2 + 1);
    }
  }

  /** Part numbers never repeat, so the outputs of a split by groups have distinct names. */
  lemma GroupNamesDistinct<P>(pages: seq<P>, base: string, groups: seq<seq<int>>)
    requires GroupsIn(groups, |pages|)
    ensures DistinctNames(GroupOutputs(pages, base, groups))
  {
    var outs := GroupOutputs(pages, base, groups);
    forall k1, k2 | 0 <= k1 < k2 < |outs| ensures outs[k1].name != outs[k2].name {
      NamesInjective(base, k1 + 1, k2 + 1);
    }
  }

  /** No two outputs of a split share a file name, so none overwrites another. */
  lemma SplitNamesDistinct<P>(pages: seq<P>, base: string, ranges: Option<string>)
    ensures SplitOutputs(pages, base, ranges).Ok? ==> DistinctNames(SplitOutputs(pages, base, ranges).value)
  {
    if ranges.None? {
      PageNamesDistinct(pages, base);
    } else if ParseRanges(ranges.value, |pages|).Ok? {
      var groups := ParseRanges(ranges.value, |pages|).value;
      GroupsWithinBounds(ranges.value, |pages|);
      assert SplitOutputs(pages, base, ranges) == Ok(GroupOutputs(pages, base, groups));
      GroupNamesDistinct(pages, base, groups);
    }
  }

  /** How many outputs a split makes: one per page without range text, one per token with it (at least one). */
  lemma {:induction false} SplitOutputCount<P>(pages: seq<P>, base: string, ranges: Option<string>)
    ensures ranges.None? ==> SplitOutputs(pages, base, ranges).Ok? && |SplitOutputs(pages, base, ranges).value| == |pages|
    ensures ranges.Some? && SplitOutputs(pages, base, ranges).Ok? ==>
              |SplitOutputs(pages, base, ranges).value| == |Tokens(ranges.value)| >= 1
    ensures ranges.Some? && SplitOutputs(pages, base, ranges).Err? ==>
              SplitOutputs(pages, base, ranges).error == ParseRanges(ranges.value, |pages|).error
  {
    if ranges.Some? && ParseRanges(ranges.value, |pages|).Ok? {
      var text := ranges.value;
      ParseAllSpec(Tokens(text), |pages|);
      GroupsWithinBounds(text, |pages|);
    }
  }

  /** A group that is a run of consecutive indices selects a slice of the document. */
  lemma SelectInterval<P>(pages: seq<P>, lo: nat, hi: nat)
    requires lo <= hi <= |pages|
    ensures forall j :: 0 <= j < |Interval(lo, hi)| ==> 0 <= Interval(lo, hi)[j] < |pages|
    ensures Select(pages, Interval(lo, hi)) == pages[lo..hi]
  {
  }

  /** Splitting per page and putting the outputs back together, in order, gives the document again. */
  lemma {:induction false} PerPageRoundTrip<P>(pages: seq<P>, base: string)
    ensures OutputPages(PerPageOutputs(pages, base)) == pages
  {
    if pages != [] {
      var init := pages[..|pages| - 1];
      var outs := PerPageOutputs(pages, base);
      assert outs[..|outs| - 1] == PerPageOutputs(init, base);
      PerPageRoundTrip(init, base);
      assert pages == init + [pages[|pages| - 1]];
    }
  }

  /** One group that is a run of consecutive pages makes one output holding that slice. */
  lemma OneIntervalOutput<P>(pages: seq<P>, base: string, lo: nat, hi: nat)
    requires lo <= hi <= |pages|
    ensures GroupsIn([Interval(lo, hi)], |pages|)
    ensures GroupOutputs(pages, base, [Interval(lo, hi)]) == [Output(PartName(base, 1), pages[lo..hi])]
  {
    SelectInterval(pages, lo, hi);
    var outs := GroupOutputs(pages, base, [Interval(lo, hi)]);
    assert outs[0] == Output(PartName(base, 1), pages[lo..hi]);
  }

  /** Range text that parses to groups makes one output per group. */
  lemma ParsedSplit<P>(pages: seq<P>, base: string, text: string, groups: seq<seq<int>>)
    requires ParseRanges(text, |pages|) == Ok(groups)
    ensures GroupsIn(groups, |pages|)
    ensures SplitOutputs(pages, base, Some(text)) == Ok(GroupOutputs(pages, base, groups))
  {
    GroupsWithinBounds(text, |pages|);
  }

  /** The range "1-N" over an N-page document makes one output holding the whole document. */
  lemma WholeDocumentSplit<P>(pages: seq<P>, base: string)
    requires |pages| >= 1
    ensures SplitOutputs(pages, base, Some("1-" + NatToString(|pages|))) == Ok([Output(PartName(base, 1), pages)])
  {
    var n := |pages|;
    var text := "1-" + NatToString(n);
    WholeDocument(n);
    ParsedSplit(pages, base, text, [Interval(0, n)]);
    OneIntervalOutput(pages, base, 0, n);
    assert pages[0..n] == pages;
  }
}
