/**
 * The page-range parser of pdf_tool/utils.py: range text such as "1-3,5,7-"
 * and a page count become an ordered list of groups of 0-based page indices,
 * one group per comma-separated token, or a refusal saying why.
 */
module Ranges {
  import opened Results
  import opened Text

  /** Why a range text is refused; each is a ValueError in the source. */
  datatype RangeError =
    | EmptyText                                    // nothing but white space
    | NoTokens                                     // only commas and white space
    | NotANumber(text: string)                     // int() refused the text
    | NotPositive(text: string)                    // the number is 0
    | OutOfRange(value: int, low: int, high: int)  // the page number is outside [low, high]
    | MissingStart(token: string)                  // "-B": a range without its start
    | EndBeforeStart(token: string)                // "A-B" with B < A
    | MalformedToken(token: string)                // two or more dashes

  /** int(text) followed by the positivity check; only ASCII numerals are read as numbers. */
  function ParsePositiveInt(text: string): (r: Result<int, RangeError>)
    ensures r.Ok? <==> IsDigits(text) && DigitsValue(text) >= 1
    ensures r.Ok? ==> r.value == DigitsValue(text)
    ensures !IsDigits(text) ==> r == Err(NotANumber(text))
    ensures IsDigits(text) && DigitsValue(text) == 0 ==> r == Err(NotPositive(text))
  {
    if !IsDigits(text) then Err(NotANumber(text))
    else if DigitsValue(text) <= 0 then Err(NotPositive(text))
    else Ok(DigitsValue(text))
  }

  /** str(n) for a positive n, after any number of leading zeros, is read back as n. */
  lemma {:induction false} PositiveNumeral(zeros: string, n: nat)
    requires forall k :: 0 <= k < |zeros| ==> zeros[k] == '0'
    requires n >= 1
    ensures ParsePositiveInt(zeros + NatToString(n)) == Ok(n)
  {
    DigitsValueLeadingZeros(zeros, NatToString(n));
  }

  /** The 1-based bounds check on a page number. */
  function AssertInRange(value: int, low: int, high: int): (r: Check<RangeError>)
    ensures r.Pass? <==> low <= value <= high
    ensures r.Pass? ==> low <= high
    ensures r.Fail? ==> r == Fail(OutOfRange(value, low, high))
  {
    if low <= value <= high then Pass else Fail(OutOfRange(value, low, high))
  }

  /** list(range(lo, hi)): the ascending integers from lo up to but excluding hi. */
  function Interval(lo: int, hi: int): seq<int> {
    if lo < hi then seq(hi - lo, k => lo + k) else []
  }

  /** The tokens of a range text: the comma-separated pieces, stripped, the empty ones dropped. */
  function Tokens(text: string): seq<string> {
    NonEmptyStripped(Split(text, ','))
  }

  function NonEmptyStripped(pieces: seq<string>): (tokens: seq<string>)
    ensures |tokens| <= |pieces|
    ensures forall k :: 0 <= k < |tokens| ==> tokens[k] != ""
  {
    if pieces == [] then []
    else
      var t := Strip(pieces[0]);
      (if t == "" then [] else [t]) + NonEmptyStripped(pieces[1..])
  }

  /**
   * The group one token selects: a single page "n", a closed range "A-B" or an open range "A-".
   * Every group is a non-empty ascending run of consecutive indices inside [0, total).
   */
  function ParseToken(token: string, total: nat): (r: Result<seq<int>, RangeError>)
    ensures r.Ok? ==> |r.value| >= 1 && 0 <= r.value[0] && r.value[0] + |r.value| <= total
                      && r.value == Interval(r.value[0], r.value[0] + |r.value|)
  {
    var startEnd := Split(token, '-');
    if |startEnd| == 1 then ParseSingle(startEnd[0], total)
    else if |startEnd| == 2 then ParseRange(token, startEnd[0], startEnd[1], total)
    else Err(MalformedToken(token))
  }

  /** A token without a dash: one page number. */
  function ParseSingle(text: string, total: nat): Result<seq<int>, RangeError> {
    var page :- ParsePositiveInt(text);
    :- AssertInRange(page, 1, total);
    Ok([page - 1])
  }

  /** A token with one dash, split into the text before and after it. */
  function ParseRange(token: string, before: string, after: string, total: nat): Result<seq<int>, RangeError> {
    var startText, endText := Strip(before), Strip(after);
    if startText == "" then Err(MissingStart(token))
    else
      var start :- ParsePositiveInt(startText);
      :- AssertInRange(start, 1, total);
      if endText == "" then Ok(Interval(start - 1, total))
      else
        var end :- ParsePositiveInt(endText);
        :- AssertInRange(end, 1, total);
        if end < start then Err(EndBeforeStart(token))
        else Ok(Interval(start - 1, end))
  }

  /** What each token yields on its own, in token order. */
  function TokenResults(tokens: seq<string>, total: nat): (rs: seq<Result<seq<int>, RangeError>>)
    ensures |rs| == |tokens|
  {
    seq(|tokens|, k requires 0 <= k < |tokens| => ParseToken(tokens[k], total))
  }

  /** The groups of results taken in order, stopping at the first error, which becomes the outcome. */
  function Collect(rs: seq<Result<seq<int>, RangeError>>): Result<seq<seq<int>>, RangeError> {
    if rs == [] then Ok([])
    else
      var groups :- Collect(rs[..|rs| - 1]);
      var group :- rs[|rs| - 1];
      Ok(groups + [group])
  }

  /** The tokens parsed in order; the first token that fails decides the error. */
  function ParseAll(tokens: seq<string>, total: nat): Result<seq<seq<int>>, RangeError> {
    Collect(TokenResults(tokens, total))
  }

  /** parse_ranges_to_groups as a function: the specification of the method below. */
  function ParseRanges(text: string, total: nat): Result<seq<seq<int>>, RangeError> {
    if Strip(text) == "" then Err(EmptyText)
    else
      var tokens := Tokens(text);
      if tokens == [] then Err(NoTokens) else ParseAll(tokens, total)
  }

  /** parse_ranges_to_groups: loops over the tokens and appends one group per token. */
  method ParseRangesToGroups(rangesText: string, totalPages: nat) returns (r: Result<seq<seq<int>>, RangeError>)
    ensures r == ParseRanges(rangesText, totalPages)
  {
    if Strip(rangesText) == "" {
      return Err(EmptyText);
    }
    var tokens := Tokens(rangesText);
    if |tokens| == 0 {
      return Err(NoTokens);
    }
    ghost var rs := TokenResults(tokens, totalPages);
    var groups: seq<seq<int>> := [];
    for i := 0 to |tokens|
      invariant Collect(rs[..i]) == Ok(groups)
    {
      CollectFailsAt(rs, i);
      assert rs[..i + 1][..i] == rs[..i];
      var group :- TokenToGroup(tokens[i], totalPages);
      groups := groups + [group];
    }
    assert rs[..|tokens|] == rs;
    return Ok(groups);
  }

  /**
   * The body of the loop over the tokens (pdf_tool/utils.py:56-94), written as the source runs it,
   * statement by statement; it is proved equal to ParseToken, which states the same rules as a function.
   */
  method TokenToGroup(token: string, totalPages: nat) returns (r: Result<seq<int>, RangeError>)
    ensures r == ParseToken(token, totalPages)
  {
    var startEnd := Split(token, '-');
    if |startEnd| == 1 {
      var page :- ParsePositiveInt(startEnd[0]);
      :- AssertInRange(page, 1, totalPages);
      return Ok([page - 1]);
    }
    if |startEnd| == 2 {
      var startText, endText := Strip(startEnd[0]), Strip(startEnd[1]);
      if startText == "" {
        return Err(MissingStart(token));
      }
      var start :- ParsePositiveInt(startText);
      :- AssertInRange(start, 1, totalPages);
      if endText == "" {
        return Ok(Interval(start - 1, totalPages));
      }
      var end :- ParsePositiveInt(endText);
      :- AssertInRange(end, 1, totalPages);
      if end < start {
        return Err(EndBeforeStart(token));
      }
      return Ok(Interval(start - 1, end));
    }
    return Err(MalformedToken(token));
  }

  /** Once the results before position i are groups, an error at i is the outcome of the whole sequence. */
  lemma {:induction false} CollectFailsAt(rs: seq<Result<seq<int>, RangeError>>, i: nat)
    requires i < |rs|
    requires Collect(rs[..i]).Ok?
    ensures rs[i].Err? ==> Collect(rs) == Err(rs[i].error)
  {
    if rs[i].Err? {
      var init := rs[..|rs| - 1];
      if i < |rs| - 1 {
        assert init[..i] == rs[..i] && init[i] == rs[i];
        CollectFailsAt(init, i);
      } else {
        assert init == rs[..i];
      }
    }
  }

  /** The results are collected exactly when every one is a group. */
  lemma {:induction false} CollectOk(rs: seq<Result<seq<int>, RangeError>>)
    ensures Collect(rs).Ok? <==> forall k :: 0 <= k < |rs| ==> rs[k].Ok?
  {
    if rs != [] {
      var init := rs[..|rs| - 1];
      CollectOk(init);
      assert forall k :: 0 <= k < |init| ==> init[k] == rs[k];
    }
  }

  /** Collected results give one group per result, in order. */
  lemma {:induction false} CollectValues(rs: seq<Result<seq<int>, RangeError>>)
    requires Collect(rs).Ok?
    ensures |Collect(rs).value| == |rs|
    ensures forall k :: 0 <= k < |rs| ==> rs[k].Ok? && Collect(rs).value[k] == rs[k].value
  {
    if rs != [] {
      var init := rs[..|rs| - 1];
      var v, vi := Collect(rs).value, Collect(init).value;
      assert v == vi + [rs[|rs| - 1].value];
      CollectValues(init);
      forall k | 0 <= k < |rs| ensures rs[k].Ok? && v[k] == rs[k].value {
        if k < |init| {
          assert v[k] == vi[k] && init[k] == rs[k];
        }
      }
    }
  }

  /** Results that are not collected fail with the first error among them. */
  lemma {:induction false} CollectFirstError(rs: seq<Result<seq<int>, RangeError>>)
    ensures Collect(rs).Err? ==>
              exists k :: 0 <= k < |rs| && rs[k] == Err(Collect(rs).error) && forall j :: 0 <= j < k ==> rs[j].Ok?
  {
    if rs != [] {
      var init := rs[..|rs| - 1];
      if Collect(init).Err? {
        CollectFirstError(init);
        var k :| 0 <= k < |init| && init[k] == Err(Collect(init).error) && forall j :: 0 <= j < k ==> init[j].Ok?;
        assert forall j :: 0 <= j <= k ==> init[j] == rs[j];
      } else if rs[|rs| - 1].Err? {
        CollectOk(init);
        assert forall j :: 0 <= j < |init| ==> init[j] == rs[j];
      }
    }
  }

  /** Collecting two sequences of results one after the other gives their groups one after the other. */
  lemma {:induction false} CollectAppend(r1: seq<Result<seq<int>, RangeError>>, r2: seq<Result<seq<int>, RangeError>>)
    requires Collect(r1).Ok? && Collect(r2).Ok?
    ensures Collect(r1 + r2) == Ok(Collect(r1).value + Collect(r2).value)
  {
    if r2 == [] {
      assert r1 + r2 == r1;
      assert Collect(r1).value + [] == Collect(r1).value;
    } else {
      var init := r2[..|r2| - 1];
      var last := r2[|r2| - 1];
      assert (r1 + r2)[..|r1 + r2| - 1] == r1 + init;
      assert (r1 + r2)[|r1 + r2| - 1] == last;
      CollectAppend(r1, init);
      var v1, vi := Collect(r1).value, Collect(init).value;
      assert Collect(r1 + r2) == Ok((v1 + vi) + [last.value]);
      assert (v1 + vi) + [last.value] == v1 + (vi + [last.value]);
    }
  }

  /**
   * The token list parses exactly when every token does; then group k is token k's group;
   * otherwise the error is that of the first failing token.
   */
  lemma ParseAllSpec(tokens: seq<string>, total: nat)
    ensures ParseAll(tokens, total).Ok? <==> forall k :: 0 <= k < |tokens| ==> ParseToken(tokens[k], total).Ok?
    ensures ParseAll(tokens, total).Ok? ==>
              |ParseAll(tokens, total).value| == |tokens|
              && forall k :: 0 <= k < |tokens| ==> ParseAll(tokens, total).value[k] == ParseToken(tokens[k], total).value
    ensures ParseAll(tokens, total).Err? ==>
              exists k :: 0 <= k < |tokens| && ParseToken(tokens[k], total) == Err(ParseAll(tokens, total).error)
                          && forall j :: 0 <= j < k ==> ParseToken(tokens[j], total).Ok?
  {
    var rs := TokenResults(tokens, total);
    assert forall k :: 0 <= k < |tokens| ==> rs[k] == ParseToken(tokens[k], total);
    CollectOk(rs);
    if Collect(rs).Ok? {
      CollectValues(rs);
    } else {
      CollectFirstError(rs);
    }
  }

  /** Parsing two token lists one after the other gives their groups one after the other. */
  lemma ParseAllAppend(t1: seq<string>, t2: seq<string>, total: nat)
    requires ParseAll(t1, total).Ok? && ParseAll(t2, total).Ok?
    ensures ParseAll(t1 + t2, total) == Ok(ParseAll(t1, total).value + ParseAll(t2, total).value)
  {
    var t, r1, r2 := t1 + t2, TokenResults(t1, total), TokenResults(t2, total);
    forall k | 0 <= k < |t| ensures TokenResults(t, total)[k] == (r1 + r2)[k] {
      if k < |t1| {
        assert t[k] == t1[k];
      } else {
        assert t[k] == t2[k - |t1|];
      }
    }
    assert TokenResults(t, total) == r1 + r2;
    CollectAppend(TokenResults(t1, total), TokenResults(t2, total));
  }

  /** On success there is at least one group, no group is empty, and every index is a page of the document. */
  lemma {:induction false} GroupsWithinBounds(text: string, total: nat)
    ensures ParseRanges(text, total).Ok? ==>
              var groups := ParseRanges(text, total).value;
              |groups| >= 1
              && forall k :: 0 <= k < |groups| ==> |groups[k]| >= 1 && forall j :: 0 <= j < |groups[k]| ==> 0 <= groups[k][j] < total
  {
    if ParseRanges(text, total).Ok? {
      var tokens := Tokens(text);
      var groups := ParseRanges(text, total).value;
      ParseAllSpec(tokens, total);
      forall k | 0 <= k < |groups|
        ensures |groups[k]| >= 1 && forall j :: 0 <= j < |groups[k]| ==> 0 <= groups[k][j] < total
      {
        var g := ParseToken(tokens[k], total).value;
        assert groups[k] == g;
      }
    }
  }

  /** A document without pages admits no range text at all. */
  lemma {:induction false} NoPagesNoRanges(text: string)
    ensures ParseRanges(text, 0).Err?
  {
    GroupsWithinBounds(text, 0);
  }

  /** Texts made only of white space, and texts made only of commas and white space, are refused. */
  lemma {:induction false} BlankOrCommasOnly(text: string, total: nat)
    ensures (forall k :: 0 <= k < |text| ==> IsSpace(text[k])) ==> ParseRanges(text, total) == Err(EmptyText)
    ensures (exists k :: 0 <= k < |text| && text[k] == ',') && (forall k :: 0 <= k < |text| ==> IsSpace(text[k]) || text[k] == ',') ==>
              ParseRanges(text, total) == Err(NoTokens)
  {
    StripBlank(text);
    if (exists k :: 0 <= k < |text| && text[k] == ',') && (forall k :: 0 <= k < |text| ==> IsSpace(text[k]) || text[k] == ',') {
      CommasOnlyNoTokens(text);
    }
  }

  lemma {:induction false} CommasOnlyNoTokens(text: string)
    requires forall k :: 0 <= k < |text| ==> IsSpace(text[k]) || text[k] == ','
    ensures Tokens(text) == []
  {
    var i := LastIndexOf(text, ',');
    if i < 0 {
      StripBlank(text);
      SplitWithout(text, ',');
    } else {
      var a, b := text[..i], text[i + 1..];
      assert Tokens(text) == Tokens(a) + Tokens(b) by {
        assert text == a + "," + b;
        TokensAround(a, b);
      }
      assert Tokens(a) == [] by {
        assert forall k :: 0 <= k < |a| ==> a[k] == text[k];
        CommasOnlyNoTokens(a);
      }
      assert Tokens(b) == [] by {
        forall k | 0 <= k < |b| ensures b[k] != ',' && IsSpace(b[k]) {
          assert b[k] == text[i + 1 + k];
        }
        StripBlank(b);
        SplitWithout(b, ',');
      }
    }
  }

  lemma {:induction false} NonEmptyStrippedAppend(p1: seq<string>, p2: seq<string>)
    ensures NonEmptyStripped(p1 + p2) == NonEmptyStripped(p1) + NonEmptyStripped(p2)
  {
    if p1 != [] {
      assert (p1 + p2)[0] == p1[0] && (p1 + p2)[1..] == p1[1..] + p2;
      NonEmptyStrippedAppend(p1[1..], p2);
    } else {
      assert p1 + p2 == p2;
    }
  }

  /** A comma splits the tokens: those of the left part, then those of the right part. */
  lemma {:induction false} TokensAround(a: string, b: string)
    ensures Tokens(a + "," + b) == Tokens(a) + Tokens(b)
  {
    SplitAround(a, ',', b);
    NonEmptyStrippedAppend(Split(a, ','), Split(b, ','));
  }

  /** A trimmed, comma-free, non-empty text is a single token. */
  lemma {:induction false} OneToken(t: string)
    requires t != "" && ',' !in t && Strip(t) == t
    ensures Tokens(t) == [t]
  {
    SplitWithout(t, ',');
  }

  /** Such a text parses as its one token does. */
  lemma {:induction false} OneTokenText(t: string, total: nat)
    requires t != "" && ',' !in t && !IsSpace(t[0]) && !IsSpace(t[|t| - 1])
    ensures ParseToken(t, total).Ok? ==> ParseRanges(t, total) == Ok([ParseToken(t, total).value])
    ensures ParseToken(t, total).Err? ==> ParseRanges(t, total) == Err(ParseToken(t, total).error)
  {
    StripTrimmed(t);
    OneToken(t);
    assert [t][..0] == [] && [t][0] == t;
    assert ParseAll([], total) == Ok([]);
    if ParseToken(t, total).Ok? {
      var g := ParseToken(t, total).value;
      assert ParseAll([t], total) == Ok([] + [g]);
      assert [] + [g] == [g];
    }
  }

  /** Groups of two texts joined by a comma are the groups of each, in order: no merging, no de-duplication. */
  lemma {:induction false} ParseRangesAppend(a: string, b: string, total: nat)
    requires ParseRanges(a, total).Ok? && ParseRanges(b, total).Ok?
    ensures ParseRanges(a + "," + b, total) == Ok(ParseRanges(a, total).value + ParseRanges(b, total).value)
  {
    var s := a + "," + b;
    assert s[|a|] == ',';
    StripBlank(s);
    TokensAround(a, b);
    ParseAllAppend(Tokens(a), Tokens(b), total);
  }

  /** A comma at the start of a text adds no token. */
  lemma {:induction false} LeadingComma(b: string)
    ensures Tokens("," + b) == Tokens(b)
  {
    assert "," + b == "" + "," + b;
    TokensAround("", b);
    assert Split("", ',') == [""];
  }

  /** Two commas in a row separate tokens like one: the empty piece between them is dropped. */
  lemma {:induction false} DoubledCommaTokens(a: string, b: string)
    ensures Tokens(a + ",," + b) == Tokens(a + "," + b)
  {
    var cb := "," + b;
    assert a + ",," + b == a + "," + cb;
    TokensAround(a, cb);
    LeadingComma(b);
    TokensAround(a, b);
  }

  /** A text holding a comma is never blank. */
  lemma {:induction false} CommaNotBlank(a: string, b: string)
    ensures Strip(a + "," + b) != ""
  {
    assert (a + "," + b)[|a|] == ',';
    StripBlank(a + "," + b);
  }

  /** A doubled comma counts as one: the empty piece between the two is dropped. */
  lemma {:induction false} DoubledComma(a: string, b: string, total: nat)
    ensures ParseRanges(a + ",," + b, total) == ParseRanges(a + "," + b, total)
  {
    DoubledCommaTokens(a, b);
    CommaNotBlank(a, b);
    assert a + ",," + b == a + "," + ("," + b);
    CommaNotBlank(a, "," + b);
  }

  /** A comma at the end of a non-blank text changes nothing. */
  lemma {:induction false} TrailingComma(a: string, total: nat)
    requires Strip(a) != ""
    ensures ParseRanges(a + ",", total) == ParseRanges(a, total)
  {
    var s := a + ",";
    assert s[|a|] == ',';
    StripBlank(s);
    TokensAround(a, "");
    assert a + "," + "" == s;
    assert Tokens("") == [];
    assert Tokens(s) == Tokens(a);
  }

  /** A numeral token n selects page n alone, or says why not: 0 is not positive, beyond the count is out of range. */
  lemma {:induction false} SingleNumeral(d: string, total: nat)
    requires IsDigits(d)
    ensures var n := DigitsValue(d);
            ParseToken(d, total) == if n == 0 then Err(NotPositive(d))
                                    else if n <= total then Ok([n - 1])
                                    else Err(OutOfRange(n, 1, total))
  {
    NoDashInNumeral(d);
    SplitWithout(d, '-');
  }

  /** A token without a dash that is not a numeral ("abc", "+5") is refused as not a number. */
  lemma {:induction false} NonNumeralSingle(t: string, total: nat)
    requires '-' !in t && !IsDigits(t)
    ensures ParseToken(t, total) == Err(NotANumber(t))
  {
    SplitWithout(t, '-');
  }

  /**
   * A one-dash token is read through its parts with the white space around the dash stripped
   * ("1 - 3" reads as "1-3"): pages A..B in ascending order when 1 <= A <= B <= total, otherwise
   * the first failing check, in the source's order.
   */
  lemma {:induction false} SpacedRange(a: string, b: string, total: nat)
    requires '-' !in a && '-' !in b && IsDigits(Strip(a)) && IsDigits(Strip(b))
    ensures var start, end := DigitsValue(Strip(a)), DigitsValue(Strip(b));
            ParseToken(a + "-" + b, total) == if start == 0 then Err(NotPositive(Strip(a)))
                                              else if start > total then Err(OutOfRange(start, 1, total))
                                              else if end == 0 then Err(NotPositive(Strip(b)))
                                              else if end > total then Err(OutOfRange(end, 1, total))
                                              else if end < start then Err(EndBeforeStart(a + "-" + b))
                                              else Ok(Interval(start - 1, end))
  {
    OneDash(a, b);
  }

  /** A closed range "A-B" of numerals selects pages A..B in ascending order when 1 <= A <= B <= total; otherwise it says which check failed first. */
  lemma {:induction false} ClosedRange(a: string, b: string, total: nat)
    requires IsDigits(a) && IsDigits(b)
    ensures var start, end := DigitsValue(a), DigitsValue(b);
            ParseToken(a + "-" + b, total) == if start == 0 then Err(NotPositive(a))
                                              else if start > total then Err(OutOfRange(start, 1, total))
                                              else if end == 0 then Err(NotPositive(b))
                                              else if end > total then Err(OutOfRange(end, 1, total))
                                              else if end < start then Err(EndBeforeStart(a + "-" + b))
                                              else Ok(Interval(start - 1, end))
  {
    NoDashInNumeral(a);
    NoDashInNumeral(b);
    StripTrimmed(a);
    StripTrimmed(b);
    SpacedRange(a, b, total);
  }

  /** A one-dash token whose end is blank ("2-", "2 - ") selects pages A..total exactly when 1 <= A <= total. */
  lemma {:induction false} SpacedOpenRange(a: string, b: string, total: nat)
    requires '-' !in a && '-' !in b && IsDigits(Strip(a)) && Strip(b) == ""
    ensures var start := DigitsValue(Strip(a));
            ParseToken(a + "-" + b, total) == if start == 0 then Err(NotPositive(Strip(a)))
                                              else if start <= total then Ok(Interval(start - 1, total))
                                              else Err(OutOfRange(start, 1, total))
  {
    OneDash(a, b);
  }

  /** An open range "A-" selects pages A..total in ascending order exactly when 1 <= A <= total. */
  lemma {:induction false} OpenRange(a: string, total: nat)
    requires IsDigits(a)
    ensures var start := DigitsValue(a);
            ParseToken(a + "-", total) == if start == 0 then Err(NotPositive(a))
                                          else if start <= total then Ok(Interval(start - 1, total))
                                          else Err(OutOfRange(start, 1, total))
  {
    NoDashInNumeral(a);
    StripTrimmed(a);
    assert a + "-" + "" == a + "-";
    assert Strip("") == "";
    SpacedOpenRange(a, "", total);
  }

  /** A range whose start is present but not a numeral ("x-3") is refused as not a number before its end is read. */
  lemma {:induction false} RangeStartNotNumeral(a: string, b: string, total: nat)
    requires '-' !in a && '-' !in b && Strip(a) != "" && !IsDigits(Strip(a))
    ensures ParseToken(a + "-" + b, total) == Err(NotANumber(Strip(a)))
  {
    OneDash(a, b);
  }

  /** A range whose end is present but not a numeral ("2-x") fails on its start first, else as not a number. */
  lemma {:induction false} RangeEndNotNumeral(a: string, b: string, total: nat)
    requires '-' !in a && '-' !in b && IsDigits(Strip(a)) && Strip(b) != "" && !IsDigits(Strip(b))
    ensures var start := DigitsValue(Strip(a));
            ParseToken(a + "-" + b, total) == if start == 0 then Err(NotPositive(Strip(a)))
                                              else if start > total then Err(OutOfRange(start, 1, total))
                                              else Err(NotANumber(Strip(b)))
  {
    OneDash(a, b);
  }

  /** A range whose start is blank ("-3", " -3") is refused before anything is read as a number. */
  lemma {:induction false} StartRequired(a: string, b: string, total: nat)
    requires '-' !in a && '-' !in b && Strip(a) == ""
    ensures ParseToken(a + "-" + b, total) == Err(MissingStart(a + "-" + b))
  {
    OneDash(a, b);
  }

  /** A token with two or more dashes is malformed, whatever surrounds them. */
  lemma {:induction false} TooManyDashes(a: string, b: string, c: string, total: nat)
    ensures ParseToken(a + "-" + b + "-" + c, total) == Err(MalformedToken(a + "-" + b + "-" + c))
  {
    SplitAround(a + "-" + b, '-', c);
    SplitAround(a, '-', b);
  }

  /** A token with exactly one dash splits into the text before it and the text after it. */
  lemma {:induction false} OneDash(a: string, b: string)
    requires '-' !in a && '-' !in b
    ensures Split(a + "-" + b, '-') == [a, b]
  {
    SplitWithout(a, '-');
    SplitWithout(b, '-');
    SplitAround(a, '-', b);
  }

  lemma {:induction false} NoDashInNumeral(d: string)
    requires IsDigits(d)
    ensures '-' !in d && ',' !in d && !IsSpace(d[0]) && !IsSpace(d[|d| - 1])
  {
    assert forall k :: 0 <= k < |d| ==> IsDigit(d[k]);
  }

  /** The numeral of page n, with any leading zeros, selects page n alone when 1 <= n <= total. */
  lemma {:induction false} SinglePage(zeros: string, n: nat, total: nat)
    requires forall k :: 0 <= k < |zeros| ==> zeros[k] == '0'
    requires 1 <= n <= total
    ensures ParseRanges(zeros + NatToString(n), total) == Ok([[n - 1]])
  {
    var d := zeros + NatToString(n);
    assert IsDigits(d) && DigitsValue(d) == n by {
      DigitsValueLeadingZeros(zeros, NatToString(n));
    }
    assert ParseToken(d, total) == Ok([n - 1]) by {
      SingleNumeral(d, total);
    }
    assert ',' !in d && !IsSpace(d[0]) && !IsSpace(d[|d| - 1]) by {
      NoDashInNumeral(d);
    }
    OneTokenText(d, total);
  }

  /** "1-N" on an N-page document selects the whole document in order. */
  lemma {:induction false} WholeDocument(total: nat)
    requires total >= 1
    ensures ParseRanges("1-" + NatToString(total), total) == Ok([Interval(0, total)])
  {
    var one, last := NatToString(1), NatToString(total);
    assert one == "1";
    var t := one + "-" + last;
    assert "1-" + last == t;
    ClosedRange(one, last, total);
    assert ParseToken(t, total) == Ok(Interval(0, total));
    NoDashInNumeral(last);
    assert t[0] == '1' && t[|t| - 1] == last[|last| - 1];
    assert ',' !in t by {
      assert t == one + ['-'] + last;
    }
    OneTokenText(t, total);
  }

  /** The same page named twice yields two identical groups, kept apart. */
  lemma {:induction false} DuplicatesKept(n: nat, total: nat)
    requires 1 <= n <= total
    ensures ParseRanges(NatToString(n) + "," + NatToString(n), total) == Ok([[n - 1], [n - 1]])
  {
    var d := NatToString(n);
    SinglePage("", n, total);
    assert "" + d == d;
    assert ParseRanges(d, total) == Ok([[n - 1]]);
    ParseRangesAppend(d, d, total);
    assert [[n - 1]] + [[n - 1]] == [[n - 1], [n - 1]];
  }

  /** Pieces that strip alike give the same tokens. */
  lemma {:induction false} NonEmptyStrippedSame(p1: seq<string>, p2: seq<string>)
    requires |p1| == |p2|
    requires forall k :: 0 <= k < |p1| ==> Strip(p1[k]) == Strip(p2[k])
    ensures NonEmptyStripped(p1) == NonEmptyStripped(p2)
  {
    if p1 != [] {
      NonEmptyStrippedSame(p1[1..], p2[1..]);
    }
  }

  /** White space around the whole text only reaches the first and last pieces, which are stripped anyway. */
  lemma {:induction false} TokensOfStripped(text: string)
    ensures Tokens(Strip(text)) == Tokens(text)
  {
    var l, r := StripCore(text);
    var m := Strip(text);
    assert ',' !in l && ',' !in r;
    SplitSurrounded(l, m, r, ',');
    var pieces, all := Split(m, ','), Split(text, ',');
    forall k | 0 <= k < |all| ensures Strip(all[k]) == Strip(pieces[k]) {
      StripSurrounded(if k == 0 then l else "", pieces[k], if k == |pieces| - 1 then r else "");
    }
    NonEmptyStrippedSame(all, pieces);
  }

  /** Stripping the range text before parsing it, as the web split does, changes neither the groups nor the error. */
  lemma {:induction false} StrippedRanges(text: string, total: nat)
    ensures ParseRanges(Strip(text), total) == ParseRanges(text, total)
  {
    StripIdempotent(text);
    TokensOfStripped(text);
  }
}
