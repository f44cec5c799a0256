/**
 * The Python string operations the tool relies on, over `string` (= seq<char>):
 * str.strip(), str.split(sep), int() on a decimal numeral, str() of a
 * non-negative int, str.lower().endswith(...), str.replace(a, b) for one
 * character, and the name/stem/suffix rules of pathlib.PurePosixPath.
 */
module Text {

  /** The characters for which Python's str.isspace() holds; str.strip() with no argument removes them. */
  predicate IsSpace(c: char) {
    c == ' ' || ('\t' <= c <= '\r') || ('\U{1C}' <= c <= '\U{1F}') || c == '\U{85}' || c == '\U{A0}'
    || c == '\U{1680}' || ('\U{2000}' <= c <= '\U{200A}') || c == '\U{2028}' || c == '\U{2029}'
    || c == '\U{202F}' || c == '\U{205F}' || c == '\U{3000}'
  }

  /** str.lstrip(): drop leading white space. */
  function StripLeft(s: string): string {
    if s != [] && IsSpace(s[0]) then StripLeft(s[1..]) else s
  }

  /** str.rstrip(): drop trailing white space. */
  function StripRight(s: string): string {
    if s != [] && IsSpace(s[|s| - 1]) then StripRight(s[..|s| - 1]) else s
  }

  /** str.strip(): drop white space at both ends. */
  function Strip(s: string): string {
    StripRight(StripLeft(s))
  }

  /** lstrip leaves a suffix of its input that does not start with white space. */
  lemma {:induction false} StripLeftTail(s: string)
    ensures var r := StripLeft(s);
            && |r| <= |s| && r == s[|s| - |r|..]
            && (r == [] || !IsSpace(r[0]))
  {
    if s != [] && IsSpace(s[0]) {
      var t := s[1..];
      StripLeftTail(t);
      var r := StripLeft(t);
      assert t[|t| - |r|..] == s[|s| - |r|..];
    }
  }

  /** What lstrip removes is white space. */
  lemma {:induction false} StripLeftDropped(s: string)
    ensures forall k :: 0 <= k < |s| - |StripLeft(s)| ==> IsSpace(s[k])
  {
    if s != [] && IsSpace(s[0]) {
      var t := s[1..];
      StripLeftDropped(t);
      forall k | 1 <= k < |s| - |StripLeft(s)| ensures IsSpace(s[k]) {
        assert s[k] == t[k - 1];
      }
    }
  }

  /** lstrip removes a prefix made of white space and leaves a string that does not start with any. */
  lemma StripLeftSpec(s: string)
    ensures var r := StripLeft(s);
            && |r| <= |s| && r == s[|s| - |r|..]
            && (r == [] || !IsSpace(r[0]))
            && forall k :: 0 <= k < |s| - |r| ==> IsSpace(s[k])
  {
    StripLeftTail(s);
    StripLeftDropped(s);
  }

  /** rstrip leaves a prefix of its input that does not end with white space. */
  lemma {:induction false} StripRightHead(s: string)
    ensures var r := StripRight(s);
            && |r| <= |s| && r == s[..|r|]
            && (r == [] || !IsSpace(r[|r| - 1]))
  {
    if s != [] && IsSpace(s[|s| - 1]) {
      var t := s[..|s| - 1];
      StripRightHead(t);
      assert t[..|StripRight(t)|] == s[..|StripRight(t)|];
    }
  }

  /** What rstrip removes is white space. */
  lemma {:induction false} StripRightDropped(s: string)
    ensures forall k :: |StripRight(s)| <= k < |s| ==> IsSpace(s[k])
  {
    if s != [] && IsSpace(s[|s| - 1]) {
      var t := s[..|s| - 1];
      StripRightDropped(t);
      forall k | |StripRight(s)| <= k < |s| - 1 ensures IsSpace(s[k]) {
        assert s[k] == t[k];
      }
    }
  }

  /** rstrip removes a suffix made of white space and leaves a string that does not end with any. */
  lemma StripRightSpec(s: string)
    ensures var r := StripRight(s);
            && |r| <= |s| && r == s[..|r|]
            && (r == [] || !IsSpace(r[|r| - 1]))
            && forall k :: |r| <= k < |s| ==> IsSpace(s[k])
  {
    StripRightHead(s);
    StripRightDropped(s);
  }

  /** strip leaves a string that neither starts nor ends with white space. */
  lemma {:induction false} StripEnds(s: string)
    ensures Strip(s) == [] || (!IsSpace(Strip(s)[0]) && !IsSpace(Strip(s)[|Strip(s)| - 1]))
  {
    StripLeftSpec(s);
    StripRightSpec(StripLeft(s));
  }

  /** A string already free of white space at both ends is left alone by Strip. */
  lemma {:induction false} StripTrimmed(s: string)
    requires s == [] || (!IsSpace(s[0]) && !IsSpace(s[|s| - 1]))
    ensures Strip(s) == s
  {
  }

  /** Strip is idempotent. */
  lemma {:induction false} StripIdempotent(s: string)
    ensures Strip(Strip(s)) == Strip(s)
  {
    StripEnds(s);
    StripTrimmed(Strip(s));
  }

  /** Strip gives the empty string exactly for the all-white-space strings. */
  lemma {:induction false} StripBlank(s: string)
    ensures Strip(s) == [] <==> forall k :: 0 <= k < |s| ==> IsSpace(s[k])
  {
    var l := StripLeft(s);
    StripLeftSpec(s);
    StripRightSpec(l);
    if l != [] {
      assert !IsSpace(s[|s| - |l|]) && !IsSpace(l[0]);
    }
  }

  predicate AllSpace(s: string) {
    forall k :: 0 <= k < |s| ==> IsSpace(s[k])
  }

  /** Leading white space does not change what lstrip leaves. */
  lemma {:induction false} StripLeftSpaces(l: string, x: string)
    requires AllSpace(l)
    ensures StripLeft(l + x) == StripLeft(x)
  {
    if l != [] {
      assert (l + x)[1..] == l[1..] + x;
      StripLeftSpaces(l[1..], x);
    } else {
      assert l + x == x;
    }
  }

  /** Trailing white space does not change what rstrip leaves. */
  lemma {:induction false} StripRightSpaces(x: string, r: string)
    requires AllSpace(r)
    ensures StripRight(x + r) == StripRight(x)
  {
    if r != [] {
      var y := x + r;
      assert y[..|y| - 1] == x + r[..|r| - 1];
      StripRightSpaces(x, r[..|r| - 1]);
    } else {
      assert x + r == x;
    }
  }

  /** Once lstrip stops inside x, what follows x is kept whole. */
  lemma {:induction false} StripLeftKeeps(x: string, y: string)
    requires StripLeft(x) != ""
    ensures StripLeft(x + y) == StripLeft(x) + y
  {
    assert (x + y)[0] == x[0];
    if IsSpace(x[0]) {
      assert (x + y)[1..] == x[1..] + y;
      StripLeftKeeps(x[1..], y);
    }
  }

  /** White space around a string does not change what strip leaves. */
  lemma {:induction false} StripSurrounded(l: string, x: string, r: string)
    requires AllSpace(l) && AllSpace(r)
    ensures Strip(l + x + r) == Strip(x)
  {
    assert l + x + r == l + (x + r);
    StripLeftSpaces(l, x + r);
    if StripLeft(x) == "" {
      StripLeftSpec(x);
      StripLeftSpaces(x, r);
      StripLeftSpec(r);
    } else {
      StripLeftKeeps(x, r);
      StripRightSpaces(StripLeft(x), r);
    }
  }

  /** A string is its stripped core with white space on either side. */
  lemma {:induction false} StripCore(s: string) returns (l: string, r: string)
    ensures AllSpace(l) && AllSpace(r) && s == l + Strip(s) + r
  {
    var left := StripLeft(s);
    var core := StripRight(left);
    StripLeftTail(s);
    StripRightHead(left);
    l := s[..|s| - |left|];
    r := left[|core|..];
    assert AllSpace(l) by {
      StripLeftDropped(s);
      forall k | 0 <= k < |l| ensures IsSpace(l[k]) {
        assert l[k] == s[k];
      }
    }
    assert AllSpace(r) by {
      StripRightDropped(left);
      forall k | 0 <= k < |r| ensures IsSpace(r[k]) {
        assert r[k] == left[|core| + k];
      }
    }
    assert left == core + r;
    assert s == l + left;
  }

  /** str.split(sep): the pieces between occurrences of `sep`, empty pieces kept. */
  function Split(s: string, sep: char): (parts: seq<string>)
    ensures |parts| >= 1
    ensures forall k :: 0 <= k < |parts| ==> sep !in parts[k]
  {
    if s == [] then [""]
    else if s[0] == sep then [""] + Split(s[1..], sep)
    else
      var rest := Split(s[1..], sep);
      [[s[0]] + rest[0]] + rest[1..]
  }

  /** sep.join(parts): the inverse of Split. */
  function Join(parts: seq<string>, sep: char): string
    requires |parts| >= 1
  {
    if |parts| == 1 then parts[0] else parts[0] + [sep] + Join(parts[1..], sep)
  }

  /** Joining the pieces of a split restores the string. */
  lemma {:induction false} JoinSplit(s: string, sep: char)
    ensures Join(Split(s, sep), sep) == s
  {
    if s == [] {
    } else if s[0] == sep {
      JoinSplit(s[1..], sep);
      assert s == [sep] + s[1..];
    } else {
      JoinSplit(s[1..], sep);
      var rest := Split(s[1..], sep);
      if |rest| == 1 {
        assert s == [s[0]] + s[1..];
      } else {
        calc {
          Join(Split(s, sep), sep);
          ([s[0]] + rest[0]) + [sep] + Join(rest[1..], sep);
          [s[0]] + (rest[0] + [sep] + Join(rest[1..], sep));
          [s[0]] + Join(rest, sep);
          s;
        }
      }
    }
  }

  /** A string without the separator splits into itself alone. */
  lemma {:induction false} SplitWithout(s: string, sep: char)
    requires sep !in s
    ensures Split(s, sep) == [s]
  {
    if s != [] {
      SplitWithout(s[1..], sep);
      assert [s[0]] + s[1..] == s;
    }
  }

  /** Text without the separator in front of a string joins its first piece. */
  lemma {:induction false} SplitPrefix(l: string, s: string, sep: char)
    requires sep !in l
    ensures Split(l + s, sep) == [l + Split(s, sep)[0]] + Split(s, sep)[1..]
  {
    if l != [] {
      assert (l + s)[0] == l[0];
      assert (l + s)[1..] == l[1..] + s;
      SplitPrefix(l[1..], s, sep);
      assert [l[0]] + (l[1..] + Split(s, sep)[0]) == l + Split(s, sep)[0];
    } else {
      assert l + s == s;
      var parts := Split(s, sep);
      assert l + parts[0] == parts[0];
      assert parts == [parts[0]] + parts[1..];
    }
  }

  /** Text without the separator after a string joins its last piece. */
  lemma {:induction false} SplitSuffix(s: string, r: string, sep: char)
    requires sep !in r
    ensures var parts := Split(s, sep);
            Split(s + r, sep) == parts[..|parts| - 1] + [parts[|parts| - 1] + r]
  {
    if s == [] {
      SplitWithout(r, sep);
      assert s + r == r;
    } else {
      assert (s + r)[0] == s[0];
      assert (s + r)[1..] == s[1..] + r;
      SplitSuffix(s[1..], r, sep);
      var rest := Split(s[1..], sep);
      if s[0] != sep && |rest| == 1 {
        assert [s[0]] + rest[0] + r == [s[0]] + (rest[0] + r);
      }
    }
  }

  /** Text without the separator before a string only widens its first piece. */
  lemma {:induction false} SplitPrefixPieces(l: string, s: string, sep: char)
    requires sep !in l
    ensures var parts, all := Split(s, sep), Split(l + s, sep);
            && |all| == |parts| && all[0] == l + parts[0]
            && forall k :: 1 <= k < |all| ==> all[k] == parts[k]
  {
    SplitPrefix(l, s, sep);
  }

  /** Text without the separator after a string only widens its last piece. */
  lemma {:induction false} SplitSuffixPieces(s: string, r: string, sep: char)
    requires sep !in r
    ensures var parts, all := Split(s, sep), Split(s + r, sep);
            && |all| == |parts| && all[|all| - 1] == parts[|parts| - 1] + r
            && forall k :: 0 <= k < |all| - 1 ==> all[k] == parts[k]
  {
    var parts := Split(s, sep);
    SplitSuffix(s, r, sep);
    assert forall k :: 0 <= k < |parts| - 1 ==> parts[..|parts| - 1][k] == parts[k];
  }

  /** Text without the separator on either side of a string only widens its first and last pieces. */
  lemma {:induction false} SplitSurrounded(l: string, m: string, r: string, sep: char)
    requires sep !in l && sep !in r
    ensures var parts, all := Split(m, sep), Split(l + m + r, sep);
            && |all| == |parts|
            && forall k :: 0 <= k < |all| ==>
                 all[k] == (if k == 0 then l else "") + parts[k] + (if k == |parts| - 1 then r else "")
  {
    var parts := Split(m, sep);
    var widened := Split(m + r, sep);
    var all := Split(l + m + r, sep);
    var n := |parts|;
    SplitSuffixPieces(m, r, sep);
    assert l + m + r == l + (m + r);
    SplitPrefixPieces(l, m + r, sep);
    forall k | 0 <= k < |all|
      ensures all[k] == (if k == 0 then l else "") + parts[k] + (if k == n - 1 then r else "")
    {
      if k == 0 && k == n - 1 {
        assert all[0] == l + (parts[0] + r);
      } else if k == 0 {
        assert all[0] == l + parts[0];
      } else {
        assert all[k] == widened[k];
      }
    }
  }

  /** Splitting at one occurrence of the separator splits both sides independently. */
  lemma {:induction false} SplitAround(a: string, sep: char, b: string)
    ensures Split(a + [sep] + b, sep) == Split(a, sep) + Split(b, sep)
  {
    if a == [] {
      assert a + [sep] + b == [sep] + b;
      assert ([sep] + b)[1..] == b;
    } else {
      var s := a + [sep] + b;
      assert s[0] == a[0];
      assert s[1..] == a[1..] + [sep] + b;
      SplitAround(a[1..], sep, b);
    }
  }

  predicate IsDigit(c: char) {
    '0' <= c <= '9'
  }

  /** A non-empty ASCII decimal numeral; leading zeros are allowed. */
  predicate IsDigits(s: string) {
    |s| > 0 && forall k :: 0 <= k < |s| ==> IsDigit(s[k])
  }

  function DigitValue(c: char): nat
    requires IsDigit(c)
  {
    c as int - '0' as int
  }

  /** The value Python's int() gives a numeral, read most significant digit first. */
  function DigitsValue(s: string): nat
    requires forall k :: 0 <= k < |s| ==> IsDigit(s[k])
  {
    if s == [] then 0 else 10 * DigitsValue(s[..|s| - 1]) + DigitValue(s[|s| - 1])
  }

  function DigitChar(d: nat): (c: char)
    requires d < 10
    ensures IsDigit(c) && DigitValue(c) == d
  {
    ('0' as int + d) as char
  }

  /** str(n) for a non-negative int: its decimal numeral, without leading zeros. */
  function NatToString(n: nat): (s: string)
    ensures IsDigits(s) && DigitsValue(s) == n
    ensures s[0] == '0' ==> s == "0"
  {
    if n < 10 then [DigitChar(n)]
    else
      var high := NatToString(n / 10);
      var s := high + [DigitChar(n % 10)];
      assert s[..|s| - 1] == high;
      s
  }

  /** A numeral's value is zero exactly when all of its digits are zeros. */
  lemma {:induction false} DigitsValueZero(s: string)
    requires forall k :: 0 <= k < |s| ==> IsDigit(s[k])
    ensures DigitsValue(s) == 0 <==> forall k :: 0 <= k < |s| ==> s[k] == '0'
  {
    if s != [] {
      var init := s[..|s| - 1];
      DigitsValueZero(init);
      assert forall k :: 0 <= k < |init| ==> init[k] == s[k];
    }
  }

  /** Leading zeros do not change a numeral's value (Python: int("007") == 7). */
  lemma {:induction false} DigitsValueLeadingZeros(z: string, s: string)
    requires forall k :: 0 <= k < |z| ==> z[k] == '0'
    requires forall k :: 0 <= k < |s| ==> IsDigit(s[k])
    ensures forall k :: 0 <= k < |z + s| ==> IsDigit((z + s)[k])
    ensures DigitsValue(z + s) == DigitsValue(s)
  {
    assert forall k :: 0 <= k < |z + s| ==> IsDigit((z + s)[k]) by {
      forall k | 0 <= k < |z + s| ensures IsDigit((z + s)[k]) {
        if k < |z| { assert (z + s)[k] == z[k]; } else { assert (z + s)[k] == s[k - |z|]; }
      }
    }
    if s == [] {
      assert z + s == z;
      DigitsValueZero(z);
    } else {
      var init := s[..|s| - 1];
      DigitsValueLeadingZeros(z, init);
      assert (z + s)[..|z + s| - 1] == z + init;
    }
  }

  /** Python's str.lower() on one character, for the ASCII letters. */
  function LowerAscii(c: char): char {
    if 'A' <= c <= 'Z' then (c as int - 'A' as int + 'a' as int) as char else c
  }

  /** name.lower().endswith(".pdf") */
  predicate HasPdfExtension(name: string) {
    |name| >= 4
    && name[|name| - 4] == '.'
    && LowerAscii(name[|name| - 3]) == 'p'
    && LowerAscii(name[|name| - 2]) == 'd'
    && LowerAscii(name[|name| - 1]) == 'f'
  }

  /** s.replace(from, to) for single characters. */
  function ReplaceChar(s: string, from: char, to: char): (r: string)
    ensures |r| == |s|
    ensures forall k :: 0 <= k < |s| ==> r[k] == (if s[k] == from then to else s[k])
  {
    if s == [] then [] else [if s[0] == from then to else s[0]] + ReplaceChar(s[1..], from, to)
  }

  /** Index of the last occurrence of `c` in `s`, or -1 (str.rfind). */
  function LastIndexOf(s: string, c: char): (i: int)
    ensures -1 <= i < |s|
    ensures 0 <= i ==> s[i] == c
    ensures forall k :: i < k < |s| ==> s[k] != c
  {
    if s == [] then -1
    else if s[|s| - 1] == c then |s| - 1
    else LastIndexOf(s[..|s| - 1], c)
  }

  /** PurePath.suffix of a final path component (Python 3.12 rule: a dot that is neither first nor last). */
  function Suffix(name: string): string {
    var i := LastIndexOf(name, '.');
    if 0 < i < |name| - 1 then name[i..] else ""
  }

  /** PurePath.stem of a final path component: the name without its suffix. */
  function Stem(name: string): string {
    var i := LastIndexOf(name, '.');
    if 0 < i < |name| - 1 then name[..i] else name
  }

  /** Position k of the name holds its last dot. */
  predicate LastDotAt(name: string, k: int) {
    0 <= k < |name| && name[k] == '.' && forall j :: k < j < |name| ==> name[j] != '.'
  }

  /**
   * Stem and suffix split a name in two. There is a suffix exactly when the name's last dot is
   * neither its first nor its last character, and the suffix then starts at that dot.
   */
  lemma {:induction false} StemSuffix(name: string)
    ensures Stem(name) + Suffix(name) == name
    ensures Suffix(name) == "" || (Suffix(name)[0] == '.' && |Suffix(name)| >= 2 && '.' !in Suffix(name)[1..])
    ensures Suffix(name) != "" ==> Stem(name) != ""
    ensures Suffix(name) != "" <==> exists k :: 0 < k < |name| - 1 && LastDotAt(name, k)
    ensures forall k :: 0 < k < |name| - 1 && LastDotAt(name, k) ==> Suffix(name) == name[k..]
  {
    var i := LastIndexOf(name, '.');
    forall k | 0 <= k < |name| && LastDotAt(name, k) ensures k == i {
      assert 0 <= i ==> name[i] == '.';
    }
    if 0 < i < |name| - 1 {
      assert LastDotAt(name, i);
      assert name[..i] + name[i..] == name;
      forall k | 1 <= k < |name[i..]| ensures name[i..][k] != '.' {
        assert name[i..][k] == name[i + k];
      }
    }
  }

  /** PurePosixPath(text).name: the last component that is neither empty nor ".", or "". */
  function FinalComponent(text: string): string {
    LastNamed(Split(text, '/'))
  }

  function LastNamed(parts: seq<string>): string {
    if parts == [] then ""
    else if parts[|parts| - 1] != "" && parts[|parts| - 1] != "." then parts[|parts| - 1]
    else LastNamed(parts[..|parts| - 1])
  }
}
