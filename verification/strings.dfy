/** The fragment of Python 2 `str` behaviour the server relies on: whitespace
    splitting and stripping, ASCII lower-casing, substring search, splitting on
    a separator, reading one line, and decimal integer conversion. Strings are
    byte strings, so one `char` stands for one byte. */
module Strings {
  import opened Wrappers

  /** Python 2 `str.isspace` on one byte: space, \t, \n, \v, \f and \r. */
  predicate IsSpace(c: char) {
    c == ' ' || '\t' <= c <= '\r'
  }

  predicate AllSpace(s: string) {
    forall i :: 0 <= i < |s| ==> IsSpace(s[i])
  }

  predicate NoSpace(s: string) {
    forall i :: 0 <= i < |s| ==> !IsSpace(s[i])
  }

  // ---------------------------------------------------------------------------
  // strip

  /** `s.lstrip()`: the longest suffix of `s` that does not start with whitespace. */
  function TrimLeft(s: string): (r: string)
    ensures |r| <= |s| && r == s[|s| - |r|..]
    ensures r == [] || !IsSpace(r[0])
    ensures AllSpace(s[..|s| - |r|])
    decreases |s|
  {
    if |s| > 0 && IsSpace(s[0]) then
      var r := TrimLeft(s[1..]);
      assert s[..|s| - |r|] == [s[0]] + s[1..][..|s| - 1 - |r|];
      r
    else s
  }

  /** `s.rstrip()`: the longest prefix of `s` that does not end with whitespace. */
  function TrimRight(s: string): (r: string)
    ensures r <= s
    ensures r == [] || !IsSpace(r[|r| - 1])
    ensures AllSpace(s[|r|..])
    decreases |s|
  {
    if |s| > 0 && IsSpace(s[|s| - 1]) then
      var r := TrimRight(s[..|s| - 1]);
      assert s[|r|..] == s[..|s| - 1][|r|..] + [s[|s| - 1]];
      r
    else s
  }

  /** `s.strip()`: whitespace removed at both ends. */
  function Strip(s: string): (r: string)
    ensures |r| <= |s|
    ensures r == [] || (!IsSpace(r[0]) && !IsSpace(r[|r| - 1]))
    ensures AllSpace(s) <==> r == []
  {
    var t := TrimRight(s);
    assert t == [] ==> s[|t|..] == s;
    TrimLeft(t)
  }

  /** A trailing line break is stripped with the rest of the padding. */
  lemma StripNewline(x: string)
    ensures Strip(x + "\n") == Strip(x)
  {
    var s := x + "\n";
    assert |s| > 0 && IsSpace(s[|s| - 1]);
    assert s[..|s| - 1] == x;
    assert TrimRight(s) == TrimRight(x);
  }

  lemma {:induction false} TrimLeftOfPadded(a: string, q: string)
    requires AllSpace(a)
    requires q == [] || !IsSpace(q[0])
    ensures TrimLeft(a + q) == q
    decreases |a|
  {
    if a != [] {
      assert (a + q)[1..] == a[1..] + q;
      TrimLeftOfPadded(a[1..], q);
    } else {
      assert a + q == q;
    }
  }

  lemma {:induction false} TrimRightOfPadded(p: string, b: string)
    requires AllSpace(b)
    requires p == [] || !IsSpace(p[|p| - 1])
    ensures TrimRight(p + b) == p
    decreases |b|
  {
    if b != [] {
      assert (p + b)[..|p + b| - 1] == p + b[..|b| - 1];
      TrimRightOfPadded(p, b[..|b| - 1]);
    } else {
      assert p + b == p;
    }
  }

  /** Stripping removes exactly the whitespace padding around a string whose
      ends are not whitespace. */
  lemma StripOfPadded(a: string, x: string, b: string)
    requires AllSpace(a) && AllSpace(b)
    requires x == [] || (!IsSpace(x[0]) && !IsSpace(x[|x| - 1]))
    ensures Strip(a + x + b) == x
  {
    if x == [] {
      assert a + x + b == [] + (a + b);
      TrimRightOfPadded([], a + b);
    } else {
      TrimRightOfPadded(a + x, b);
      TrimLeftOfPadded(a, x);
    }
  }

  // ---------------------------------------------------------------------------
  // find, rfind, split

  /** `pat` occurs in `s` starting at index `i`. */
  predicate OccursAt(s: string, pat: string, i: int) {
    0 <= i && i + |pat| <= |s| && s[i..i + |pat|] == pat
  }

  function FindFrom(s: string, pat: string, from: nat): (r: Option<nat>)
    requires from <= |s|
    ensures r.Some? ==> from <= r.value && OccursAt(s, pat, r.value)
    ensures r.Some? ==> forall j :: from <= j < r.value ==> !OccursAt(s, pat, j)
    ensures r.None? ==> forall j :: from <= j ==> !OccursAt(s, pat, j)
    decreases |s| - from
  {
    if OccursAt(s, pat, from) then Some(from)
    else if from == |s| then None
    else FindFrom(s, pat, from + 1)
  }

  /** `s.find(pat)`: the first index at which `pat` occurs, if any. */
  function Find(s: string, pat: string): (r: Option<nat>)
    ensures r.Some? ==> OccursAt(s, pat, r.value)
    ensures r.Some? ==> forall j :: 0 <= j < r.value ==> !OccursAt(s, pat, j)
    ensures r.None? ==> forall j :: !OccursAt(s, pat, j)
  {
    FindFrom(s, pat, 0)
  }

  /** `s.find(pat) >= 0`. */
  predicate Contains(s: string, pat: string) {
    Find(s, pat).Some?
  }

  function RFindUpTo(s: string, pat: string, i: int): (r: Option<nat>)
    requires i <= |s|
    ensures r.Some? ==> r.value <= i && OccursAt(s, pat, r.value)
    ensures r.Some? ==> forall j :: r.value < j <= i ==> !OccursAt(s, pat, j)
    ensures r.None? ==> forall j :: j <= i ==> !OccursAt(s, pat, j)
    decreases i + 1
  {
    if i < 0 then None
    else if OccursAt(s, pat, i) then Some(i)
    else RFindUpTo(s, pat, i - 1)
  }

  /** `s.rfind(pat)`: the last index at which `pat` occurs, if any. */
  function RFind(s: string, pat: string): (r: Option<nat>)
    ensures r.Some? ==> OccursAt(s, pat, r.value)
    ensures r.Some? ==> forall j :: r.value < j ==> !OccursAt(s, pat, j)
    ensures r.None? ==> forall j :: !OccursAt(s, pat, j)
  {
    RFindUpTo(s, pat, |s|)
  }

  /** A prefix that ends before the first occurrence has no occurrence. */
  lemma NoOccurrenceBeforeFirst(s: string, pat: string, i: nat)
    requires pat != [] && i <= |s|
    requires forall j :: 0 <= j < i ==> !OccursAt(s, pat, j)
    ensures !Contains(s[..i], pat)
  {
    forall j | OccursAt(s[..i], pat, j)
      ensures false
    {
      assert s[..i][j..j + |pat|] == s[j..j + |pat|];
      assert OccursAt(s, pat, j);
    }
  }

  /** `s.split(sep)` for a non-empty separator: the pieces between the
      non-overlapping occurrences of `sep`, scanning left to right. */
  function Split(s: string, sep: string): (r: seq<string>)
    requires sep != []
    ensures |r| >= 1
    ensures |r| >= 2 <==> Contains(s, sep)
    ensures forall k :: 0 <= k < |r| ==> !Contains(r[k], sep)
    decreases |s|
  {
    match Find(s, sep)
    case None => [s]
    case Some(i) =>
      NoOccurrenceBeforeFirst(s, sep, i);
      [s[..i]] + Split(s[i + |sep|..], sep)
  }

  /** `sep.join(parts)`. */
  function Join(parts: seq<string>, sep: string): string
    decreases |parts|
  {
    if |parts| == 0 then ""
    else if |parts| == 1 then parts[0]
    else parts[0] + sep + Join(parts[1..], sep)
  }

  lemma JoinPair(a: string, b: string, sep: string)
    ensures Join([a, b], sep) == a + sep + b
  {
    assert [a, b][1..] == [b];
  }

  lemma JoinTriple(a: string, b: string, c: string, sep: string)
    ensures Join([a, b, c], sep) == a + sep + (b + sep + c)
  {
    assert [a, b, c][1..] == [b, c];
    JoinPair(b, c, sep);
  }

  lemma {:induction false} JoinNoSpace(parts: seq<string>, sep: string)
    requires NoSpace(sep)
    requires forall k :: 0 <= k < |parts| ==> NoSpace(parts[k])
    ensures NoSpace(Join(parts, sep))
    decreases |parts|
  {
    if |parts| >= 2 {
      JoinNoSpace(parts[1..], sep);
      var rest := Join(parts[1..], sep);
      var s := parts[0] + sep + rest;
      assert forall i :: 0 <= i < |s| ==> !IsSpace(s[i]) by {
        forall i | 0 <= i < |s|
          ensures !IsSpace(s[i])
        {
          if i < |parts[0]| {
            assert s[i] == parts[0][i];
          } else if i < |parts[0]| + |sep| {
            assert s[i] == sep[i - |parts[0]|];
          } else {
            assert s[i] == rest[i - |parts[0]| - |sep|];
          }
        }
      }
    }
  }

  /** Joining the pieces of a split with the separator restores the string. */
  lemma {:induction false} JoinOfSplit(s: string, sep: string)
    requires sep != []
    ensures Join(Split(s, sep), sep) == s
    decreases |s|
  {
    match Find(s, sep)
    case None =>
    case Some(i) =>
      var tail := Split(s[i + |sep|..], sep);
      assert Split(s, sep) == [s[..i]] + tail;
      assert ([s[..i]] + tail)[1..] == tail;
      JoinOfSplit(s[i + |sep|..], sep);
      assert s[i..i + |sep|] == sep;
      assert s == s[..i] + s[i..i + |sep|] + s[i + |sep|..];
  }

  /** A pattern whose first character does not occur in `s` does not occur in `s`. */
  lemma FindAbsentHead(s: string, pat: string)
    requires pat != [] && pat[0] !in s
    ensures Find(s, pat).None?
  {
    forall j | 0 <= j < |s|
      ensures !OccursAt(s, pat, j)
    {
      if j + |pat| <= |s| {
        assert s[j..j + |pat|][0] == s[j];
      }
    }
  }

  /** When the first character of `pat` does not occur in `x`, the first
      occurrence of `pat` in `x + pat + y` is the one right after `x`. */
  lemma FindAfterHeadFree(x: string, pat: string, y: string)
    requires pat != [] && pat[0] !in x
    ensures Find(x + pat + y, pat) == Some(|x|)
  {
    var s := x + pat + y;
    assert s[|x|..|x| + |pat|] == pat;
    assert OccursAt(s, pat, |x|);
    forall j | 0 <= j < |x|
      ensures !OccursAt(s, pat, j)
    {
      assert s[j] == x[j];
      if j + |pat| <= |s| {
        assert s[j..j + |pat|][0] == s[j];
      }
    }
    FindFirst(s, pat, |x|);
  }

  /** The first occurrence found: an occurrence with none before it. */
  lemma FindFirst(s: string, pat: string, i: nat)
    requires OccursAt(s, pat, i)
    requires forall j :: 0 <= j < i ==> !OccursAt(s, pat, j)
    ensures Find(s, pat) == Some(i)
  {
  }

  lemma FindCharAbsent(s: string, c: char)
    requires c !in s
    ensures Find(s, [c]).None?
  {
    FindAbsentHead(s, [c]);
  }

  lemma FindCharAfter(x: string, c: char, y: string)
    requires c !in x
    ensures Find(x + [c] + y, [c]) == Some(|x|)
  {
    FindAfterHeadFree(x, [c], y);
  }

  /** Splitting peels off the text before the first occurrence of the
      separator. */
  lemma SplitAtSep(x: string, sep: string, y: string)
    requires sep != [] && Find(x + sep + y, sep) == Some(|x|)
    ensures Split(x + sep + y, sep) == [x] + Split(y, sep)
  {
    var s := x + sep + y;
    assert s[..|x|] == x;
    assert s[|x| + |sep|..] == y;
  }

  /** Splitting on a separator whose first character no piece contains
      recovers the pieces that were joined. */
  lemma {:induction false} SplitOfJoinHeadFree(parts: seq<string>, sep: string)
    requires |parts| >= 1 && sep != []
    requires forall k :: 0 <= k < |parts| ==> sep[0] !in parts[k]
    ensures Split(Join(parts, sep), sep) == parts
    decreases |parts|
  {
    if |parts| == 1 {
      FindAbsentHead(parts[0], sep);
    } else {
      var rest := Join(parts[1..], sep);
      assert Join(parts, sep) == parts[0] + sep + rest;
      FindAfterHeadFree(parts[0], sep, rest);
      SplitAtSep(parts[0], sep, rest);
      SplitOfJoinHeadFree(parts[1..], sep);
      assert parts == [parts[0]] + parts[1..];
    }
  }

  /** Splitting on a one-character separator that no piece contains recovers
      the pieces that were joined. */
  lemma SplitOfJoin(parts: seq<string>, c: char)
    requires |parts| >= 1
    requires forall k :: 0 <= k < |parts| ==> c !in parts[k]
    ensures Split(Join(parts, [c]), [c]) == parts
  {
    SplitOfJoinHeadFree(parts, [c]);
  }

  /** `s.split(sep, 1)`: at most two pieces, around the first occurrence. */
  function SplitOnce(s: string, sep: string): (r: seq<string>)
    requires sep != []
    ensures |r| == 1 || |r| == 2
    ensures |r| == 1 <==> !Contains(s, sep)
    ensures |r| == 1 ==> r[0] == s
    ensures |r| == 2 ==> r[0] + sep + r[1] == s && !Contains(r[0], sep)
  {
    match Find(s, sep)
    case None => [s]
    case Some(i) =>
      NoOccurrenceBeforeFirst(s, sep, i);
      assert s == s[..i] + s[i..i + |sep|] + s[i + |sep|..];
      [s[..i], s[i + |sep|..]]
  }

  /** `split(sep, 1)` on a one-character separator cuts at its first
      occurrence. */
  lemma SplitOnceAt(x: string, c: char, y: string)
    requires c !in x
    ensures SplitOnce(x + [c] + y, [c]) == [x, y]
  {
    var s := x + [c] + y;
    FindCharAfter(x, c, y);
    assert s[..|x|] == x;
    assert s[|x| + 1..] == y;
  }

  // ---------------------------------------------------------------------------
  // split() on whitespace

  /** Length of the run of non-whitespace characters that starts `s`. */
  function LeadingToken(s: string): (n: nat)
    ensures n <= |s| && NoSpace(s[..n])
    ensures n == |s| || IsSpace(s[n])
    decreases |s|
  {
    if |s| == 0 || IsSpace(s[0]) then 0
    else
      var n := LeadingToken(s[1..]);
      assert s[..n + 1] == [s[0]] + s[1..][..n];
      n + 1
  }

  /** A non-empty run of non-whitespace characters. */
  predicate IsToken(x: string) {
    x != [] && NoSpace(x)
  }

  /** `s.split()`: the maximal runs of non-whitespace characters, in order. */
  function SplitWhitespace(s: string): (r: seq<string>)
    ensures forall k :: 0 <= k < |r| ==> IsToken(r[k])
    decreases |s|
  {
    var t := TrimLeft(s);
    if t == [] then []
    else
      var n := LeadingToken(t);
      var tok := t[..n];
      assert IsToken(tok);
      var rest := SplitWhitespace(t[n..]);
      TokensCons(tok, rest);
      [tok] + rest
  }

  lemma TokensCons(tok: string, rest: seq<string>)
    requires IsToken(tok)
    requires forall k :: 0 <= k < |rest| ==> IsToken(rest[k])
    ensures forall k :: 0 <= k < |[tok] + rest| ==> IsToken(([tok] + rest)[k])
  {
    var r := [tok] + rest;
    forall k | 0 <= k < |r|
      ensures IsToken(r[k])
    {
      if k > 0 {
        assert r[k] == rest[k - 1];
      }
    }
  }

  lemma SplitWhitespaceOfSpace(w: string)
    requires AllSpace(w)
    ensures SplitWhitespace(w) == []
  {
    var t := TrimLeft(w);
    assert t == [];
  }

  lemma {:induction false} LeadingTokenOf(tok: string, rest: string)
    requires NoSpace(tok)
    requires rest == [] || IsSpace(rest[0])
    ensures LeadingToken(tok + rest) == |tok|
    decreases |tok|
  {
    if tok == [] {
      assert tok + rest == rest;
    } else {
      assert (tok + rest)[0] == tok[0];
      assert (tok + rest)[1..] == tok[1..] + rest;
      LeadingTokenOf(tok[1..], rest);
    }
  }

  /** A token preceded by whitespace and followed by whitespace (or nothing)
      is the next piece of `split()`. */
  lemma SplitWhitespaceOfToken(a: string, tok: string, rest: string)
    requires AllSpace(a)
    requires IsToken(tok)
    requires rest == [] || IsSpace(rest[0])
    ensures SplitWhitespace(a + tok + rest) == [tok] + SplitWhitespace(rest)
  {
    var t := tok + rest;
    assert a + tok + rest == a + t;
    TrimLeftOfPadded(a, t);
    LeadingTokenOf(tok, rest);
    assert t[..|tok|] == tok && t[|tok|..] == rest;
  }

  // ---------------------------------------------------------------------------
  // lower()

  function LowerChar(c: char): char {
    if 'A' <= c <= 'Z' then (c as int + 32) as char else c
  }

  /** `s.lower()`: ASCII upper-case letters mapped to lower case, all other
      bytes kept. */
  function Lower(s: string): (r: string)
    ensures |r| == |s|
    ensures forall i :: 0 <= i < |s| ==> r[i] == LowerChar(s[i])
    decreases |s|
  {
    if s == [] then [] else [LowerChar(s[0])] + Lower(s[1..])
  }

  /** Lower-casing is idempotent: a lower-cased method is its own lower case. */
  lemma LowerIdempotent(s: string)
    ensures Lower(Lower(s)) == Lower(s)
  {
  }

  // ---------------------------------------------------------------------------
  // decimal integers

  predicate IsDigit(c: char) {
    '0' <= c <= '9'
  }

  predicate AllDigits(s: string) {
    forall i :: 0 <= i < |s| ==> IsDigit(s[i])
  }

  /** What `int()` accepts once the text is stripped: digits, optionally
      after one sign. */
  predicate IsIntLiteral(t: string) {
    || (t != [] && AllDigits(t))
    || (|t| >= 2 && (t[0] == '+' || t[0] == '-') && AllDigits(t[1..]))
  }

  function DigitChar(d: nat): (c: char)
    requires d < 10
    ensures IsDigit(c)
  {
    ('0' as int + d) as char
  }

  /** Value of a non-empty run of decimal digits, most significant first. */
  function DigitsValue(s: string): nat
    requires AllDigits(s)
    decreases |s|
  {
    if s == [] then 0
    else DigitsValue(s[..|s| - 1]) * 10 + (s[|s| - 1] as int - '0' as int)
  }

  /** `str(n)` for a natural number. */
  function NatToString(n: nat): (r: string)
    ensures r != [] && AllDigits(r)
    decreases n
  {
    if n < 10 then [DigitChar(n)] else NatToString(n / 10) + [DigitChar(n % 10)]
  }

  /** `str(i)` (and `"{0}".format(i)`) for an integer. */
  function IntToString(i: int): (r: string)
    ensures r != []
  {
    if i < 0 then "-" + NatToString(-i) else NatToString(i)
  }

  lemma IntToStringNoSpace(i: int)
    ensures NoSpace(IntToString(i))
  {
    var digits := NatToString(if i < 0 then -i else i);
    assert forall k :: 0 <= k < |digits| ==> IsDigit(digits[k]);
    if i < 0 {
      assert IntToString(i) == "-" + digits;
    } else {
      assert IntToString(i) == digits;
    }
  }

  /** Python 2 `int(s)`: surrounding whitespace, an optional sign, then one or
      more decimal digits; anything else raises, modelled as `None`. */
  function ParseInt(s: string): (r: Option<int>)
    ensures AllSpace(s) ==> r.None?
    ensures r.Some? <==> IsIntLiteral(Strip(s))
    ensures r.Some? && r.value < 0 ==> Strip(s)[0] == '-'
    ensures Strip(s) != [] && AllDigits(Strip(s)) ==> r == Some(DigitsValue(Strip(s)))
    ensures IsIntLiteral(Strip(s)) && Strip(s)[0] == '+' ==> r == Some(DigitsValue(Strip(s)[1..]))
    ensures IsIntLiteral(Strip(s)) && Strip(s)[0] == '-' ==> r == Some(-(DigitsValue(Strip(s)[1..]) as int))
  {
    var t := Strip(s);
    if t != [] && (t[0] == '+' || t[0] == '-') then
      var d := t[1..];
      if d != [] && AllDigits(d) then
        var v: int := DigitsValue(d);
        Some(if t[0] == '-' then -v else v)
      else None
    else if t != [] && AllDigits(t) then Some(DigitsValue(t))
    else None
  }

  lemma {:induction false} DigitsValueOfNatToString(n: nat)
    ensures DigitsValue(NatToString(n)) == n
    decreases n
  {
    if n >= 10 {
      var s := NatToString(n);
      assert s[..|s| - 1] == NatToString(n / 10);
      DigitsValueOfNatToString(n / 10);
    }
  }

  lemma StripOfUnpadded(s: string)
    requires s != [] && !IsSpace(s[0]) && !IsSpace(s[|s| - 1])
    ensures Strip(s) == s
  {
    assert [] + s + [] == s;
    StripOfPadded([], s, []);
  }

  lemma ParseIntOfNatToString(n: nat)
    ensures ParseInt(NatToString(n)) == Some(n)
    ensures ParseInt(IntToString(n)) == Some(n)
  {
    var digits := NatToString(n);
    assert IntToString(n) == digits;
    assert IsDigit(digits[0]) && IsDigit(digits[|digits| - 1]);
    StripOfUnpadded(digits);
    assert digits[0] != '+' && digits[0] != '-';
    DigitsValueOfNatToString(n);
  }

  lemma ParseIntOfNegative(i: int)
    requires i < 0
    ensures ParseInt(IntToString(i)) == Some(i)
  {
    var digits := NatToString(-i);
    var s := "-" + digits;
    assert IntToString(i) == s;
    assert !IsSpace(digits[|digits| - 1]);
    assert s[|s| - 1] == digits[|digits| - 1];
    StripOfUnpadded(s);
    assert s[1..] == digits;
    DigitsValueOfNatToString(-i);
  }

  /** `int(str(i)) == i`: the integer printer and reader are inverse. */
  lemma ParseIntOfIntToString(i: int)
    ensures ParseInt(IntToString(i)) == Some(i)
  {
    if i < 0 {
      ParseIntOfNegative(i);
    } else {
      ParseIntOfNatToString(i);
    }
  }

  // ---------------------------------------------------------------------------
  // reading a socket file

  /** `rfile.readline()` on the remaining input `s`: everything up to and
      including the first '\n', or all of `s` when it has none; the second
      component is what remains to be read. */
  function ReadLine(s: string): (r: (string, string))
    ensures r.0 + r.1 == s
    ensures r.0 == [] ==> s == []
    ensures forall i :: 0 <= i < |r.0| - 1 ==> r.0[i] != '\n'
    ensures r.1 != [] ==> r.0[|r.0| - 1] == '\n'
  {
    match Find(s, "\n")
    case None =>
      forall i | 0 <= i < |s|
        ensures s[i] != '\n'
      {
        assert s[i..i + 1] == [s[i]];
        assert !OccursAt(s, "\n", i);
      }
      (s, [])
    case Some(i) =>
      forall j | 0 <= j < i
        ensures s[j] != '\n'
      {
        assert s[j..j + 1] == [s[j]];
        assert !OccursAt(s, "\n", j);
      }
      assert s[i..i + 1] == "\n";
      (s[..i + 1], s[i + 1..])
  }

  /** A line without '\n' followed by '\n' is read as one line. */
  lemma ReadLineOf(x: string, y: string)
    requires '\n' !in x
    ensures ReadLine(x + "\n" + y) == (x + "\n", y)
  {
    var s := x + "\n" + y;
    var r := ReadLine(s);
    assert s[|x|] == '\n';
    assert r.0 == s[..|r.0|];
    assert |r.0| == |x| + 1;
    assert s[..|x| + 1] == x + "\n";
  }

  /** A line without '\n' ended by CRLF is read as one line. */
  lemma ReadLineCRLF(x: string, y: string)
    requires '\n' !in x
    ensures ReadLine(x + "\r\n" + y) == (x + "\r\n", y)
  {
    assert '\n' !in x + "\r";
    ReadLineOf(x + "\r", y);
    assert x + "\r" + "\n" == x + "\r\n";
    assert x + "\r" + "\n" + y == x + "\r\n" + y;
  }

  /** Stripping a CRLF-ended line gives its unpadded text. */
  lemma StripCRLF(x: string)
    requires x == [] || (!IsSpace(x[0]) && !IsSpace(x[|x| - 1]))
    ensures Strip(x + "\r\n") == x
  {
    assert AllSpace("\r\n");
    assert [] + x + "\r\n" == x + "\r\n";
    StripOfPadded([], x, "\r\n");
  }
}
