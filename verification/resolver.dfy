/** `RequestResolver`: reading one HTTP/1.x request (the message syntax of
    section 3 of RFC 7230, in the simplified form the server accepts) from the
    text a client connection delivers. The socket file is modelled by the
    remaining input: `readline` is `Strings.ReadLine`, `read(n)` takes the
    next `n` characters, or all that are left. */
module Resolver {
  import opened Wrappers
  import opened Strings
  import opened QueryString
  import opened Multipart

  /** Request header map; a later header of the same name overwrites. */
  type Headers = map<string, string>

  /** Why no request was produced; each closes the connection. */
  datatype Failure =
    | PeerClosed          // the first readline returned nothing
    | BadRequestLine      // the request line is not three words
    | UnsupportedVersion  // the version is neither HTTP/1.0 nor HTTP/1.1
    | BadHeaderLine       // a header line without ": "
    | BadContentLength    // `int()` rejects the Content-Length value

  datatype RequestLine = RequestLine(verb: string, route: string, version: string)

  /** `HttpRequest` once parsed (the socket and its files are left out). */
  datatype Request = Request(
    host: string,
    port: int,
    location: string,
    route: string,
    verb: string,
    version: string,
    headers: Headers,
    arguments: Args,
    files: Files,
    keepAlive: bool)

  predicate IsSupportedVersion(v: string) {
    v == "HTTP/1.0" || v == "HTTP/1.1"
  }

  // ---------------------------------------------------------------------------
  // on_parse_request

  /** `on_parse_request`: the first line, split on whitespace, must be
      exactly three words and name a supported version. The method is stored
      lower-cased, route and version as written; the rest of the input is
      returned unread. */
  function ParseRequestLine(input: string): (r: Result<(RequestLine, string), Failure>)
    ensures r == Failure(PeerClosed) <==> input == []
    ensures r == Failure(BadRequestLine) <==> input != [] && |SplitWhitespace(ReadLine(input).0)| != 3
    ensures r.Success? ==> IsSupportedVersion(r.value.0.version)
    ensures r.Success? ==> Lower(r.value.0.verb) == r.value.0.verb
    ensures r.Success? ==> IsToken(r.value.0.route) && r.value.0.verb != []
    ensures r.Success? ==> ReadLine(input).0 + r.value.1 == input
    ensures r.Success? ==> var w := SplitWhitespace(ReadLine(input).0);
              |w| == 3 && r.value.0 == RequestLine(Lower(w[0]), w[1], w[2])
    ensures r == Failure(UnsupportedVersion) <==>
              && input != []
              && |SplitWhitespace(ReadLine(input).0)| == 3
              && !IsSupportedVersion(SplitWhitespace(ReadLine(input).0)[2])
  {
    var (line, rest) := ReadLine(input);
    if line == [] then Failure(PeerClosed)
    else
      var words := SplitWhitespace(line);
      if |words| != 3 then Failure(BadRequestLine)
      else if IsSupportedVersion(words[2]) then
        LowerIdempotent(words[0]);
        Success((RequestLine(Lower(words[0]), words[1], words[2]), rest))
      else Failure(UnsupportedVersion)
  }

  /** `METHOD ROUTE VERSION\r\n`, as a client writes it. */
  function RenderRequestLine(verb: string, route: string, version: string): string {
    verb + " " + route + " " + version + "\r\n"
  }

  /** Whitespace within one line: what `split()` skips between words. */
  predicate IsGap(s: string) {
    AllSpace(s) && '\n' !in s
  }

  lemma TokenOnOneLine(x: string)
    requires NoSpace(x)
    ensures '\n' !in x
  {
    forall i | 0 <= i < |x|
      ensures x[i] != '\n'
    {
      assert !IsSpace(x[i]);
    }
  }

  /** A request line with any whitespace around and between its three
      words is read as one line. */
  lemma SpacedLineRead(a: string, verb: string, s1: string, route: string, s2: string, version: string,
                       s3: string, rest: string)
    requires IsGap(a) && IsGap(s1) && IsGap(s2) && IsGap(s3)
    requires IsToken(verb) && IsToken(route) && IsToken(version)
    ensures var line := a + verb + s1 + route + s2 + version + s3;
            ReadLine(line + "\n" + rest) == (line + "\n", rest)
  {
    TokenOnOneLine(verb);
    TokenOnOneLine(route);
    TokenOnOneLine(version);
    ReadLineOf(a + verb + s1 + route + s2 + version + s3, rest);
  }

  lemma LastWordOfLine(s2: string, version: string, s3: string)
    requires AllSpace(s2) && s2 != [] && AllSpace(s3) && IsToken(version)
    ensures SplitWhitespace(s2 + version + (s3 + "\n")) == [version]
    ensures IsSpace((s2 + version + (s3 + "\n"))[0])
  {
    var w3 := s3 + "\n";
    assert AllSpace(w3) by {
      assert forall i :: 0 <= i < |s3| ==> w3[i] == s3[i];
    }
    SplitWhitespaceOfSpace(w3);
    SplitWhitespaceOfToken(s2, version, w3);
  }

  lemma TwoWordsOfLine(s1: string, route: string, s2: string, version: string, s3: string)
    requires AllSpace(s1) && s1 != [] && AllSpace(s2) && s2 != [] && AllSpace(s3)
    requires IsToken(route) && IsToken(version)
    ensures var t := s1 + route + (s2 + version + (s3 + "\n"));
            SplitWhitespace(t) == [route, version] && IsSpace(t[0])
  {
    var t2 := s2 + version + (s3 + "\n");
    LastWordOfLine(s2, version, s3);
    SplitWhitespaceOfToken(s1, route, t2);
    var t := s1 + route + t2;
    assert t[0] == s1[0];
  }

  /** `split()` of such a line gives exactly its three words. */
  lemma SpacedLineWords(a: string, verb: string, s1: string, route: string, s2: string, version: string,
                        s3: string)
    requires AllSpace(a) && AllSpace(s1) && s1 != [] && AllSpace(s2) && s2 != [] && AllSpace(s3)
    requires IsToken(verb) && IsToken(route) && IsToken(version)
    ensures SplitWhitespace(a + verb + s1 + route + s2 + version + s3 + "\n") == [verb, route, version]
  {
    var t1 := s1 + route + (s2 + version + (s3 + "\n"));
    TwoWordsOfLine(s1, route, s2, version, s3);
    SplitWhitespaceOfToken(a, verb, t1);
    LineRegrouped(a, verb, s1, route, s2, version, s3);
  }

  lemma LineRegrouped(a: string, verb: string, s1: string, route: string, s2: string, version: string,
                      s3: string)
    ensures a + verb + s1 + route + s2 + version + s3 + "\n"
         == a + verb + (s1 + route + (s2 + version + (s3 + "\n")))
  {
    var p := a + verb + s1 + route;
    var q := s2 + version;
    assert p + s2 + version == p + q;
    assert p + q + s3 + "\n" == p + (q + (s3 + "\n"));
    assert p == a + verb + (s1 + route);
  }

  lemma SupportedVersionIsToken(version: string)
    requires IsSupportedVersion(version)
    ensures IsToken(version)
  {
    forall i | 0 <= i < |version|
      ensures !IsSpace(version[i])
    {
    }
  }

  /** A request line whose words are separated by any runs of whitespace,
      possibly indented and padded before its line break (CR included),
      parses to its lower-cased method, route and version, and the text
      after the line is left unread. */
  lemma ParseSpacedRequestLine(a: string, verb: string, s1: string, route: string, s2: string, version: string,
                               s3: string, rest: string)
    requires IsGap(a) && IsGap(s1) && s1 != [] && IsGap(s2) && s2 != [] && IsGap(s3)
    requires IsToken(verb) && IsToken(route) && IsSupportedVersion(version)
    ensures ParseRequestLine(a + verb + s1 + route + s2 + version + s3 + "\n" + rest)
         == Success((RequestLine(Lower(verb), route, version), rest))
  {
    var line := a + verb + s1 + route + s2 + version + s3;
    SupportedVersionIsToken(version);
    SpacedLineRead(a, verb, s1, route, s2, version, s3, rest);
    SpacedLineWords(a, verb, s1, route, s2, version, s3);
    assert a + verb + s1 + route + s2 + version + s3 + "\n" + rest == line + "\n" + rest;
  }

  /** The same line naming any other version is refused. */
  lemma SpacedVersionRefused(a: string, verb: string, s1: string, route: string, s2: string, version: string,
                             s3: string, rest: string)
    requires IsGap(a) && IsGap(s1) && s1 != [] && IsGap(s2) && s2 != [] && IsGap(s3)
    requires IsToken(verb) && IsToken(route) && IsToken(version) && !IsSupportedVersion(version)
    ensures ParseRequestLine(a + verb + s1 + route + s2 + version + s3 + "\n" + rest) == Failure(UnsupportedVersion)
  {
    var line := a + verb + s1 + route + s2 + version + s3;
    SpacedLineRead(a, verb, s1, route, s2, version, s3, rest);
    SpacedLineWords(a, verb, s1, route, s2, version, s3);
    assert a + verb + s1 + route + s2 + version + s3 + "\n" + rest == line + "\n" + rest;
  }

  lemma GapTexts()
    ensures IsGap([]) && IsGap(" ") && IsGap("\r")
  {
  }

  lemma RenderedSpaced(verb: string, route: string, version: string, rest: string)
    ensures RenderRequestLine(verb, route, version) + rest
         == [] + verb + " " + route + " " + version + "\r" + "\n" + rest
  {
    assert "\r\n" == "\r" + "\n";
  }

  /** A request line written by a client parses back: the method comes back
      lower-cased, route and version as written, and the text after the line
      is left unread. */
  lemma ParseRequestLineOf(verb: string, route: string, version: string, rest: string)
    requires IsToken(verb) && IsToken(route) && IsSupportedVersion(version)
    ensures ParseRequestLine(RenderRequestLine(verb, route, version) + rest)
         == Success((RequestLine(Lower(verb), route, version), rest))
  {
    GapTexts();
    RenderedSpaced(verb, route, version, rest);
    ParseSpacedRequestLine([], verb, " ", route, " ", version, "\r", rest);
  }

  /** A request line naming any other version is refused. */
  lemma RequestLineVersionRefused(verb: string, route: string, version: string, rest: string)
    requires IsToken(verb) && IsToken(route) && IsToken(version) && !IsSupportedVersion(version)
    ensures ParseRequestLine(RenderRequestLine(verb, route, version) + rest) == Failure(UnsupportedVersion)
  {
    GapTexts();
    RenderedSpaced(verb, route, version, rest);
    SpacedVersionRefused([], verb, " ", route, " ", version, "\r", rest);
  }

  // ---------------------------------------------------------------------------
  // on_parse_headers

  /** `on_parse_headers`: lines are read and stripped until an empty one (or
      the end of the input); each must split on the first ": " into a name and
      a value, the value is stripped again and overwrites any earlier value
      of that name. A line without ": " fails the whole request. */
  function ParseHeaders(input: string, acc: Headers): (r: Result<(Headers, string), Failure>)
    ensures r.Success? ==> acc.Keys <= r.value.0.Keys && |r.value.1| <= |input|
    ensures r.Failure? ==> r.error == BadHeaderLine
    ensures input == [] ==> r == Success((acc, []))
    decreases |input|
  {
    var (raw, rest) := ReadLine(input);
    var line := Strip(raw);
    if line == [] then Success((acc, rest))
    else
      var nv := SplitOnce(line, ": ");
      if |nv| != 2 then Failure(BadHeaderLine)
      else ParseHeaders(rest, acc[nv[0] := Strip(nv[1])])
  }

  /** A header name as clients write it: a token without ':'. */
  predicate IsHeaderName(k: string) {
    IsToken(k) && ':' !in k
  }

  /** A header value that survives the round trip: non-empty, not padded with
      whitespace, on one line. */
  predicate IsHeaderValue(v: string) {
    v != [] && !IsSpace(v[0]) && !IsSpace(v[|v| - 1]) && '\n' !in v
  }

  /** The header block of a message: one `name: value` line per pair. */
  function HeaderBlock(pairs: seq<(string, string)>): string
    decreases |pairs|
  {
    if pairs == [] then [] else HeaderLine(pairs[0].0, pairs[0].1) + "\r\n" + HeaderBlock(pairs[1..])
  }

  /** `": "` cannot occur in text without whitespace. */
  lemma NoColonSpace(s: string)
    requires NoSpace(s)
    ensures !Contains(s, ": ")
  {
    forall j | 0 <= j
      ensures !OccursAt(s, ": ", j)
    {
      if j + 2 <= |s| {
        assert s[j..j + 2][1] == s[j + 1];
      }
    }
  }

  lemma FindColonSpace(k: string, v: string)
    requires NoSpace(k)
    ensures Find(HeaderLine(k, v), ": ") == Some(|k|)
  {
    var s := HeaderLine(k, v);
    assert s[|k|..|k| + 2] == ": ";
    forall j | 0 <= j < |k|
      ensures !OccursAt(s, ": ", j)
    {
      if j + 1 < |k| {
        assert s[j + 1] == k[j + 1];
      }
      assert s[j..j + 2][1] == s[j + 1];
    }
    FindFirst(s, ": ", |k|);
  }

  /** A header line is read as one line and stripped to its text. */
  lemma HeaderLineRead(k: string, v: string, rest: string)
    requires IsHeaderName(k) && IsHeaderValue(v)
    ensures ReadLine(HeaderLine(k, v) + "\r\n" + rest) == (HeaderLine(k, v) + "\r\n", rest)
    ensures Strip(HeaderLine(k, v) + "\r\n") == HeaderLine(k, v)
  {
    var line := HeaderLine(k, v);
    forall i | 0 <= i < |line|
      ensures line[i] != '\n'
    {
      if i < |k| {
        assert line[i] == k[i];
      } else if i >= |k| + 2 {
        assert line[i] == v[i - |k| - 2];
      }
    }
    ReadLineCRLF(line, rest);
    StripCRLF(line);
  }

  /** A header line splits on its first ": " into name and value. */
  lemma HeaderLineSplit(k: string, v: string)
    requires IsHeaderName(k)
    ensures SplitOnce(HeaderLine(k, v), ": ") == [k, v]
  {
    var line := HeaderLine(k, v);
    FindColonSpace(k, v);
    assert line[..|k|] == k && line[|k| + 2..] == v;
  }

  /** One well-formed header line is recorded and reading goes on after it. */
  lemma ParseHeaderLineStep(k: string, v: string, rest: string, acc: Headers)
    requires IsHeaderName(k) && IsHeaderValue(v)
    ensures ParseHeaders(HeaderLine(k, v) + "\r\n" + rest, acc) == ParseHeaders(rest, acc[k := v])
  {
    HeaderLineRead(k, v, rest);
    HeaderLineSplit(k, v);
    StripOfUnpadded(v);
  }

  /** A padded header line is read as one line, up to its '\n'. */
  lemma PaddedHeaderLineRead(a: string, k: string, p: string, v: string, q: string, rest: string)
    requires IsHeaderName(k) && IsHeaderValue(v) && IsGap(a) && IsGap(p) && IsGap(q)
    ensures ReadLine(a + k + ": " + p + v + q + "\n" + rest) == (a + k + ": " + p + v + q + "\n", rest)
  {
    var line := a + k + ": " + p + v + q;
    TokenOnOneLine(k);
    forall i | 0 <= i < |line|
      ensures line[i] != '\n'
    {
      if i < |a| {
        assert line[i] == a[i];
      } else if i < |a| + |k| {
        assert line[i] == k[i - |a|];
      } else if i < |a| + |k| + 2 {
      } else if i < |a| + |k| + 2 + |p| {
        assert line[i] == p[i - |a| - |k| - 2];
      } else if i < |a| + |k| + 2 + |p| + |v| {
        assert line[i] == v[i - |a| - |k| - 2 - |p|];
      } else {
        assert line[i] == q[i - |a| - |k| - 2 - |p| - |v|];
      }
    }
    ReadLineOf(line, rest);
  }

  lemma PaddedHeaderLineStripped(a: string, k: string, p: string, v: string, q: string)
    requires IsHeaderName(k) && IsHeaderValue(v) && IsGap(a) && IsGap(q)
    ensures Strip(a + k + ": " + p + v + q + "\n") == k + ": " + p + v
  {
    var text := k + ": " + p + v;
    var tail := q + "\n";
    assert AllSpace(tail) by {
      assert forall i :: 0 <= i < |q| ==> tail[i] == q[i];
    }
    assert text[0] == k[0];
    assert text[|text| - 1] == v[|v| - 1];
    assert a + k + ": " + p + v + q + "\n" == a + text + tail;
    StripOfPadded(a, text, tail);
  }

  /** The stripped line splits at the first ": ", and the value loses the
      gap in front of it. */
  lemma PaddedHeaderLineSplit(k: string, p: string, v: string)
    requires IsHeaderName(k) && IsHeaderValue(v) && IsGap(p)
    ensures SplitOnce(k + ": " + p + v, ": ") == [k, p + v]
    ensures Strip(p + v) == v
  {
    assert k + ": " + p + v == HeaderLine(k, p + v);
    HeaderLineSplit(k, p + v);
    assert p + v + [] == p + v;
    StripOfPadded(p, v, []);
  }

  /** Whitespace around a header line and around its value is dropped: the
      whole line is stripped, and then the text after the first ": " is
      stripped again. The gap after the value may hold the '\r' of a CRLF
      line end. */
  lemma ParsePaddedHeaderLine(a: string, k: string, p: string, v: string, q: string, rest: string, acc: Headers)
    requires IsHeaderName(k) && IsHeaderValue(v) && IsGap(a) && IsGap(p) && IsGap(q)
    ensures ParseHeaders(a + k + ": " + p + v + q + "\n" + rest, acc) == ParseHeaders(rest, acc[k := v])
  {
    PaddedHeaderLineRead(a, k, p, v, q, rest);
    PaddedHeaderLineStripped(a, k, p, v, q);
    PaddedHeaderLineSplit(k, p, v);
  }

  lemma ParseBlankLine(rest: string, acc: Headers)
    ensures ParseHeaders("\r\n" + rest, acc) == Success((acc, rest))
  {
    assert [] + "\r\n" + rest == "\r\n" + rest;
    assert [] + "\r\n" == "\r\n";
    ReadLineCRLF([], rest);
    StripCRLF([]);
  }

  /** A header block written by a client, followed by the blank line, parses
      back to the dictionary its pairs build, and the body after it is left
      unread. */
  lemma {:induction false} ParseHeaderBlock(pairs: seq<(string, string)>, body: string, acc: Headers)
    requires forall i :: 0 <= i < |pairs| ==> IsHeaderName(pairs[i].0) && IsHeaderValue(pairs[i].1)
    ensures ParseHeaders(HeaderBlock(pairs) + "\r\n" + body, acc) == Success((ApplyHeaders(acc, pairs), body))
    decreases |pairs|
  {
    if pairs == [] {
      assert HeaderBlock(pairs) + "\r\n" + body == "\r\n" + body;
      ParseBlankLine(body, acc);
    } else {
      ParseHeaderBlockStep(pairs, body, acc);
      ParseHeaderBlock(pairs[1..], body, acc[pairs[0].0 := pairs[0].1]);
    }
  }

  lemma ParseHeaderBlockStep(pairs: seq<(string, string)>, body: string, acc: Headers)
    requires pairs != [] && IsHeaderName(pairs[0].0) && IsHeaderValue(pairs[0].1)
    ensures ParseHeaders(HeaderBlock(pairs) + "\r\n" + body, acc)
         == ParseHeaders(HeaderBlock(pairs[1..]) + "\r\n" + body, acc[pairs[0].0 := pairs[0].1])
  {
    HeaderBlockCons(pairs, body);
    ParseHeaderLineStep(pairs[0].0, pairs[0].1, HeaderBlock(pairs[1..]) + "\r\n" + body, acc);
  }

  lemma HeaderBlockCons(pairs: seq<(string, string)>, body: string)
    requires pairs != []
    ensures HeaderBlock(pairs) + "\r\n" + body
         == HeaderLine(pairs[0].0, pairs[0].1) + "\r\n" + (HeaderBlock(pairs[1..]) + "\r\n" + body)
  {
  }

  /** The last value of a repeated header wins; names never written keep
      the value they had. */
  lemma {:induction false} ApplyHeadersLookup(acc: Headers, pairs: seq<(string, string)>, k: string)
    ensures k in ApplyHeaders(acc, pairs) <==> k in acc || exists i :: 0 <= i < |pairs| && pairs[i].0 == k
    ensures (forall i :: 0 <= i < |pairs| ==> pairs[i].0 != k) && k in acc ==> ApplyHeaders(acc, pairs)[k] == acc[k]
    ensures forall i :: 0 <= i < |pairs| && pairs[i].0 == k && (forall j :: i < j < |pairs| ==> pairs[j].0 != k)
              ==> ApplyHeaders(acc, pairs)[k] == pairs[i].1
    decreases |pairs|
  {
    if pairs != [] {
      var acc' := acc[pairs[0].0 := pairs[0].1];
      ApplyHeadersLookup(acc', pairs[1..], k);
      if k in ApplyHeaders(acc, pairs) && k !in acc {
        if k == pairs[0].0 {
          assert pairs[0].0 == k;
        } else {
          var i :| 0 <= i < |pairs[1..]| && pairs[1..][i].0 == k;
          assert pairs[i + 1].0 == k;
        }
      }
      if exists i :: 0 <= i < |pairs| && pairs[i].0 == k {
        var i :| 0 <= i < |pairs| && pairs[i].0 == k;
        if i > 0 {
          assert pairs[1..][i - 1].0 == k;
        }
      }
      forall i | 0 <= i < |pairs| && pairs[i].0 == k && (forall j :: i < j < |pairs| ==> pairs[j].0 != k)
        ensures ApplyHeaders(acc, pairs)[k] == pairs[i].1
      {
        if i > 0 {
          assert pairs[1..][i - 1] == pairs[i];
          assert forall j :: i - 1 < j < |pairs[1..]| ==> pairs[1..][j].0 != k by {
            forall j | i - 1 < j < |pairs[1..]|
              ensures pairs[1..][j].0 != k
            {
              assert pairs[1..][j] == pairs[j + 1];
            }
          }
        } else {
          assert forall j :: 0 <= j < |pairs[1..]| ==> pairs[1..][j].0 != k by {
            forall j | 0 <= j < |pairs[1..]|
              ensures pairs[1..][j].0 != k
            {
              assert pairs[1..][j] == pairs[j + 1];
            }
          }
        }
      }
    }
  }

  /** Because the line is stripped before it is split on ": ", a header
      whose value is empty fails the whole request. */
  lemma EmptyHeaderValueRefused(k: string, rest: string, acc: Headers)
    requires IsHeaderName(k)
    ensures ParseHeaders(k + ": \r\n" + rest, acc) == Failure(BadHeaderLine)
  {
    var line := k + ": ";
    assert '\n' !in line by {
      assert forall i :: 0 <= i < |k| ==> k[i] != '\n';
    }
    ReadLineCRLF(line, rest);
    assert k + ": \r\n" + rest == line + "\r\n" + rest;
    assert line + "\r\n" == [] + (k + ":") + " \r\n";
    StripOfPadded([], k + ":", " \r\n");
    NoColonSpace(k + ":");
  }

  /** Any header line whose stripped text is not empty and holds no ": "
      fails the whole request. */
  lemma HeaderLineWithoutColonSpaceRefused(x: string, rest: string, acc: Headers)
    requires '\n' !in x && Strip(x) != [] && !Contains(Strip(x), ": ")
    ensures ParseHeaders(x + "\n" + rest, acc) == Failure(BadHeaderLine)
  {
    ReadLineOf(x, rest);
    StripNewline(x);
  }

  // ---------------------------------------------------------------------------
  // the body

  /** `int(headers.get("Content-Length", "0"))`, then `read(n)` when `n > 0`
      and nothing otherwise. A value `int()` rejects fails the request. */
  function ReadBody(headers: Headers, rest: string): (r: Result<string, Failure>)
    ensures r.Failure? <==> ParseInt(Get(headers, "Content-Length", "0")).None?
    ensures r.Failure? ==> r.error == BadContentLength
    ensures r.Success? ==> r.value <= rest
    ensures "Content-Length" !in headers ==> r == Success([])
    ensures (ParseInt(Get(headers, "Content-Length", "0")).Some?
             && ParseInt(Get(headers, "Content-Length", "0")).value <= 0) ==> r == Success([])
  {
    ParseZero();
    match ParseInt(Get(headers, "Content-Length", "0"))
    case None => Failure(BadContentLength)
    case Some(n) =>
      if n > 0 then Success(rest[..if n <= |rest| then n else |rest|]) else Success([])
  }

  lemma ParseZero()
    ensures ParseInt("0") == Some(0)
  {
    ParseIntOfIntToString(0);
  }

  /** A Content-Length giving the length of the body reads exactly the body,
      whatever follows it. */
  lemma ReadBodyOfLength(headers: Headers, body: string, more: string)
    requires "Content-Length" in headers && headers["Content-Length"] == NatToString(|body|)
    ensures ReadBody(headers, body + more) == Success(body)
  {
    ParseIntOfIntToString(|body|);
    assert IntToString(|body|) == NatToString(|body|);
    assert (body + more)[..|body|] == body;
  }

  // ---------------------------------------------------------------------------
  // on_parse_arguments

  /** The location and the request's arguments and files once the route and
      the body are decoded. */
  datatype Decoded = Decoded(location: string, arguments: Args, files: Files)

  /** The route split at its first '?': only a '?' after the first character
      separates a query, which is parsed as a query string. */
  function SplitRoute(route: string): (r: (string, Args))
    ensures r.0 <= route
    ensures r.0 == route || (r.0 != [] && '?' !in r.0 && route[|r.0|] == '?')
    ensures r.0 == route ==> r.1 == map[]
  {
    match Find(route, "?")
    case Some(i) =>
      if i > 0 then
        NoOccurrenceBeforeFirst(route, "?", i);
        assert route[i..i + 1] == "?";
        assert '?' !in route[..i] by {
          forall j | 0 <= j < i
            ensures route[..i][j] != '?'
          {
            assert !OccursAt(route, "?", j);
            assert route[j..j + 1] == [route[j]];
          }
        }
        (route[..i], ParseQs(route[i + 1..]))
      else (route, map[])
    case None => (route, map[])
  }

  /** What the body adds, chosen by the Content-Type: the query-string
      arguments of a urlencoded body; the fields and files of a multipart body
      split on the boundary named after the last `boundary=`; nothing for an
      empty Content-Type, a multipart type without `boundary=`, or any other
      type. */
  function BodyArguments(contentType: string, body: string): (r: (Args, Files))
    ensures (!Contains(contentType, "application/x-www-form-urlencoded") && !Contains(contentType, "multipart/form-data"))
              ==> r == (map[], map[])
    ensures r.1 != map[] ==> Contains(contentType, "multipart/form-data")
    ensures r.1 != map[] ==> !Contains(contentType, "application/x-www-form-urlencoded")
  {
    if contentType == [] then (map[], map[])
    else if Contains(contentType, "application/x-www-form-urlencoded") then (ParseQs(body), map[])
    else if Contains(contentType, "multipart/form-data") then
      match RFind(contentType, "boundary=")
      case None => (map[], map[])
      case Some(b) => ParseMultipartFormData(body, contentType[b + 9..])
    else (map[], map[])
  }

  /** `on_parse_arguments`: the location and query arguments come from the
      route; the body's arguments are merged over them with dict `update`,
      so a body name replaces a same-named query name; the files are the
      body's. */
  function ParseArguments(route: string, headers: Headers, body: string): (r: Decoded)
    ensures r.location == SplitRoute(route).0
    ensures r.files == BodyArguments(Get(headers, "Content-Type", ""), body).1
    ensures "Content-Type" !in headers ==> r.arguments == SplitRoute(route).1 && r.files == map[]
    ensures var f, q := BodyArguments(Get(headers, "Content-Type", ""), body).0, SplitRoute(route).1;
            forall n :: n in r.arguments <==> n in f || n in q
    ensures var f := BodyArguments(Get(headers, "Content-Type", ""), body).0;
            forall n :: n in f ==> r.arguments[n] == f[n]
    ensures var f, q := BodyArguments(Get(headers, "Content-Type", ""), body).0, SplitRoute(route).1;
            forall n :: n !in f && n in q ==> r.arguments[n] == q[n]
  {
    var (location, query) := SplitRoute(route);
    var (fields, files) := BodyArguments(Get(headers, "Content-Type", ""), body);
    assert "Content-Type" !in headers ==> query + fields == query;
    Decoded(location, query + fields, files)
  }

  /** A path followed by an encoded query gives the path as location and the
      query's pairs, grouped by name, as arguments. */
  lemma SplitRouteOfQuery(path: string, pairs: seq<(string, string)>)
    requires path != [] && '?' !in path && |pairs| >= 1
    requires forall k :: 0 <= k < |pairs| ==> IsBytes(pairs[k].0) && IsBytes(pairs[k].1) && pairs[k].1 != []
    ensures SplitRoute(path + "?" + EncodeQuery(pairs)) == (path, Group(pairs))
  {
    SplitRouteAt(path, EncodeQuery(pairs));
    ParseQslOfEncodeQuery(pairs);
  }

  /** The first '?' after a non-empty path separates the query. */
  lemma SplitRouteAt(path: string, q: string)
    requires path != [] && '?' !in path
    ensures SplitRoute(path + "?" + q) == (path, ParseQs(q))
  {
    var route := path + "?" + q;
    FindCharAfter(path, '?', q);
    assert route[..|path|] == path && route[|path| + 1..] == q;
  }

  /** A route that starts with '?' is all location and has no arguments. */
  lemma SplitRouteLeadingQuestionMark(q: string)
    ensures SplitRoute("?" + q) == ("?" + q, map[])
  {
    assert ("?" + q)[0..1] == "?";
    FindFirst("?" + q, "?", 0);
  }

  /** The urlencoded body's names replace the query's, and the query's other
      names stay. */
  lemma UrlencodedBodyReplacesQuery(route: string, headers: Headers, body: string, name: string)
    requires Contains(Get(headers, "Content-Type", ""), "application/x-www-form-urlencoded")
    ensures ParseArguments(route, headers, body).files == map[]
    ensures name in ParseArguments(route, headers, body).arguments <==> name in ParseQs(body) || name in SplitRoute(route).1
    ensures name in ParseQs(body) ==> ParseArguments(route, headers, body).arguments[name] == ParseQs(body)[name]
    ensures (name !in ParseQs(body) && name in SplitRoute(route).1)
              ==> ParseArguments(route, headers, body).arguments[name] == SplitRoute(route).1[name]
  {
    assert BodyArguments(Get(headers, "Content-Type", ""), body) == (ParseQs(body), map[]);
  }

  /** A Content-Type naming neither form encoding (`text/plain`, say) adds
      nothing: the arguments are the query's and there are no files. */
  lemma OtherContentTypeKeepsQuery(route: string, headers: Headers, body: string)
    requires !Contains(Get(headers, "Content-Type", ""), "application/x-www-form-urlencoded")
    requires !Contains(Get(headers, "Content-Type", ""), "multipart/form-data")
    ensures ParseArguments(route, headers, body).arguments == SplitRoute(route).1
    ensures ParseArguments(route, headers, body).files == map[]
  {
    var a := ParseArguments(route, headers, body).arguments;
    assert a.Keys == SplitRoute(route).1.Keys;
  }

  /** A multipart Content-Type without `boundary=` adds no argument and no
      file. */
  lemma MultipartWithoutBoundary(contentType: string, body: string)
    requires Contains(contentType, "multipart/form-data")
    requires !Contains(contentType, "application/x-www-form-urlencoded")
    requires RFind(contentType, "boundary=").None?
    ensures BodyArguments(contentType, body) == (map[], map[])
  {
  }

  /** A multipart body contributes exactly what the multipart parser finds
      for the boundary named after the last `boundary=`. */
  lemma MultipartArguments(contentType: string, body: string, b: nat)
    requires Contains(contentType, "multipart/form-data")
    requires !Contains(contentType, "application/x-www-form-urlencoded")
    requires RFind(contentType, "boundary=") == Some(b)
    ensures BodyArguments(contentType, body) == ParseMultipartFormData(body, contentType[b + 9..])
  {
  }

  // ---------------------------------------------------------------------------
  // on_request_parser

  /** `Connection` lower-cased equals `keep-alive`; absent means `close`. */
  function KeepAlive(headers: Headers): (b: bool)
    ensures "Connection" !in headers ==> !b
    ensures "Connection" in headers ==> (b <==> Lower(headers["Connection"]) == "keep-alive")
  {
    var close := "close";
    assert Lower(close)[0] == 'c';
    Lower(Get(headers, "Connection", close)) == "keep-alive"
  }

  /** Whether the connection is kept alive does not depend on the case of
      the Connection value. */
  lemma KeepAliveIgnoresCase(headers: Headers, v: string)
    ensures KeepAlive(headers["Connection" := v]) == KeepAlive(headers["Connection" := Lower(v)])
  {
    LowerIdempotent(v);
  }

  /** Only the Connection header decides keep-alive. */
  lemma KeepAliveOnlyConnection(headers: Headers, name: string, v: string)
    requires name != "Connection"
    ensures KeepAlive(headers[name := v]) == KeepAlive(headers)
  {
  }

  /** `on_request_parser`: request line, headers, body, arguments and the
      keep-alive flag, in that order; the first failure ends the parse. */
  function ParseRequest(host: string, port: int, input: string): (r: Result<Request, Failure>)
    ensures input == [] ==> r == Failure(PeerClosed)
    ensures r.Success? ==> IsSupportedVersion(r.value.version) && Lower(r.value.verb) == r.value.verb
    ensures r.Success? ==> r.value.location <= r.value.route
    ensures r.Success? ==> (r.value.keepAlive <==> "Connection" in r.value.headers && Lower(r.value.headers["Connection"]) == "keep-alive")
    ensures ParseRequestLine(input).Failure? ==> r == Failure(ParseRequestLine(input).error)
    ensures ParseRequestLine(input).Success? ==>
              var h := ParseHeaders(ParseRequestLine(input).value.1, map[]);
              h.Failure? ==> r == Failure(h.error)
    ensures ParseRequestLine(input).Success? ==>
              var h := ParseHeaders(ParseRequestLine(input).value.1, map[]);
              h.Success? ==>
                var b := ReadBody(h.value.0, h.value.1);
                && (b.Failure? ==> r == Failure(b.error))
                && (b.Success? ==> r.Success? && r.value.headers == h.value.0)
  {
    match ParseRequestLine(input)
    case Failure(e) => Failure(e)
    case Success((line, rest)) =>
      match ParseHeaders(rest, map[])
      case Failure(e) => Failure(e)
      case Success((headers, rest')) =>
        match ReadBody(headers, rest')
        case Failure(e) => Failure(e)
        case Success(body) =>
          var d := ParseArguments(line.route, headers, body);
          Success(Request(host, port, d.location, line.route, line.verb, line.version,
                          headers, d.arguments, d.files, KeepAlive(headers)))
  }

  /** A whole request as a client writes it. */
  function RenderRequest(verb: string, route: string, version: string,
                         headers: seq<(string, string)>, body: string): string {
    RenderRequestLine(verb, route, version) + (HeaderBlock(headers) + "\r\n" + body)
  }

  predicate WellFormedHeaders(headers: seq<(string, string)>) {
    forall i :: 0 <= i < |headers| ==> IsHeaderName(headers[i].0) && IsHeaderValue(headers[i].1)
  }

  /** The request states its body's length in Content-Length, or has no
      Content-Length and no body. */
  predicate LengthStated(h: Headers, body: string) {
    if "Content-Length" in h then h["Content-Length"] == NatToString(|body|) else body == []
  }

  /** A request written by a client, whose Content-Length states the length
      of its body (or that has neither), parses back: the method lower-cased, route and version as
      written, the headers as the dictionary they build, the body decoded
      into location, arguments and files, and the keep-alive flag from the
      Connection header. */
  lemma ParseRequestOf(host: string, port: int, verb: string, route: string, version: string,
                       headers: seq<(string, string)>, body: string)
    requires IsToken(verb) && IsToken(route) && IsSupportedVersion(version)
    requires WellFormedHeaders(headers)
    requires LengthStated(ApplyHeaders(map[], headers), body)
    ensures var h := ApplyHeaders(map[], headers);
            var d := ParseArguments(route, h, body);
            (ParseRequest(host, port, RenderRequest(verb, route, version, headers, body))
             == Success(Request(host, port, d.location, route, Lower(verb), version, h, d.arguments, d.files, KeepAlive(h))))
  {
    RenderedRequestLine(verb, route, version, headers, body);
    RenderedHeadersAndBody(headers, body);
  }

  /** The request-line stage accepts the line of a rendered request. */
  lemma RenderedRequestLine(verb: string, route: string, version: string,
                            headers: seq<(string, string)>, body: string)
    requires IsToken(verb) && IsToken(route) && IsSupportedVersion(version)
    ensures ParseRequestLine(RenderRequest(verb, route, version, headers, body))
            == Success((RequestLine(Lower(verb), route, version), HeaderBlock(headers) + "\r\n" + body))
  {
    ParseRequestLineOf(verb, route, version, HeaderBlock(headers) + "\r\n" + body);
  }

  /** The header and body stages accept the rest of a rendered request. */
  lemma RenderedHeadersAndBody(headers: seq<(string, string)>, body: string)
    requires WellFormedHeaders(headers)
    requires LengthStated(ApplyHeaders(map[], headers), body)
    ensures ParseHeaders(HeaderBlock(headers) + "\r\n" + body, map[]) == Success((ApplyHeaders(map[], headers), body))
    ensures ReadBody(ApplyHeaders(map[], headers), body) == Success(body)
  {
    ParseHeaderBlock(headers, body, map[]);
    if "Content-Length" in ApplyHeaders(map[], headers) {
      ReadBodyExact(ApplyHeaders(map[], headers), body);
    }
  }

  lemma ReadBodyExact(headers: Headers, body: string)
    requires "Content-Length" in headers && headers["Content-Length"] == NatToString(|body|)
    ensures ReadBody(headers, body) == Success(body)
  {
    assert body + [] == body;
    ReadBodyOfLength(headers, body, []);
  }

  lemma RouteIsToken(path: string, q: string)
    requires IsToken(path) && NoSpace(q)
    ensures IsToken(path + "?" + q)
  {
    var route := path + "?" + q;
    forall i | 0 <= i < |route|
      ensures !IsSpace(route[i])
    {
      if i < |path| {
        assert route[i] == path[i];
      } else if i > |path| {
        assert route[i] == q[i - |path| - 1];
      }
    }
  }

  /** A GET request for a path with an encoded query, no body and any
      headers but Content-Length and Content-Type: the location is the path,
      the arguments are the query's pairs grouped by name, and keep-alive
      follows the Connection header. */
  lemma ParseGetWithQuery(host: string, port: int, path: string, pairs: seq<(string, string)>, version: string,
                          headers: seq<(string, string)>)
    requires IsToken(path) && '?' !in path && IsSupportedVersion(version) && |pairs| >= 1
    requires forall k :: 0 <= k < |pairs| ==> IsBytes(pairs[k].0) && IsBytes(pairs[k].1) && pairs[k].1 != []
    requires WellFormedHeaders(headers)
    requires "Content-Length" !in ApplyHeaders(map[], headers) && "Content-Type" !in ApplyHeaders(map[], headers)
    ensures var route := path + "?" + EncodeQuery(pairs);
            var h := ApplyHeaders(map[], headers);
            var r := ParseRequest(host, port, RenderRequest("GET", route, version, headers, []));
            (r.Success? && r.value.verb == "get" && r.value.location == path && r.value.headers == h
             && r.value.arguments == Group(pairs) && r.value.files == map[] && r.value.keepAlive == KeepAlive(h))
  {
    var route := path + "?" + EncodeQuery(pairs);
    RouteIsToken(path, EncodeQuery(pairs));
    LowerGet();
    ParseRequestOf(host, port, "GET", route, version, headers, []);
    DecodedOfQuery(path, pairs, ApplyHeaders(map[], headers));
  }

  lemma DecodedOfQuery(path: string, pairs: seq<(string, string)>, headers: Headers)
    requires path != [] && '?' !in path && |pairs| >= 1
    requires forall k :: 0 <= k < |pairs| ==> IsBytes(pairs[k].0) && IsBytes(pairs[k].1) && pairs[k].1 != []
    requires "Content-Type" !in headers
    ensures ParseArguments(path + "?" + EncodeQuery(pairs), headers, []) == Decoded(path, Group(pairs), map[])
  {
    SplitRouteOfQuery(path, pairs);
  }

  lemma LowerGet()
    ensures IsToken("GET") && Lower("GET") == "get"
  {
    forall i | 0 <= i < 3
      ensures !IsSpace("GET"[i])
    {
    }
    assert Lower("GET")[0] == 'g' && Lower("GET")[1] == 'e' && Lower("GET")[2] == 't';
  }
}
