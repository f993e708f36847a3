/** The response side of `RequestHandler` in `SimpleHttpServer.py`: the
    status, the header dictionary and the body buffer a handler accumulates,
    the default headers `flush` adds, and the bytes `write_header` and
    `flush` send. The socket's write file is replaced by the string that
    would be written to it. */
module Handler {
  import opened Wrappers
  import opened Strings
  import opened Multipart
  import opened Resolver

  /** A handler's response state: `code`, `message`, `headers` and the body
      buffer `raw_data`. */
  datatype Response = Response(code: int, message: string, headers: Headers, body: string)

  /** The state `RequestHandler.__init__` sets up: 200 OK, no headers, an
      empty buffer. */
  const Initial: Response := Response(200, "OK", map[], [])

  /** One call a verb method makes on its handler. An empty `body` in
      `CallWriteError` stands for the omitted (or empty) argument, which the
      source treats alike. */
  datatype Action =
    | CallWrite(data: string)
    | CallSetHeader(name: string, value: string)
    | CallWriteError(code: int, message: string, body: string)

  // ---------------------------------------------------------------------------
  // building a response

  /** `write(body)`: appends to the buffer and changes nothing else. */
  function Write(r: Response, data: string): (r': Response)
    ensures r'.body == r.body + data && r.body <= r'.body
    ensures r'.code == r.code && r'.message == r.message && r'.headers == r.headers
  {
    r.(body := r.body + data)
  }

  /** `set_header(k, v)`: a later value for the same name replaces the
      earlier one. */
  function SetHeader(r: Response, name: string, value: string): (r': Response)
    ensures r'.headers.Keys == r.headers.Keys + {name} && r'.headers[name] == value
    ensures forall k :: k in r.headers && k != name ==> r'.headers[k] == r.headers[k]
    ensures r'.code == r.code && r'.message == r.message && r'.body == r.body
  {
    r.(headers := r.headers[name := value])
  }

  /** The page `write_error` writes when it is given no body. */
  function ErrorPage(code: int, message: string): string {
    "<html><h2>" + IntToString(code) + "</h2><h3>" + message + "</h3></html>"
  }

  /** `write_error(code, message, body)`: sets the status and appends the
      given body, or the error page when the body is empty. */
  function WriteError(r: Response, code: int, message: string, body: string): (r': Response)
    ensures r'.code == code && r'.message == message && r'.headers == r.headers
    ensures body != [] ==> r'.body == r.body + body
    ensures body == [] ==> r'.body == r.body + ErrorPage(code, message)
  {
    Write(r.(code := code, message := message), if body != [] then body else ErrorPage(code, message))
  }

  /** Where the two inner pieces of `a + x + b + y + c` sit. */
  lemma Framed(a: string, x: string, b: string, y: string, c: string)
    ensures var s := a + x + b + y + c;
            && s[|a|..|a| + |x|] == x
            && s[|a| + |x| + |b|..|a| + |x| + |b| + |y|] == y
  {
  }

  /** The error page shows the code, readable back as a number, and the
      message. */
  lemma ErrorPageShows(code: int, message: string)
    ensures var page := ErrorPage(code, message);
            var n := |IntToString(code)|;
            && 19 + n + |message| <= |page|
            && ParseInt(page[10..10 + n]) == Some(code)
            && page[19 + n..19 + n + |message|] == message
  {
    var open, mid, close := "<html><h2>", "</h2><h3>", "</h3></html>";
    var page, digits := ErrorPage(code, message), IntToString(code);
    var n := |digits|;
    assert |open| == 10 && |mid| == 9;
    assert page == open + digits + mid + message + close;
    Framed(open, digits, mid, message, close);
    assert page[10..10 + n] == digits;
    ParseIntOfIntToString(code);
    assert ParseInt(digits) == Some(code);
  }

  function Perform(r: Response, a: Action): (r': Response)
    ensures r.body <= r'.body && r.headers.Keys <= r'.headers.Keys
  {
    match a
    case CallWrite(data) => Write(r, data)
    case CallSetHeader(name, value) => SetHeader(r, name, value)
    case CallWriteError(code, message, body) => WriteError(r, code, message, body)
  }

  /** The handler after a verb method made the given calls, in order. */
  function Run(r: Response, actions: seq<Action>): (r': Response)
    ensures r.body <= r'.body
    ensures r.headers.Keys <= r'.headers.Keys
    ensures actions == [] ==> r' == r
    decreases |actions|
  {
    if actions == [] then r else Run(Perform(r, actions[0]), actions[1..])
  }

  /** Reference definition: the text one call adds to the buffer. */
  function Appended(a: Action): string {
    match a
    case CallWrite(data) => data
    case CallSetHeader(_, _) => []
    case CallWriteError(code, message, body) => if body != [] then body else ErrorPage(code, message)
  }

  /** Reference definition: everything the calls write, concatenated. */
  function Written(actions: seq<Action>): string
    decreases |actions|
  {
    if actions == [] then [] else Appended(actions[0]) + Written(actions[1..])
  }

  /** Reference definition: the header assignments among the calls. */
  function HeaderCalls(actions: seq<Action>): seq<(string, string)>
    decreases |actions|
  {
    if actions == [] then []
    else
      (if actions[0].CallSetHeader? then [(actions[0].name, actions[0].value)] else [])
      + HeaderCalls(actions[1..])
  }

  /** The body only ever grows: after the calls it is the earlier buffer
      followed by everything they wrote, in order. */
  lemma {:induction false} RunBody(r: Response, actions: seq<Action>)
    ensures Run(r, actions).body == r.body + Written(actions)
    decreases |actions|
  {
    if actions != [] {
      RunBody(Perform(r, actions[0]), actions[1..]);
    }
  }

  lemma ApplyHeadersPrefix(acc: Headers, p: seq<(string, string)>, rest: seq<(string, string)>)
    requires |p| <= 1
    ensures ApplyHeaders(acc, p + rest) == ApplyHeaders(ApplyHeaders(acc, p), rest)
  {
    if p != [] {
      assert (p + rest)[0] == p[0];
      assert (p + rest)[1..] == rest;
      assert p[1..] == [];
      assert ApplyHeaders(acc, p) == acc[p[0].0 := p[0].1];
    } else {
      assert p + rest == rest;
    }
  }

  /** The header dictionary after the calls is the earlier dictionary with
      the calls' `set_header` assignments applied in order, the last value
      for a name winning. */
  lemma {:induction false} RunHeaders(r: Response, actions: seq<Action>)
    ensures Run(r, actions).headers == ApplyHeaders(r.headers, HeaderCalls(actions))
    decreases |actions|
  {
    if actions != [] {
      var a := actions[0];
      var p := if a.CallSetHeader? then [(a.name, a.value)] else [];
      RunHeaders(Perform(r, a), actions[1..]);
      ApplyHeadersPrefix(r.headers, p, HeaderCalls(actions[1..]));
      assert ApplyHeaders(r.headers, p) == Perform(r, a).headers;
    }
  }

  /** Calls without `write_error` keep the status. */
  lemma {:induction false} RunStatus(r: Response, actions: seq<Action>)
    requires forall k :: 0 <= k < |actions| ==> !actions[k].CallWriteError?
    ensures Run(r, actions).code == r.code && Run(r, actions).message == r.message
    decreases |actions|
  {
    if actions != [] {
      RunStatus(Perform(r, actions[0]), actions[1..]);
    }
  }

  /** The status a handler ends with is the one its last `write_error` set. */
  lemma {:induction false} RunLastWriteError(r: Response, actions: seq<Action>, i: nat)
    requires i < |actions| && actions[i].CallWriteError?
    requires forall k :: i < k < |actions| ==> !actions[k].CallWriteError?
    ensures Run(r, actions).code == actions[i].code
    ensures Run(r, actions).message == actions[i].message
    decreases |actions|
  {
    var tail := actions[1..];
    if i == 0 {
      assert forall k :: 0 <= k < |tail| ==> !tail[k].CallWriteError? by {
        forall k | 0 <= k < |tail|
          ensures !tail[k].CallWriteError?
        {
          assert tail[k] == actions[k + 1];
        }
      }
      RunStatus(Perform(r, actions[0]), tail);
    } else {
      assert forall k :: i - 1 < k < |tail| ==> !tail[k].CallWriteError? by {
        forall k | i - 1 < k < |tail|
          ensures !tail[k].CallWriteError?
        {
          assert tail[k] == actions[k + 1];
        }
      }
      assert tail[i - 1] == actions[i];
      RunLastWriteError(Perform(r, actions[0]), tail, i - 1);
    }
  }

  // ---------------------------------------------------------------------------
  // flush

  /** `flush()` on the dictionary: `Content-Length` becomes the buffer length
      and `Content-Type` becomes `text/html`, each only when absent. */
  function Flush(r: Response): (r': Response)
    ensures r'.code == r.code && r'.message == r.message && r'.body == r.body
    ensures r'.headers.Keys == r.headers.Keys + {"Content-Length", "Content-Type"}
    ensures forall k :: k in r.headers ==> r'.headers[k] == r.headers[k]
    ensures "Content-Length" !in r.headers ==> r'.headers["Content-Length"] == NatToString(|r.body|)
    ensures "Content-Type" !in r.headers ==> r'.headers["Content-Type"] == "text/html"
  {
    var h := if "Content-Length" in r.headers then r.headers
             else r.headers["Content-Length" := NatToString(|r.body|)];
    var h' := if "Content-Type" in h then h else h["Content-Type" := "text/html"];
    r.(headers := h')
  }

  /** A second flush adds nothing. */
  lemma FlushIdempotent(r: Response)
    ensures Flush(Flush(r)) == Flush(r)
  {
    assert Flush(Flush(r)).headers == Flush(r).headers;
  }

  /** A defaulted `Content-Length` states the length of the body sent. */
  lemma FlushContentLength(r: Response)
    requires "Content-Length" !in r.headers
    ensures ParseInt(Flush(r).headers["Content-Length"]) == Some(|Flush(r).body|)
  {
    ParseIntOfNatToString(|r.body|);
  }

  // ---------------------------------------------------------------------------
  // serialisation

  /** `"HTTP/1.1 {0} {1}\r\n".format(code, message)`. */
  function StatusLine(code: int, message: string): string {
    "HTTP/1.1 " + IntToString(code) + " " + message + "\r\n"
  }

  /** The pairs `headers.items()` yields, in the order `order` lists the
      names; names absent from the dictionary are passed over. The
      dictionary's own iteration order is outside the model. */
  function Items(h: Headers, order: seq<string>): (items: seq<(string, string)>)
    ensures forall i :: 0 <= i < |items| ==> items[i].0 in h && items[i].1 == h[items[i].0]
    ensures forall i :: 0 <= i < |items| ==> items[i].0 in order
    decreases |order|
  {
    if order == [] then []
    else (if order[0] in h then [(order[0], h[order[0]])] else []) + Items(h, order[1..])
  }

  /** `order` stands for the iteration order of a dictionary: it names each
      of the dictionary's keys, and names none twice. */
  predicate Enumerates(order: seq<string>, h: Headers) {
    && (forall k :: k in h ==> k in order)
    && (forall i, j :: 0 <= i < j < |order| ==> order[i] != order[j])
  }

  /** The items name no header twice. */
  lemma {:induction false} ItemsDistinct(h: Headers, order: seq<string>)
    requires forall i, j :: 0 <= i < j < |order| ==> order[i] != order[j]
    ensures forall i, j :: 0 <= i < j < |Items(h, order)| ==> Items(h, order)[i].0 != Items(h, order)[j].0
    decreases |order|
  {
    if order != [] {
      var tail := order[1..];
      ItemsDistinct(h, tail);
      var rest := Items(h, tail);
      forall i | 0 <= i < |rest|
        ensures rest[i].0 != order[0]
      {
        var m :| 0 <= m < |tail| && tail[m] == rest[i].0;
        assert order[m + 1] == rest[i].0;
      }
      var head := if order[0] in h then [(order[0], h[order[0]])] else [];
      var items := Items(h, order);
      assert items == head + rest;
      forall i, j | 0 <= i < j < |items|
        ensures items[i].0 != items[j].0
      {
        if i >= |head| {
          assert items[i] == rest[i - |head|] && items[j] == rest[j - |head|];
          assert rest[i - |head|].0 != rest[j - |head|].0;
        } else {
          assert items[i].0 == order[0];
          assert items[j] == rest[j - 1];
        }
      }
    }
  }

  /** The items hold every header the order names, with its value. */
  lemma {:induction false} ItemsCover(h: Headers, order: seq<string>, k: string) returns (i: nat)
    requires k in h && k in order
    ensures i < |Items(h, order)| && Items(h, order)[i] == (k, h[k])
    decreases |order|
  {
    if order[0] == k {
      i := 0;
    } else {
      var tail := order[1..];
      var m :| 0 <= m < |order| && order[m] == k;
      assert tail[m - 1] == k;
      var j := ItemsCover(h, tail, k);
      var head := if order[0] in h then [(order[0], h[order[0]])] else [];
      i := |head| + j;
      assert Items(h, order) == head + Items(h, tail);
    }
  }

  /** For a dictionary the order enumerates, the items list each header
      exactly once, with its value. */
  lemma ItemsExactlyOnce(h: Headers, order: seq<string>)
    requires Enumerates(order, h)
    ensures var items := Items(h, order);
            && (forall k :: k in h ==> exists i :: 0 <= i < |items| && items[i] == (k, h[k]))
            && (forall i, j :: 0 <= i < j < |items| ==> items[i].0 != items[j].0)
  {
    ItemsDistinct(h, order);
    var items := Items(h, order);
    forall k | k in h
      ensures exists i :: 0 <= i < |items| && items[i] == (k, h[k])
    {
      var i := ItemsCover(h, order, k);
      assert 0 <= i < |items| && items[i] == (k, h[k]);
    }
  }

  /** `write_header(code, message)`: the status line, one `name: value` line
      per header, a blank line. */
  function WriteHeader(r: Response, order: seq<string>): (out: string)
    requires Enumerates(order, r.headers)
    ensures StatusLine(r.code, r.message) <= out
    ensures |out| >= |StatusLine(r.code, r.message)| + 2 && out[|out| - 2..] == "\r\n"
  {
    StatusLine(r.code, r.message) + (HeaderBlock(Items(r.headers, order)) + "\r\n")
  }

  /** The header block holds the line of each of its pairs. */
  lemma {:induction false} HeaderBlockHasLine(pairs: seq<(string, string)>, i: nat) returns (j: nat)
    requires i < |pairs|
    ensures OccursAt(HeaderBlock(pairs), HeaderLine(pairs[i].0, pairs[i].1) + "\r\n", j)
    decreases |pairs|
  {
    var first := HeaderLine(pairs[0].0, pairs[0].1) + "\r\n";
    var rest := HeaderBlock(pairs[1..]);
    assert HeaderBlock(pairs) == first + rest;
    if i == 0 {
      j := 0;
      assert HeaderBlock(pairs)[..|first|] == first;
    } else {
      var j' := HeaderBlockHasLine(pairs[1..], i - 1);
      j := |first| + j';
      var line := HeaderLine(pairs[i].0, pairs[i].1) + "\r\n";
      assert (first + rest)[j..j + |line|] == rest[j'..j' + |line|];
    }
  }

  /** The head `write_header` sends holds a `name: value` line for every
      header of the response. */
  lemma WriteHeaderListsEveryHeader(r: Response, order: seq<string>, k: string)
    requires Enumerates(order, r.headers)
    requires k in r.headers
    ensures Contains(WriteHeader(r, order), HeaderLine(k, r.headers[k]) + "\r\n")
  {
    var items := Items(r.headers, order);
    var i := ItemsCover(r.headers, order, k);
    var j := HeaderBlockHasLine(items, i);
    var status := StatusLine(r.code, r.message);
    var block := HeaderBlock(items);
    var line := HeaderLine(k, r.headers[k]) + "\r\n";
    var out := WriteHeader(r, order);
    assert out == status + (block + "\r\n");
    assert out[|status| + j..|status| + j + |line|] == block[j..j + |line|];
    assert OccursAt(out, line, |status| + j);
  }

  /** What `flush()` sends: the head of the flushed response, then the body. */
  function FlushOutput(r: Response, order: seq<string>): (out: string)
    requires Enumerates(order, Flush(r).headers)
    ensures StatusLine(r.code, r.message) <= out
    ensures |out| >= |StatusLine(r.code, r.message)| + 2 + |r.body|
    ensures out[|out| - |r.body|..] == r.body
    ensures out[|out| - |r.body| - 2..|out| - |r.body|] == "\r\n"
  {
    var f := Flush(r);
    var head := WriteHeader(f, order);
    assert (head + f.body)[..|head|] == head;
    head + f.body
  }

  /** Applying the items of a dictionary on top of a partial copy of it
      rebuilds it, as long as the order names every key the copy lacks. */
  lemma {:induction false} ApplyItems(acc: Headers, h: Headers, order: seq<string>)
    requires forall k :: k in acc ==> k in h && acc[k] == h[k]
    requires forall k :: k in h && k !in acc ==> k in order
    ensures ApplyHeaders(acc, Items(h, order)) == h
    decreases |order|
  {
    if order == [] {
      assert acc.Keys == h.Keys;
    } else {
      var p := if order[0] in h then [(order[0], h[order[0]])] else [];
      ApplyHeadersPrefix(acc, p, Items(h, order[1..]));
      ApplyItems(ApplyHeaders(acc, p), h, order[1..]);
    }
  }

  /** A response whose parts a client can read back: header names are tokens
      without ':', values are non-empty, unpadded and on one line, and the
      message holds no line break. */
  predicate Readable(r: Response) {
    && '\n' !in r.message
    && forall k :: k in r.headers ==> IsHeaderName(k) && IsHeaderValue(r.headers[k])
  }

  /** The defaults `flush` adds are readable header texts. */
  lemma DefaultHeaderTexts(n: nat)
    ensures IsHeaderName("Content-Length") && IsHeaderName("Content-Type")
    ensures IsHeaderValue("text/html") && IsHeaderValue(NatToString(n))
  {
    var digits := NatToString(n);
    assert IsDigit(digits[0]) && IsDigit(digits[|digits| - 1]);
  }

  lemma FlushReadable(r: Response)
    requires Readable(r)
    ensures Readable(Flush(r))
  {
    DefaultHeaderTexts(|r.body|);
  }

  /** How a client reads a response: the status line up to its CRLF, cut at
      its first two spaces into version, code and message; then the header
      lines up to the blank line; the rest is the body. */
  function ReadResponse(out: string): Option<Response> {
    var (line, rest) := ReadLine(out);
    if |line| < 2 || line[|line| - 2..] != "\r\n" then None
    else
      var fields := SplitOnce(line[..|line| - 2], " ");
      if |fields| != 2 || fields[0] != "HTTP/1.1" then None
      else
        var status := SplitOnce(fields[1], " ");
        if |status| != 2 then None
        else
          match ParseInt(status[0])
          case None => None
          case Some(code) =>
            match ParseHeaders(rest, map[])
            case Failure(_) => None
            case Success((h, body)) => Some(Response(code, status[1], h, body))
  }

  lemma StatusLineFields(code: int, message: string)
    ensures var fields := SplitOnce("HTTP/1.1" + " " + (IntToString(code) + " " + message), " ");
            fields == ["HTTP/1.1", IntToString(code) + " " + message]
    ensures SplitOnce(IntToString(code) + " " + message, " ") == [IntToString(code), message]
  {
    IntToStringNoSpace(code);
    assert ' ' !in IntToString(code);
    SplitOnceAt(IntToString(code), ' ', message);
    assert ' ' !in "HTTP/1.1";
    SplitOnceAt("HTTP/1.1", ' ', IntToString(code) + " " + message);
  }

  lemma ReadStatusLine(code: int, message: string, rest: string)
    requires '\n' !in message
    ensures var (line, rest') := ReadLine(StatusLine(code, message) + rest);
            && line == StatusLine(code, message) && rest' == rest
            && line[..|line| - 2] == "HTTP/1.1" + " " + (IntToString(code) + " " + message)
  {
    var digits := IntToString(code);
    var x := "HTTP/1.1" + " " + (digits + " " + message);
    IntToStringNoSpace(code);
    assert '\n' !in x by {
      forall k | 0 <= k < |x| ensures x[k] != '\n' {
        if 9 <= k < 9 + |digits| {
          assert x[k] == digits[k - 9];
        }
      }
    }
    assert StatusLine(code, message) == x + "\r\n";
    assert StatusLine(code, message) + rest == x + "\r\n" + rest;
    ReadLineCRLF(x, rest);
  }

  /** A status line the server wrote, followed by a header block the
      parser accepts, reads back as that status, those headers and the rest. */
  lemma ReadResponseOf(code: int, message: string, rest: string, h: Headers, body: string)
    requires '\n' !in message
    requires ParseHeaders(rest, map[]) == Success((h, body))
    ensures ReadResponse(StatusLine(code, message) + rest) == Some(Response(code, message, h, body))
  {
    ReadStatusLine(code, message, rest);
    StatusLineFields(code, message);
    ParseIntOfIntToString(code);
  }

  /** What `flush` sends reads back as the flushed response: its code and
      message, every header it holds (the defaults included) and the body,
      provided the order lists every header name. */
  lemma ReadFlushOutput(r: Response, order: seq<string>)
    requires Readable(r)
    requires Enumerates(order, Flush(r).headers)
    ensures ReadResponse(FlushOutput(r, order)) == Some(Flush(r))
  {
    var f := Flush(r);
    var items := Items(f.headers, order);
    var after := HeaderBlock(items) + "\r\n" + f.body;
    FlushReadable(r);
    assert FlushOutput(r, order) == StatusLine(f.code, f.message) + after;
    ParseHeaderBlock(items, f.body, map[]);
    ApplyItems(map[], f.headers, order);
    ReadResponseOf(f.code, f.message, after, f.headers, f.body);
  }
}
