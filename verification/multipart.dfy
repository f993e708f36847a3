/** `RequestResolver.parse_multipart_formdata`: a simplified reading of the
    multipart/form-data encoding of RFC 7578, with delimiters as in section
    5.1.1 of RFC 2046. Part parameters keep their quotes; only the boundary
    parameter is unquoted. */
module Multipart {
  import opened Wrappers
  import opened Strings
  import opened QueryString

  /** `HTTPFile`: an uploaded file, held in memory. */
  datatype HttpFile = HttpFile(filename: string, body: string, mimeType: string)

  /** File map: each field name to its uploaded files in order of appearance. */
  type Files = map<string, seq<HttpFile>>

  /** What one accepted part contributes. */
  datatype Part = Field(name: string, value: string) | Upload(name: string, file: HttpFile)

  /** The disposition token and the `name=value` attributes of a
      `Content-Disposition` header. */
  datatype Disposition = Disposition(kind: string, params: map<string, string>)

  const DefaultMimeType := "application/unknown"

  /** Surrounding double quotes are removed from the boundary parameter
      (a lone `"` becomes empty, as Python's `b[1:-1]` does). */
  function UnquoteBoundary(b: string): (r: string)
    ensures |b| >= 2 && b[0] == '"' && b[|b| - 1] == '"' ==> "\"" + r + "\"" == b
    ensures (b == [] || b[0] != '"' || b[|b| - 1] != '"') ==> r == b
    ensures b == "\"" ==> r == []
  {
    if b != [] && b[0] == '"' && b[|b| - 1] == '"' then
      (if |b| >= 2 then b[1..|b| - 1] else [])
    else b
  }

  lemma UnquoteBoundaryQuoted(x: string)
    ensures UnquoteBoundary("\"" + x + "\"") == x
  {
    var b := "\"" + x + "\"";
    assert b[1..|b| - 1] == x;
  }

  lemma UnquoteBoundaryBare(x: string)
    requires x == [] || x[0] != '"'
    ensures UnquoteBoundary(x) == x
  {
  }

  /** The part header lines, in order; a line counts only when splitting it
      on ':' gives exactly two pieces, and a later header of the same name
      overwrites an earlier one. */
  function PartHeaderLines(lines: seq<string>, acc: map<string, string>): (r: map<string, string>)
    ensures acc.Keys <= r.Keys
    decreases |lines|
  {
    if lines == [] then acc
    else PartHeaderLines(lines[1..], PartHeaderLine(lines[0], acc))
  }

  /** One part header line: recorded only when splitting it on ':' gives
      exactly two pieces. */
  function PartHeaderLine(line: string, acc: map<string, string>): map<string, string> {
    var kv := Split(line, ":");
    if |kv| == 2 then acc[Strip(kv[0]) := Strip(kv[1])] else acc
  }

  function PartHeaders(block: string): map<string, string> {
    PartHeaderLines(Split(block, "\r\n"), map[])
  }

  /** The `;`-separated attributes of `Content-Disposition`, left to right:
      an attribute without '=' replaces the disposition token (unstripped);
      otherwise the text before the first '=' and the text between the first
      and the second '=' are stripped and recorded. */
  function DispositionAttrs(attrs: seq<string>, d: Disposition): (r: Disposition)
    ensures d.params.Keys <= r.params.Keys
    ensures (forall i :: 0 <= i < |attrs| ==> Contains(attrs[i], "=")) ==> r.kind == d.kind
    ensures r.kind != d.kind ==> !Contains(r.kind, "=")
    decreases |attrs|
  {
    if attrs == [] then d
    else DispositionAttrs(attrs[1..], DispositionAttr(attrs[0], d))
  }

  /** One attribute: without '=' it becomes the token, as written; otherwise
      it records its stripped name and value. */
  function DispositionAttr(a: string, d: Disposition): (d': Disposition)
    ensures !Contains(a, "=") ==> d' == d.(kind := a)
    ensures Contains(a, "=") ==> d'.kind == d.kind && d.params.Keys <= d'.params.Keys
  {
    if !Contains(a, "=") then d.(kind := a)
    else
      var av := Split(a, "=");
      d.(params := d.params[Strip(av[0]) := Strip(av[1])])
  }

  /** The token is the last attribute without '=', unstripped. */
  lemma {:induction false} DispositionKindIsLast(attrs: seq<string>, d: Disposition, i: nat)
    requires i < |attrs| && !Contains(attrs[i], "=")
    requires forall j :: i < j < |attrs| ==> Contains(attrs[j], "=")
    ensures DispositionAttrs(attrs, d).kind == attrs[i]
    decreases |attrs|
  {
    var tail := attrs[1..];
    var d' := DispositionAttr(attrs[0], d);
    assert DispositionAttrs(attrs, d) == DispositionAttrs(tail, d');
    assert forall j :: i <= j < |tail| ==> Contains(tail[j], "=") by {
      forall j | i <= j < |tail|
        ensures Contains(tail[j], "=")
      {
        assert tail[j] == attrs[j + 1];
      }
    }
    if i == 0 {
      assert d'.kind == attrs[0];
    } else {
      DispositionKindIsLast(tail, d', i - 1);
    }
  }

  /** The disposition token is the last attribute without '=', or empty. */
  function ParseDisposition(header: string): (r: Disposition)
    ensures r.kind != [] ==> !Contains(r.kind, "=")
  {
    DispositionAttrs(Split(header, ";"), Disposition("", map[]))
  }

  /** Python's `part[lo:hi]` for `0 <= lo <= |part|` and `0 <= hi`. */
  function Slice(part: string, lo: nat, hi: nat): (r: string)
    requires lo <= |part|
    ensures lo < hi <= |part| ==> r == part[lo..hi]
    ensures lo < hi && |part| < hi ==> r == part[lo..]
    ensures hi <= lo ==> r == []
  {
    if lo < hi then part[lo..if hi <= |part| then hi else |part|] else []
  }

  /** A part once its header block is parsed and its value cut out: it is
      skipped (`None`) when the disposition token is not `form-data` or the
      `name` is missing or empty, and it is a file exactly when it has a
      non-empty `filename`, whose MIME type defaults to `application/unknown`. */
  function PartOf(headers: map<string, string>, value: string): (r: Option<Part>)
    ensures var d := ParseDisposition(Get(headers, "Content-Disposition", ""));
            r.Some? <==> d.kind == "form-data" && Get(d.params, "name", "") != []
    ensures var d := ParseDisposition(Get(headers, "Content-Disposition", ""));
            r.Some? ==> "name" in d.params && r.value.name == d.params["name"]
    ensures var d := ParseDisposition(Get(headers, "Content-Disposition", ""));
            r.Some? ==> (r.value.Upload? <==> Get(d.params, "filename", "") != [])
    ensures r.Some? && r.value.Field? ==> r.value.value == value
    ensures var d := ParseDisposition(Get(headers, "Content-Disposition", ""));
            r.Some? && r.value.Upload? ==>
              "filename" in d.params && r.value.file.filename == d.params["filename"] && r.value.file.body == value
    ensures r.Some? && r.value.Upload? ==>
              r.value.file.mimeType == (if "Content-Type" in headers then headers["Content-Type"] else DefaultMimeType)
    ensures r.Some? ==> r.value.name != []
    ensures r.Some? && r.value.Upload? ==> r.value.file.filename != []
  {
    var d := ParseDisposition(Get(headers, "Content-Disposition", ""));
    if d.kind != "form-data" then None
    else
      var name := Get(d.params, "name", "");
      if name == [] then None
      else
        var filename := Get(d.params, "filename", "");
        if filename != [] then
          Some(Upload(name, HttpFile(filename, value, Get(headers, "Content-Type", DefaultMimeType))))
        else Some(Field(name, value))
  }

  /** One part between delimiters. It is skipped (`None`) when it is empty
      or has no blank line; otherwise its headers are the lines before the
      first blank line and its value is the text after it without the final
      two characters. */
  function ParsePart(part: string): (r: Option<Part>)
    ensures part == [] ==> r == None
    ensures Find(part, "\r\n\r\n").None? ==> r == None
    ensures r.Some? ==> r.value.name != []
    ensures r.Some? && r.value.Upload? ==> r.value.file.filename != []
  {
    if part == [] then None
    else
      match Find(part, "\r\n\r\n")
      case None => None
      case Some(eoh) => PartOf(PartHeaders(part[..eoh]), Slice(part, eoh + 4, |part| - 2))
  }

  /** The loop over the parts: each accepted part appends to the argument
      map or to the file map under its name. */
  function CollectParts(parts: seq<string>): (r: (Args, Files))
    ensures forall n :: n in r.0 ==> r.0[n] != []
    ensures forall n :: n in r.1 ==> r.1[n] != []
    decreases |parts|
  {
    if parts == [] then (map[], map[])
    else
      var (args, files) := CollectParts(parts[..|parts| - 1]);
      match ParsePart(parts[|parts| - 1])
      case None => (args, files)
      case Some(Field(n, v)) => (AddValue(args, n, v), files)
      case Some(Upload(n, f)) => (args, AddValue(files, n, f))
  }

  /** `parse_multipart_formdata(body, boundary)`. Without the closing
      delimiter `--boundary--` both maps are empty; otherwise the body before
      the last closing delimiter is split on `--boundary\r\n` and the pieces
      are parsed as parts. */
  function ParseMultipartFormData(body: string, boundaryParam: string): (r: (Args, Files))
    ensures !Contains(body, "--" + UnquoteBoundary(boundaryParam) + "--") ==> r == (map[], map[])
    ensures forall n :: n in r.0 ==> n != []
    ensures forall n :: n in r.1 ==> n != []
  {
    var boundary := UnquoteBoundary(boundaryParam);
    match RFind(body, "--" + boundary + "--")
    case None => (map[], map[])
    case Some(fin) =>
      var parts := Split(body[..fin], "--" + boundary + "\r\n");
      CollectPartsNames(parts);
      CollectParts(parts)
  }

  lemma {:induction false} CollectPartsNames(parts: seq<string>)
    ensures forall n :: n in CollectParts(parts).0 ==> n != []
    ensures forall n :: n in CollectParts(parts).1 ==> n != []
    decreases |parts|
  {
    if parts != [] {
      CollectPartsNames(parts[..|parts| - 1]);
    }
  }

  // ---------------------------------------------------------------------------
  // reference definitions: the accepted fields and files, in order

  function AcceptedFields(parts: seq<string>): seq<(string, string)>
    decreases |parts|
  {
    if parts == [] then []
    else
      var init := AcceptedFields(parts[..|parts| - 1]);
      match ParsePart(parts[|parts| - 1])
      case Some(Field(n, v)) => init + [(n, v)]
      case _ => init
  }

  function AcceptedUploads(parts: seq<string>): seq<(string, HttpFile)>
    decreases |parts|
  {
    if parts == [] then []
    else
      var init := AcceptedUploads(parts[..|parts| - 1]);
      match ParsePart(parts[|parts| - 1])
      case Some(Upload(n, f)) => init + [(n, f)]
      case _ => init
  }

  lemma GroupSnoc<V>(pairs: seq<(string, V)>, p: (string, V))
    ensures Group(pairs + [p]) == AddValue(Group(pairs), p.0, p.1)
  {
    assert (pairs + [p])[..|pairs|] == pairs;
  }

  /** The single pass that fills both maps is the grouping of the accepted
      fields and of the accepted files, each in order of appearance. */
  lemma {:induction false} CollectPartsIsGrouping(parts: seq<string>)
    ensures CollectParts(parts) == (Group(AcceptedFields(parts)), Group(AcceptedUploads(parts)))
    decreases |parts|
  {
    if parts != [] {
      var init := parts[..|parts| - 1];
      CollectPartsIsGrouping(init);
      match ParsePart(parts[|parts| - 1])
      case None =>
      case Some(Field(n, v)) => GroupSnoc(AcceptedFields(init), (n, v));
      case Some(Upload(n, f)) => GroupSnoc(AcceptedUploads(init), (n, f));
    }
  }

  /** For every name, the argument map holds exactly the values of the
      accepted non-file parts of that name, in order, and the file map
      exactly the files of that name, in order. */
  lemma CollectPartsValues(parts: seq<string>, name: string)
    ensures name in CollectParts(parts).0 <==> ValuesOf(AcceptedFields(parts), name) != []
    ensures name in CollectParts(parts).0 ==> CollectParts(parts).0[name] == ValuesOf(AcceptedFields(parts), name)
    ensures name in CollectParts(parts).1 <==> ValuesOf(AcceptedUploads(parts), name) != []
    ensures name in CollectParts(parts).1 ==> CollectParts(parts).1[name] == ValuesOf(AcceptedUploads(parts), name)
  {
    CollectPartsIsGrouping(parts);
    GroupValues(AcceptedFields(parts), name);
    GroupValues(AcceptedUploads(parts), name);
  }

  // ---------------------------------------------------------------------------
  // rendered parts parse back

  /** Text usable as a part header value in the rendered form: non-empty,
      not padded with whitespace, without ':' and without line breaks. */
  predicate IsHeaderText(s: string) {
    && s != [] && !IsSpace(s[0]) && !IsSpace(s[|s| - 1])
    && ':' !in s && '\r' !in s && '\n' !in s
  }

  /** Text usable as a disposition parameter: header text that also avoids
      the ';' and '=' the disposition parser splits on. */
  predicate IsParamText(s: string) {
    IsHeaderText(s) && ';' !in s && '=' !in s
  }

  /** `key: value`. */
  function HeaderLine(key: string, v: string): string {
    key + ": " + v
  }

  /** Reference definition: the dictionary built by assigning the pairs in
      order, a later pair overwriting an earlier one. */
  function ApplyHeaders(acc: map<string, string>, pairs: seq<(string, string)>): map<string, string>
    decreases |pairs|
  {
    if pairs == [] then acc else ApplyHeaders(acc[pairs[0].0 := pairs[0].1], pairs[1..])
  }

  /** One `key: value` line per pair. */
  function HeaderLines(pairs: seq<(string, string)>): (lines: seq<string>)
    ensures |lines| == |pairs|
    ensures forall i :: 0 <= i < |pairs| ==> lines[i] == HeaderLine(pairs[i].0, pairs[i].1)
    decreases |pairs|
  {
    if pairs == [] then [] else [HeaderLine(pairs[0].0, pairs[0].1)] + HeaderLines(pairs[1..])
  }

  /** ` key=value`, a disposition attribute after its ';'. */
  function Attr(key: string, v: string): string {
    " " + key + "=" + v
  }

  /** `form-data; name=NAME`. */
  function FieldDisposition(name: string): string {
    Join(["form-data", Attr("name", name)], ";")
  }

  /** `form-data; name=NAME; filename=FILENAME`. */
  function UploadDisposition(name: string, filename: string): string {
    Join(["form-data", Attr("name", name), Attr("filename", filename)], ";")
  }

  /** A part with header block `block` and content `value` (the delimiter
      before it excluded, the line break before the next one included). */
  function RenderPart(block: string, value: string): string {
    block + "\r\n\r\n" + value + "\r\n"
  }

  /** A form field part as a browser sends it. */
  function FieldPart(name: string, value: string): string {
    RenderPart(HeaderLine("Content-Disposition", FieldDisposition(name)), value)
  }

  /** A file part as a browser sends it. */
  function UploadPart(name: string, filename: string, mime: string, body: string): string {
    RenderPart(HeaderLine("Content-Disposition", UploadDisposition(name, filename))
                 + "\r\n" + HeaderLine("Content-Type", mime), body)
  }

  lemma AttrText(key: string, v: string)
    requires IsParamText(key) && IsParamText(v)
    ensures ';' !in Attr(key, v) && ':' !in Attr(key, v) && '\r' !in Attr(key, v)
    ensures Attr(key, v)[|Attr(key, v)| - 1] == v[|v| - 1]
  {
  }

  /** Two pieces joined by ';' form header text when the first does not
      start and the second does not end with whitespace. */
  lemma SemicolonText(a: string, b: string)
    requires a != [] && !IsSpace(a[0]) && ':' !in a && '\r' !in a && '\n' !in a
    requires b != [] && !IsSpace(b[|b| - 1]) && ':' !in b && '\r' !in b && '\n' !in b
    ensures IsHeaderText(a + ";" + b)
  {
    var s := a + ";" + b;
    assert s[0] == a[0] && s[|s| - 1] == b[|b| - 1];
  }

  /** The fixed words of the rendered disposition are valid texts. */
  lemma KeywordTexts()
    ensures IsParamText("name") && IsParamText("filename")
    ensures !IsSpace("form-data"[0]) && ':' !in "form-data" && '\r' !in "form-data" && '\n' !in "form-data"
  {
  }

  lemma DispositionTexts(name: string, filename: string)
    requires IsParamText(name) && IsParamText(filename)
    ensures IsHeaderText(FieldDisposition(name))
    ensures IsHeaderText(UploadDisposition(name, filename))
  {
    var a1 := Attr("name", name);
    var a2 := Attr("filename", filename);
    KeywordTexts();
    AttrText("name", name);
    AttrText("filename", filename);
    JoinPair("form-data", a1, ";");
    SemicolonText("form-data", a1);
    JoinTriple("form-data", a1, a2, ";");
    SemicolonText("form-data", a1 + ";" + a2);
  }

  /** An attribute ` key=value` is recorded as `key` to `value`. */
  lemma AttrOf(key: string, v: string)
    requires IsParamText(key) && IsParamText(v)
    ensures Contains(Attr(key, v), "=")
    ensures Split(Attr(key, v), "=") == [" " + key, v]
    ensures Strip(" " + key) == key && Strip(v) == v
  {
    assert [" " + key, v][1..] == [v];
    assert Join([" " + key, v], "=") == Attr(key, v);
    assert '=' !in " " + key;
    SplitOfJoin([" " + key, v], '=');
    StripOfSpaced(key);
    StripOfUnpadded(v);
  }

  lemma StripOfSpaced(v: string)
    requires v != [] && !IsSpace(v[0]) && !IsSpace(v[|v| - 1])
    ensures Strip(" " + v) == v
  {
    assert " " + v == " " + v + [];
    StripOfPadded(" ", v, []);
  }

  lemma FormDataToken()
    ensures !Contains("form-data", "=")
  {
    assert '=' !in "form-data";
    FindCharAbsent("form-data", '=');
  }

  /** The disposition token step of `DispositionAttrs`. */
  lemma TokenStep(d: Disposition, rest: seq<string>)
    ensures DispositionAttrs(["form-data"] + rest, d) == DispositionAttrs(rest, d.(kind := "form-data"))
  {
    FormDataToken();
    assert (["form-data"] + rest)[1..] == rest;
  }

  /** One attribute step of `DispositionAttrs`. */
  lemma AttrStep(key: string, v: string, d: Disposition, rest: seq<string>)
    requires IsParamText(key) && IsParamText(v)
    ensures DispositionAttrs([Attr(key, v)] + rest, d)
         == DispositionAttrs(rest, d.(params := d.params[key := v]))
  {
    AttrOf(key, v);
    assert ([Attr(key, v)] + rest)[1..] == rest;
  }

  lemma DispositionOfField(name: string)
    requires IsParamText(name)
    ensures ParseDisposition(FieldDisposition(name)) == Disposition("form-data", map["name" := name])
  {
    var a1 := Attr("name", name);
    KeywordTexts();
    AttrText("name", name);
    SplitOfJoin(["form-data", a1], ';');
    assert ["form-data", a1] == ["form-data"] + ([a1] + []);
    TokenStep(Disposition("", map[]), [a1] + []);
    AttrStep("name", name, Disposition("form-data", map[]), []);
  }

  lemma DispositionOfUpload(name: string, filename: string)
    requires IsParamText(name) && IsParamText(filename)
    ensures ParseDisposition(UploadDisposition(name, filename))
         == Disposition("form-data", map["name" := name, "filename" := filename])
  {
    var a1 := Attr("name", name);
    var a2 := Attr("filename", filename);
    KeywordTexts();
    AttrText("name", name);
    AttrText("filename", filename);
    SplitOfJoin(["form-data", a1, a2], ';');
    assert ["form-data", a1, a2] == ["form-data"] + ([a1] + ([a2] + []));
    TokenStep(Disposition("", map[]), [a1] + ([a2] + []));
    AttrStep("name", name, Disposition("form-data", map[]), [a2] + []);
    AttrStep("filename", filename, Disposition("form-data", map["name" := name]), []);
  }

  /** A header line `Key: value` is split into `Key` and `value`. */
  lemma HeaderLineOf(key: string, v: string)
    requires IsHeaderText(key) && IsHeaderText(v)
    ensures Split(HeaderLine(key, v), ":") == [key, " " + v]
    ensures Strip(key) == key && Strip(" " + v) == v
  {
    assert [key, " " + v][1..] == [" " + v];
    assert HeaderLine(key, v) == Join([key, " " + v], ":");
    assert ':' !in " " + v;
    SplitOfJoin([key, " " + v], ':');
    StripOfUnpadded(key);
    StripOfSpaced(v);
  }

  /** One well-formed header line of a part records its key and value. */
  lemma PartHeaderLineStep(key: string, v: string, acc: map<string, string>, rest: seq<string>)
    requires IsHeaderText(key) && IsHeaderText(v)
    ensures PartHeaderLines([HeaderLine(key, v)] + rest, acc) == PartHeaderLines(rest, acc[key := v])
  {
    var line := HeaderLine(key, v);
    var lines := [line] + rest;
    assert lines[0] == line && lines[1..] == rest;
    assert PartHeaderLines(lines, acc) == PartHeaderLines(rest, PartHeaderLine(line, acc));
    HeaderLineOf(key, v);
  }

  /** Any number of well-formed part header lines are recorded in order, a
      later line overwriting an earlier one with the same key. */
  lemma {:induction false} PartHeaderLinesOf(pairs: seq<(string, string)>, acc: map<string, string>)
    requires forall i :: 0 <= i < |pairs| ==> IsHeaderText(pairs[i].0) && IsHeaderText(pairs[i].1)
    ensures PartHeaderLines(HeaderLines(pairs), acc) == ApplyHeaders(acc, pairs)
    decreases |pairs|
  {
    if pairs != [] {
      var lines := HeaderLines(pairs);
      assert lines == [HeaderLine(pairs[0].0, pairs[0].1)] + HeaderLines(pairs[1..]);
      PartHeaderLineStep(pairs[0].0, pairs[0].1, acc, HeaderLines(pairs[1..]));
      PartHeaderLinesOf(pairs[1..], acc[pairs[0].0 := pairs[0].1]);
    }
  }

  /** A part's header block of well-formed `key: value` lines, separated by
      CRLF, gives the dictionary its lines build. */
  lemma PartHeadersOf(pairs: seq<(string, string)>)
    requires |pairs| >= 1
    requires forall i :: 0 <= i < |pairs| ==> IsHeaderText(pairs[i].0) && IsHeaderText(pairs[i].1)
    ensures PartHeaders(Join(HeaderLines(pairs), "\r\n")) == ApplyHeaders(map[], pairs)
  {
    var lines := HeaderLines(pairs);
    forall k | 0 <= k < |lines|
      ensures '\r' !in lines[k]
    {
      assert lines[k] == HeaderLine(pairs[k].0, pairs[k].1);
    }
    SplitOfJoinHeadFree(lines, "\r\n");
    PartHeaderLinesOf(pairs, map[]);
  }

  /** A part header line that does not split on ':' into exactly two pieces
      is passed over. */
  lemma IgnoredHeaderLine(line: string, acc: map<string, string>, rest: seq<string>)
    requires |Split(line, ":")| != 2
    ensures PartHeaderLines([line] + rest, acc) == PartHeaderLines(rest, acc)
  {
    assert ([line] + rest)[0] == line && ([line] + rest)[1..] == rest;
  }

  /** In particular a part header whose value holds a ':' is dropped. */
  lemma ColonInValueIgnored(key: string, v1: string, v2: string, acc: map<string, string>, rest: seq<string>)
    requires ':' !in key && ':' !in v1 && ':' !in v2
    ensures PartHeaderLines([HeaderLine(key, v1 + ":" + v2)] + rest, acc) == PartHeaderLines(rest, acc)
  {
    var line := HeaderLine(key, v1 + ":" + v2);
    JoinTriple(key, " " + v1, v2, ":");
    assert line == Join([key, " " + v1, v2], ":");
    assert ':' !in " " + v1;
    SplitOfJoin([key, " " + v1, v2], ':');
    IgnoredHeaderLine(line, acc, rest);
  }

  lemma SingleHeader(key: string, v: string)
    requires IsHeaderText(key) && IsHeaderText(v)
    ensures PartHeaders(HeaderLine(key, v)) == map[key := v]
  {
    var line := HeaderLine(key, v);
    assert '\r' !in line;
    FindAbsentHead(line, "\r\n");
    assert Split(line, "\r\n") == [line] + [];
    PartHeaderLineStep(key, v, map[], []);
  }

  lemma TwoHeaders(k1: string, v1: string, k2: string, v2: string)
    requires IsHeaderText(k1) && IsHeaderText(v1) && IsHeaderText(k2) && IsHeaderText(v2)
    ensures PartHeaders(HeaderLine(k1, v1) + "\r\n" + HeaderLine(k2, v2)) == map[k1 := v1][k2 := v2]
  {
    var line1 := HeaderLine(k1, v1);
    var line2 := HeaderLine(k2, v2);
    var block := line1 + "\r\n" + line2;
    assert '\r' !in line1 && '\r' !in line2;
    FindAfterHeadFree(line1, "\r\n", line2);
    assert block[..|line1|] == line1 && block[|line1| + 2..] == line2;
    FindAbsentHead(line2, "\r\n");
    assert Split(block, "\r\n") == [line1] + ([line2] + []);
    PartHeaderLineStep(k1, v1, map[], [line2] + []);
    PartHeaderLineStep(k2, v2, map[k1 := v1], []);
  }

  /** When the blank line after the header block is the first one, the part
      is decided by its headers and its content. */
  lemma ParsePartOfBlock(block: string, value: string)
    requires Find(RenderPart(block, value), "\r\n\r\n") == Some(|block|)
    ensures ParsePart(RenderPart(block, value)) == PartOf(PartHeaders(block), value)
  {
    var part := RenderPart(block, value);
    assert part[..|block|] == block;
    if value != [] {
      assert part[|block| + 4..|block| + 4 + |value|] == value;
    }
  }

  lemma BlankLineAfterLine(line: string, value: string)
    requires '\r' !in line
    ensures Find(RenderPart(line, value), "\r\n\r\n") == Some(|line|)
  {
    assert RenderPart(line, value) == line + "\r\n\r\n" + (value + "\r\n");
    FindAfterHeadFree(line, "\r\n\r\n", value + "\r\n");
  }

  /** The blank line `\r\n\r\n` cannot start where the first or third
      character is not `\r`. */
  lemma NoBlankLineAt(s: string, j: nat)
    requires j + 2 < |s| && (s[j] != '\r' || s[j + 2] != '\r')
    ensures !OccursAt(s, "\r\n\r\n", j)
  {
    if j + 4 <= |s| {
      assert s[j..j + 4][0] == s[j] && s[j..j + 4][2] == s[j + 2];
    }
  }

  lemma BlankLineAfterTwoLines(line1: string, line2: string, body: string)
    requires '\r' !in line1 && '\r' !in line2 && line2 != [] && line2[0] != '\r'
    ensures Find(RenderPart(line1 + "\r\n" + line2, body), "\r\n\r\n") == Some(|line1| + 2 + |line2|)
  {
    var block := line1 + "\r\n" + line2;
    var part := RenderPart(block, body);
    assert part == line1 + "\r\n" + line2 + "\r\n\r\n" + body + "\r\n";
    forall j | 0 <= j < |block|
      ensures !OccursAt(part, "\r\n\r\n", j)
    {
      if j < |line1| {
        assert part[j] == line1[j];
      } else if j == |line1| {
        assert part[j + 2] == line2[0];
      } else if j == |line1| + 1 {
        assert part[j] == '\n';
      } else {
        assert part[j] == line2[j - |line1| - 2];
      }
      NoBlankLineAt(part, j);
    }
    assert part[|block|..|block| + 4] == "\r\n\r\n";
    FindFirst(part, "\r\n\r\n", |block|);
  }

  /** A part with one well-formed header line is decided by that header. */
  lemma ParseOneHeaderPart(key: string, v: string, value: string)
    requires IsHeaderText(key) && IsHeaderText(v)
    ensures ParsePart(RenderPart(HeaderLine(key, v), value)) == PartOf(map[key := v], value)
  {
    var line := HeaderLine(key, v);
    assert '\r' !in line;
    BlankLineAfterLine(line, value);
    ParsePartOfBlock(line, value);
    SingleHeader(key, v);
  }

  /** A part with two well-formed header lines is decided by those headers. */
  lemma ParseTwoHeaderPart(k1: string, v1: string, k2: string, v2: string, value: string)
    requires IsHeaderText(k1) && IsHeaderText(v1) && IsHeaderText(k2) && IsHeaderText(v2)
    ensures ParsePart(RenderPart(HeaderLine(k1, v1) + "\r\n" + HeaderLine(k2, v2), value))
         == PartOf(map[k1 := v1][k2 := v2], value)
  {
    var line1 := HeaderLine(k1, v1);
    var line2 := HeaderLine(k2, v2);
    assert '\r' !in line1 && '\r' !in line2 && line2[0] == k2[0];
    BlankLineAfterTwoLines(line1, line2, value);
    ParsePartOfBlock(line1 + "\r\n" + line2, value);
    TwoHeaders(k1, v1, k2, v2);
  }

  /** A rendered form field parses back to its name and value, the name kept
      exactly as written. */
  lemma ParsePartOfField(name: string, value: string)
    requires IsParamText(name)
    ensures ParsePart(FieldPart(name, value)) == Some(Field(name, value))
  {
    DispositionTexts(name, name);
    ParseOneHeaderPart("Content-Disposition", FieldDisposition(name), value);
    DispositionOfField(name);
  }

  lemma PartOfUploadHeaders(name: string, filename: string, mime: string, body: string)
    requires IsParamText(name) && IsParamText(filename)
    ensures PartOf(map["Content-Disposition" := UploadDisposition(name, filename)]["Content-Type" := mime], body)
         == Some(Upload(name, HttpFile(filename, body, mime)))
  {
    DispositionOfUpload(name, filename);
  }

  /** A rendered file part parses back to its name, filename, declared MIME
      type and body, name and filename kept exactly as written. */
  lemma ParsePartOfUpload(name: string, filename: string, mime: string, body: string)
    requires IsParamText(name) && IsParamText(filename) && IsHeaderText(mime)
    ensures ParsePart(UploadPart(name, filename, mime, body))
         == Some(Upload(name, HttpFile(filename, body, mime)))
  {
    DispositionTexts(name, filename);
    ParseTwoHeaderPart("Content-Disposition", UploadDisposition(name, filename), "Content-Type", mime, body);
    PartOfUploadHeaders(name, filename, mime, body);
  }

  /** A file part without a Content-Type line gets the default MIME type. */
  lemma ParsePartOfUntypedUpload(name: string, filename: string, body: string)
    requires IsParamText(name) && IsParamText(filename)
    ensures ParsePart(RenderPart(HeaderLine("Content-Disposition", UploadDisposition(name, filename)), body))
         == Some(Upload(name, HttpFile(filename, body, "application/unknown")))
  {
    DispositionTexts(name, filename);
    ParseOneHeaderPart("Content-Disposition", UploadDisposition(name, filename), body);
    DispositionOfUpload(name, filename);
  }

  // ---------------------------------------------------------------------------
  // a whole body

  /** Each part preceded by the delimiter line. */
  function Delimited(parts: seq<string>, delimiter: string): string
    decreases |parts|
  {
    if parts == [] then [] else delimiter + parts[0] + Delimited(parts[1..], delimiter)
  }

  /** `--boundary\r\n`, the line before each part. */
  function Delimiter(boundary: string): string {
    "--" + boundary + "\r\n"
  }

  /** A multipart body as a client sends it: each part after a delimiter
      line, then the closing delimiter `--boundary--` and a line break. */
  function RenderBody(parts: seq<string>, boundary: string): string {
    Delimited(parts, Delimiter(boundary)) + "--" + boundary + "--\r\n"
  }

  /** A boundary on one line. */
  predicate IsBoundaryText(boundary: string) {
    '\r' !in boundary && '\n' !in boundary
  }

  /** A part that can sit between delimiters: it does not contain the
      delimiter line and, unless empty, ends with a line break. */
  predicate IsPartText(part: string, boundary: string) {
    && !Contains(part, Delimiter(boundary))
    && (part == [] || (|part| >= 2 && part[|part| - 2..] == "\r\n"))
  }

  /** After a part, the next delimiter line is the first occurrence. */
  lemma DelimiterFirst(x: string, boundary: string, y: string)
    requires IsBoundaryText(boundary) && IsPartText(x, boundary)
    ensures Find(x + Delimiter(boundary) + y, Delimiter(boundary)) == Some(|x|)
  {
    var D := Delimiter(boundary);
    var s := x + D + y;
    assert s[|x|..|x| + |D|] == D;
    forall j | 0 <= j < |x|
      ensures !OccursAt(s, D, j)
    {
      if j + |D| <= |x| {
        assert s[j..j + |D|] == x[j..j + |D|];
        assert !OccursAt(x, D, j);
      } else if j <= |x| - 2 {
        var i := |x| - 2 - j;
        assert s[|x| - 2] == x[|x| - 2] == '\r';
        assert s[j..j + |D|][i] == s[|x| - 2];
        assert i < 2 || D[i] == boundary[i - 2];
      } else {
        assert s[|x| - 1] == x[|x| - 1] == '\n';
        assert s[j..j + |D|][0] == s[j];
      }
    }
    FindFirst(s, D, |x|);
  }

  /** Splitting the delimited parts on the delimiter line gives back the
      text before the first delimiter and each part. */
  lemma {:induction false} SplitDelimited(x: string, parts: seq<string>, boundary: string)
    requires IsBoundaryText(boundary) && IsPartText(x, boundary)
    requires forall k :: 0 <= k < |parts| ==> IsPartText(parts[k], boundary)
    ensures Split(x + Delimited(parts, Delimiter(boundary)), Delimiter(boundary)) == [x] + parts
    decreases |parts|
  {
    var D := Delimiter(boundary);
    if parts == [] {
      assert x + Delimited(parts, D) == x;
    } else {
      var rest := Delimited(parts[1..], D);
      assert x + Delimited(parts, D) == x + D + (parts[0] + rest);
      DelimiterFirst(x, boundary, parts[0] + rest);
      SplitAtSep(x, D, parts[0] + rest);
      SplitDelimited(parts[0], parts[1..], boundary);
      assert [parts[0]] + parts[1..] == parts;
    }
  }

  /** The closing delimiter of a rendered body is its last occurrence. */
  lemma ClosingDelimiterLast(parts: seq<string>, boundary: string)
    ensures RFind(RenderBody(parts, boundary), "--" + boundary + "--")
         == Some(|Delimited(parts, Delimiter(boundary))|)
  {
    var pre := Delimited(parts, Delimiter(boundary));
    var pat := "--" + boundary + "--";
    var body := RenderBody(parts, boundary);
    assert body == pre + pat + "\r\n";
    assert body[|pre|..|pre| + |pat|] == pat;
    assert |body| == |pre| + |pat| + 2;
    assert body[|pre| + |pat|] == '\r' && body[|pre| + |pat| + 1] == '\n';
    assert pat[|pat| - 1] == '-';
    forall j | |pre| < j
      ensures !OccursAt(body, pat, j)
    {
      if j + |pat| <= |body| {
        assert body[j..j + |pat|][|pat| - 1] == body[j + |pat| - 1];
      }
    }
    var r := RFind(body, pat);
    assert OccursAt(body, pat, |pre|);
    assert r.Some? && r.value == |pre|;
  }

  /** The empty piece before the first delimiter adds nothing. */
  lemma {:induction false} CollectPartsSkipEmpty(parts: seq<string>)
    ensures CollectParts([""] + parts) == CollectParts(parts)
    decreases |parts|
  {
    if parts == [] {
      assert [""][..0] == [];
    } else {
      var init := parts[..|parts| - 1];
      assert ([""] + parts)[..|parts|] == [""] + init;
      assert ([""] + parts)[|parts|] == parts[|parts| - 1];
      CollectPartsSkipEmpty(init);
    }
  }

  lemma ParseRenderedBody(parts: seq<string>, boundary: string, param: string)
    requires IsBoundaryText(boundary) && UnquoteBoundary(param) == boundary
    requires forall k :: 0 <= k < |parts| ==> IsPartText(parts[k], boundary)
    ensures ParseMultipartFormData(RenderBody(parts, boundary), param) == CollectParts(parts)
  {
    var pre := Delimited(parts, Delimiter(boundary));
    var body := RenderBody(parts, boundary);
    assert body[..|pre|] == pre;
    ClosingDelimiterLast(parts, boundary);
    ParseFormDataAt(body, param, |pre|);
    assert Split(pre, Delimiter(boundary)) == [""] + parts by {
      assert !Contains("", Delimiter(boundary));
      SplitDelimited("", parts, boundary);
      assert "" + pre == pre;
    }
    CollectPartsSkipEmpty(parts);
  }

  /** Once the closing delimiter is found, the parts are the pieces of the
      text before it. */
  lemma ParseFormDataAt(body: string, param: string, fin: nat)
    requires RFind(body, "--" + UnquoteBoundary(param) + "--") == Some(fin)
    ensures fin <= |body|
    ensures ParseMultipartFormData(body, param)
         == CollectParts(Split(body[..fin], Delimiter(UnquoteBoundary(param))))
  {
  }

  /** A whole body a client sends parses to the parts it carries: the text
      before the first delimiter is skipped, and the boundary parameter may
      be given bare or in double quotes. */
  lemma ParseMultipartBody(parts: seq<string>, boundary: string)
    requires IsBoundaryText(boundary)
    requires forall k :: 0 <= k < |parts| ==> IsPartText(parts[k], boundary)
    ensures (boundary == [] || boundary[0] != '"') ==>
              ParseMultipartFormData(RenderBody(parts, boundary), boundary) == CollectParts(parts)
    ensures ParseMultipartFormData(RenderBody(parts, boundary), "\"" + boundary + "\"") == CollectParts(parts)
  {
    if boundary == [] || boundary[0] != '"' {
      UnquoteBoundaryBare(boundary);
      ParseRenderedBody(parts, boundary, boundary);
    }
    UnquoteBoundaryQuoted(boundary);
    ParseRenderedBody(parts, boundary, "\"" + boundary + "\"");
  }
}
