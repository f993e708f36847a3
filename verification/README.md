# SimpleHttpServer request pipeline and selector table, in Dafny

This project models the sequential core of `SimpleHttpServer`, a small
Python 2 HTTP/1.x server:

- **Request resolver** (`RequestResolver`). It reads the request line and
  the header block from the connection's input. It then reads the body
  that `Content-Length` announces. It splits the route into location and
  query string, and decodes arguments from the query, from
  `application/x-www-form-urlencoded` bodies and from
  `multipart/form-data` bodies. Finally it derives the keep-alive flag.
- **Response writer** (`RequestHandler`). A handler keeps a body buffer, a
  header dictionary and a status. `write_error` adds the default HTML error
  page. `flush` adds the default `Content-Length` and `Content-Type`
  headers and sends the status line, the header lines, a blank line and
  the body.
- **Per-request decisions** of the server. `_handler_request` chooses the
  handler method or answers 403. `_on_client_request` decides whether to
  close the connection or register it again.
- **Readiness table** of `utils/selectors.py`. It maps each descriptor to
  its `SelectorKey`, with `register`, `unregister` and the filter that
  `select` applies to what the operating system reports.

Everything is a pure function over immutable values:

- The connection's input is one string. `readline` takes everything up to
  and including the first `\n`. `read(n)` takes the next `min(n, remaining)`
  characters.
- What the server writes is returned as a string.
- The operating system's `select.select` is an oracle: the sequence of
  descriptors it reported ready.
- A handler method is the sequence of calls it makes on its handler
  (`write`, `set_header`, `write_error`).
- Python's string builtins are written out with Python 2 byte-string
  semantics. Whitespace is space and `\t` to `\r`, and `lower()` maps
  ASCII letters only.

Files:

| file | module | contents |
|---|---|---|
| `wrappers.dfy` | `Wrappers` | `Option`, `Result`, `dict.get` |
| `strings.dfy` | `Strings` | `strip`, `find`/`rfind`, `split` (on a separator, once, on whitespace), `join`, `lower`, `str(int)`/`int(str)`, `readline` |
| `query_string.dfy` | `QueryString` | `urlparse.parse_qs` and `parse_qsl`, the `setdefault(...).append` idiom, and a percent-encoder that the parser inverts |
| `multipart.dfy` | `Multipart` | `parse_multipart_formdata`, and how a client renders a part |
| `resolver.dfy` | `Resolver` | `on_parse_request`, `on_parse_headers`, the body read, `on_parse_arguments`, `on_request_parser`, and how a client renders a request |
| `handler.dfy` | `Handler` | `write`, `set_header`, `write_error`, `flush`, `write_header`, and how a client reads a response |
| `server.dfy` | `Server` | `_handler_request` and `_on_client_request` |
| `selectors.dfy` | `Selectors` | `SelectorKey`, `register`, `unregister`, `select` |

The main round trips are these:

- A request written by a client parses back to its parts
  (`Resolver.ParseRequestOf`).
- A `GET` with an encoded query string gives back every argument in order
  (`Resolver.ParseGetWithQuery`).
- A rendered multipart part parses back to its field or its file
  (`Multipart.ParsePartOfField`, `Multipart.ParsePartOfUpload`), and a
  whole multipart body to the parts it carries (`Multipart.ParseMultipartBody`).
- What `flush` sends reads back as the flushed response
  (`Handler.ReadFlushOutput`).

Two behaviours of the code shape what a handler receives:

- A urlencoded body's arguments are merged into the query's with
  `dict.update` (SimpleHttpServer.py:198-199). A body key therefore
  replaces the query's whole list for that key
  (`Resolver.UrlencodedBodyReplacesQuery`).
- Disposition parameters keep their quotes (SimpleHttpServer.py:255-258).
  A part with `name="foo"` is filed under the key `"foo"`, quotes included
  (`Multipart.AttrOf`).

## Model

| member | source | states |
|---|---|---|
| Selectors.Register | utils/selectors.py:23-29 | With a mask other than `EVENT_READ` the table is unchanged. With `EVENT_READ` the descriptor's single key is inserted or replaced with that sock, mask and data, and every other entry is kept. The table invariant (one read key per descriptor, stored under its own number) is preserved. |
| Selectors.Unregister | utils/selectors.py:31-36 | The descriptor is absent afterwards. Unregistering an absent descriptor changes nothing. No other entry changes. |
| Selectors.ReadyEvents | utils/selectors.py:48-53 | There are no more events than reported descriptors. In a valid table, each event is the stored key of a registered descriptor, paired with `EVENT_READ`. |
| Selectors.Select | utils/selectors.py:38-53 | An empty table yields no events, without consulting the oracle. Otherwise the result is the filtered report. |
| Selectors.ReadyEventsAppend | utils/selectors.py:49-52 | The filter distributes over concatenation of reports, so the ready order is preserved. |
| Selectors.ReadyEventsSingle | utils/selectors.py:50-52 | A single reported descriptor yields its stored key with `EVENT_READ` when it is registered, and nothing otherwise. |
| Selectors.ReadyEventsSound | utils/selectors.py:49-52 | Every event names a registered descriptor that was reported. |
| Selectors.ReadyEventsComplete | utils/selectors.py:49-52 | Every registered descriptor that was reported has an event. |
| Selectors.ReadyEventsMembership | utils/selectors.py:49-52 | A descriptor appears among the events exactly when it was reported and is registered. |
| Selectors.SelectAfterUnregister | utils/selectors.py:35-53 | After `unregister(fd)`, no `select` reports `fd`. |
| Selectors.UnregisterAfterRegister | utils/selectors.py:23-36 | Registering and then unregistering a descriptor is the same as only unregistering it. |
| Strings.Strip | SimpleHttpServer.py:168 | The result is no longer than the input, neither starts nor ends with whitespace, and is empty exactly when the input is all whitespace. |
| Strings.StripNewline | SimpleHttpServer.py:168 | The line break `readline` keeps is removed by `strip()` along with the other padding. |
| Strings.StripOfPadded | SimpleHttpServer.py:168 | `strip()` removes any whitespace padding and gives back text that neither starts nor ends with whitespace. |
| Strings.Find | SimpleHttpServer.py:184 | The result is the first index where the pattern occurs, and `None` exactly when it never occurs. |
| Strings.RFind | SimpleHttpServer.py:202 | The result is the last index where the pattern occurs, and `None` exactly when it never occurs. |
| Strings.Split | SimpleHttpServer.py:227 | There is at least one piece. There are two or more exactly when the separator occurs. No piece contains the separator. |
| Strings.JoinOfSplit | SimpleHttpServer.py:227 | Joining the pieces with the separator gives back the input. |
| Strings.SplitOfJoin | SimpleHttpServer.py:240-241 | Splitting on a one-character separator recovers the pieces that were joined with it, provided no piece contains it. |
| Strings.SplitOnce | SimpleHttpServer.py:171 | There is one piece exactly when the separator is absent. Otherwise there are two pieces around its first occurrence. |
| Strings.SplitWhitespace | SimpleHttpServer.py:150 | Every piece is a non-empty run without whitespace. |
| Strings.SplitWhitespaceOfToken | SimpleHttpServer.py:150 | Leading whitespace is skipped, and the first maximal run of non-whitespace becomes the first piece. |
| Strings.Lower | SimpleHttpServer.py:157 | The result has the same length, and each character is mapped to ASCII lower case. |
| Strings.LowerIdempotent | SimpleHttpServer.py:157 | Lower-casing twice is the same as lower-casing once. |
| Strings.ParseInt | SimpleHttpServer.py:287 | A value is produced exactly when the stripped text is digits, optionally after one `+` or `-`; blank text is rejected. Digits give their decimal value, `+` digits the same value and `-` digits its negation. |
| Strings.ParseIntOfIntToString | SimpleHttpServer.py:287 | `int(str(i)) == i` for every integer. |
| Strings.ReadLine | SimpleHttpServer.py:146 | The line and the rest make up the input. The line ends at the first `\n`. The line is empty only on empty input. |
| Strings.ReadLineCRLF | SimpleHttpServer.py:168 | A line ended by CRLF is read exactly, and the text after it is left unread. |
| QueryString.AddValue | SimpleHttpServer.py:271 | `setdefault(name, []).append(value)` adds the name and extends its list by the value. Every other name keeps its list. |
| QueryString.GroupValues | SimpleHttpServer.py:186 | Grouping pairs by name keeps every value. A name is present exactly when some pair carries it, and its list holds all of that name's values in order. |
| QueryString.ParseQsValues | SimpleHttpServer.py:186 | A repeated query key yields all of its values, in order of appearance. |
| QueryString.ParseQsl | SimpleHttpServer.py:186 | Every pair has a non-empty value: blank values are dropped. |
| QueryString.FieldPair | SimpleHttpServer.py:186 | A field is dropped exactly when it is empty, has no `=`, or has nothing after its first `=`; a kept field has a non-empty value. |
| QueryString.ParseQs | SimpleHttpServer.py:186 | Every name present has at least one value. |
| QueryString.Unquote | SimpleHttpServer.py:186 | The result is no longer than the input and is empty only for empty input. Text without `%` is kept as is. |
| QueryString.PlusToSpace | SimpleHttpServer.py:186 | The length is kept, each `+` becomes a space, and every other character is unchanged. |
| QueryString.UnquoteOfQuote | SimpleHttpServer.py:186 | Percent-decoding inverts percent-encoding. |
| QueryString.FieldPairOfEncoded | SimpleHttpServer.py:186 | One encoded field `name=value` with a non-empty value decodes to its pair. |
| QueryString.ParseQslOfEncodeQuery | SimpleHttpServer.py:186 | `parse_qsl` inverts the encoder. Every pair with a non-empty value comes back decoded, in its original position. |
| Multipart.UnquoteBoundary | SimpleHttpServer.py:220-221 | A parameter of two or more characters that starts and ends with `"` is the result between those quotes. A lone `"` becomes empty, because it both starts and ends with a quote. Any other parameter is kept as written. |
| Multipart.UnquoteBoundaryQuoted | SimpleHttpServer.py:220-221 | A boundary parameter in double quotes loses them. |
| Multipart.UnquoteBoundaryBare | SimpleHttpServer.py:220-221 | A boundary parameter that does not start with a quote is kept as written. |
| Multipart.Slice | SimpleHttpServer.py:263 | Python slicing is followed. An end within the part cuts there. An end past the part is clamped to its end. An end at or before the start gives the empty string. |
| Multipart.PartOf | SimpleHttpServer.py:247-273 | A part is accepted exactly when its disposition token is `form-data` and its `name` parameter is present and non-empty. The accepted part carries that name. It is a file exactly when `filename` is non-empty, with that file name, the value as body, and the part's Content-Type or else `application/unknown`. Otherwise it is a field with the value. |
| Multipart.ParsePart | SimpleHttpServer.py:228-266 | An empty part, or a part without a blank line, is skipped. An accepted part has a non-empty name, and a file part a non-empty file name. |
| Multipart.PartHeaderLines | SimpleHttpServer.py:238-246 | Header names recorded earlier stay recorded. |
| Multipart.PartHeaderLinesOf | SimpleHttpServer.py:238-246 | Any list of well-formed `key: value` lines builds the dictionary that assigning the pairs in order builds, a later key overwriting an earlier one. |
| Multipart.PartHeadersOf | SimpleHttpServer.py:236-246 | A header block of such lines joined by CRLF gives that dictionary. |
| Multipart.IgnoredHeaderLine | SimpleHttpServer.py:241-243 | A line that does not split on `:` into exactly two pieces is passed over. |
| Multipart.ColonInValueIgnored | SimpleHttpServer.py:241-243 | In particular a header whose value holds a `:` is dropped. |
| Multipart.DispositionAttrs | SimpleHttpServer.py:251-258 | Parameters recorded earlier stay recorded. When every attribute holds `=` the token is unchanged. A new token holds no `=`; which attribute it is, is stated by `Multipart.DispositionKindIsLast`. |
| Multipart.ParseDisposition | SimpleHttpServer.py:247-258 | The disposition token, when there is one, holds no `=`. |
| Multipart.DispositionKindIsLast | SimpleHttpServer.py:251-253 | The token is the last `;`-separated attribute without `=`, kept exactly as written (unstripped). |
| Multipart.CollectParts | SimpleHttpServer.py:228-273 | Every name in either map has at least one value. |
| Multipart.CollectPartsSkipEmpty | SimpleHttpServer.py:229-230 | The empty piece before the first delimiter adds nothing. |
| Multipart.SplitDelimited | SimpleHttpServer.py:227 | Splitting delimited parts on `--boundary\r\n` gives back the text before the first delimiter and then each part. |
| Multipart.ClosingDelimiterLast | SimpleHttpServer.py:222 | The last occurrence of `--boundary--` in a rendered body is its closing delimiter. |
| Multipart.ParseMultipartBody | SimpleHttpServer.py:213-274 | A whole rendered body parses to exactly what the parts it carries give, with the boundary parameter given bare or in double quotes. |
| Multipart.ParseMultipartFormData | SimpleHttpServer.py:213-274 | Without the closing delimiter `--boundary--`, both maps are empty. Every key of either map is non-empty. |
| Multipart.CollectPartsIsGrouping | SimpleHttpServer.py:228-273 | The single pass over the parts equals grouping the accepted fields and grouping the accepted files, each in order of appearance. |
| Multipart.CollectPartsValues | SimpleHttpServer.py:271-273 | For every name, the argument map holds exactly that name's accepted field values in order, and the file map exactly its files in order. |
| Multipart.SingleHeader | SimpleHttpServer.py:238-246 | A part header line `Key: value` records the stripped key and the stripped value. |
| Multipart.TwoHeaders | SimpleHttpServer.py:238-246 | Two part header lines are recorded in order, and a later line overwrites an earlier line with the same key. |
| Multipart.AttrOf | SimpleHttpServer.py:255-258 | A disposition attribute ` key=value` is split at `=`, and the key and value are stripped but not unquoted. |
| Multipart.DispositionOfField | SimpleHttpServer.py:247-258 | `form-data; name=N` parses to the token `form-data` with the single parameter `name` set to N. |
| Multipart.DispositionOfUpload | SimpleHttpServer.py:247-258 | `form-data; name=N; filename=F` parses to the token `form-data` with the parameters `name` and `filename`. |
| Multipart.ParsePartOfBlock | SimpleHttpServer.py:232-263 | The header block ends at the first blank line. The value is what follows it, minus the final CRLF. |
| Multipart.ParsePartOfField | SimpleHttpServer.py:228-273 | A rendered field part parses to that field's name and value. |
| Multipart.ParsePartOfUpload | SimpleHttpServer.py:268-271 | A rendered file part parses to a file with that name, file name, body and MIME type. |
| Multipart.ParsePartOfUntypedUpload | SimpleHttpServer.py:268-271 | A rendered file part without a Content-Type line gets the MIME type `application/unknown`. |
| Resolver.ParseRequestLine | SimpleHttpServer.py:144-163 | Empty input means the peer closed the connection. The request line fails exactly when its whitespace split is not three words. It is refused for its version exactly when it has three words and the third is neither `HTTP/1.0` nor `HTTP/1.1`. On success the method is the first word lower-cased, the route the second and the version the third, and the rest of the input is left unread. |
| Resolver.SpacedLineWords | SimpleHttpServer.py:150 | A line of three words with any runs of whitespace around and between them splits into exactly those words. |
| Resolver.ParseSpacedRequestLine | SimpleHttpServer.py:146-160 | Such a request line with a supported version parses to the lower-cased method, the route and the version, with the rest unread. |
| Resolver.SpacedVersionRefused | SimpleHttpServer.py:156-163 | Such a request line with any other version is refused. |
| Resolver.ParseRequestLineOf | SimpleHttpServer.py:150-160 | A request line with a supported version parses to the lower-cased method and the route and version as written, with the rest unread. |
| Resolver.RequestLineVersionRefused | SimpleHttpServer.py:156-163 | A three-word request line with any other version is refused. |
| Resolver.ParseHeaders | SimpleHttpServer.py:165-178 | A successful parse keeps every earlier header name and consumes input. A failure is always a malformed header line. Input that has run out ends the block. |
| Resolver.ParseHeaderLineStep | SimpleHttpServer.py:168-177 | A line `Name: value` assigns the value to the name and parsing continues with the next line. |
| Resolver.ParsePaddedHeaderLine | SimpleHttpServer.py:168-177 | Whitespace before the name, after `: ` and before the line break (a CR included) is dropped; the name gets the bare value and parsing continues with the next line. |
| Resolver.ParseBlankLine | SimpleHttpServer.py:168-170 | A blank line ends the header block, and the text after it is left unread. |
| Resolver.ParseHeaderBlock | SimpleHttpServer.py:167-178 | A block of well-formed header lines followed by a blank line parses to the dictionary that assigning the pairs in order builds, and the body is left unread. |
| Resolver.ApplyHeadersLookup | SimpleHttpServer.py:177 | A name is present exactly when it was present before or some line carries it. The last line with a name gives its value. Names on no line keep their value. |
| Resolver.HeaderLineWithoutColonSpaceRefused | SimpleHttpServer.py:168-174 | A header line that is not blank once stripped and holds no `: ` fails the parse. |
| Resolver.EmptyHeaderValueRefused | SimpleHttpServer.py:168-174 | `Name: ` with an empty value fails the parse, because `strip()` removes the space after the colon. |
| Resolver.ReadBody | SimpleHttpServer.py:287-288 | The read fails exactly when `int()` rejects the Content-Length. The body read is a prefix of the remaining input. It is empty without Content-Length and when the value is not positive. |
| Resolver.ReadBodyOfLength | SimpleHttpServer.py:287-288 | A Content-Length of n reads exactly the next n characters. |
| Resolver.SplitRoute | SimpleHttpServer.py:184-191 | The location is a prefix of the route. Either it is the whole route with no query arguments, or it is non-empty, free of `?`, and followed by the first `?` of the route. |
| Resolver.SplitRouteAt | SimpleHttpServer.py:184-189 | `path?query` with a non-empty path gives the location `path` and the arguments `parse_qs(query)`. |
| Resolver.SplitRouteLeadingQuestionMark | SimpleHttpServer.py:185-191 | A route starting with `?` is kept whole as the location and gives no query arguments. |
| Resolver.BodyArguments | SimpleHttpServer.py:193-210 | Neither supported content type adds nothing. Files come only from a multipart type that is not also urlencoded. |
| Resolver.ParseArguments | SimpleHttpServer.py:181-210 | The location comes from the route split, and the files from the body. The body's arguments (urlencoded or multipart) are merged over the query's as `dict.update` does: a name is present when either has it, takes the body's values when the body has it, and keeps the query's otherwise. Without Content-Type the arguments are the query's and there are no files. |
| Resolver.OtherContentTypeKeepsQuery | SimpleHttpServer.py:193-210 | A Content-Type naming neither form encoding leaves the query's arguments as they are and adds no files. |
| Resolver.UrlencodedBodyReplacesQuery | SimpleHttpServer.py:197-199 | A urlencoded body adds no files. A name present in the body takes the body's values, replacing the query's. Any other name keeps the query's values. |
| Resolver.MultipartWithoutBoundary | SimpleHttpServer.py:201-205 | A multipart Content-Type without `boundary=` adds nothing. |
| Resolver.MultipartArguments | SimpleHttpServer.py:201-208 | A multipart body is decoded with the text after the last `boundary=`. |
| Resolver.KeepAlive | SimpleHttpServer.py:291-293 | Keep-alive holds exactly when the Connection header, lower-cased, is `keep-alive`. It is false without the header. |
| Resolver.KeepAliveIgnoresCase | SimpleHttpServer.py:291 | The case of the Connection value does not matter. |
| Resolver.ParseRequest | SimpleHttpServer.py:277-296 | Empty input means the peer closed the connection. A failure of the request line, of the header block or of reading the body fails the whole parse with that stage's reason; when all three succeed the request carries the parsed headers. A parsed request has a supported version, a lower-cased method, a location that is a prefix of the route, and the keep-alive flag of its Connection header. |
| Resolver.ParseRequestOf | SimpleHttpServer.py:277-294 | A request written by a client, whose Content-Length gives its body's length or which has neither, parses back. The method is lower-cased, the route and version are as written, and the headers are the dictionary the lines build. The body is decoded into location, arguments and files, and keep-alive comes from the headers. |
| Resolver.ParseGetWithQuery | SimpleHttpServer.py:184-189 | A `GET path?query` request with no body and any headers but Content-Length and Content-Type parses with method `get`, location `path` and the headers its lines build. Its arguments hold every encoded pair's values in order. It has no files, and it is kept alive as its Connection header says. |
| Resolver.DecodedOfQuery | SimpleHttpServer.py:184-195 | Without Content-Type, an encoded query is decoded into the grouped pairs and the location is the path. |
| Handler.Write | SimpleHttpServer.py:359-363 | `write` appends to the body buffer and leaves status and headers alone. |
| Handler.SetHeader | SimpleHttpServer.py:337-339 | `set_header` assigns the name, replacing any earlier value, and leaves every other header, the status and the body alone. |
| Handler.WriteError | SimpleHttpServer.py:348-357 | `write_error` sets code and message and appends the given body, or the default error page when the body is empty. Headers are unchanged. |
| Handler.ErrorPageShows | SimpleHttpServer.py:357 | The default error page shows the code, which reads back as that number, and the message. |
| Handler.Run | SimpleHttpServer.py:337-363 | The body only grows, header names only get added, and no calls leave the handler as it was. |
| Handler.RunBody | SimpleHttpServer.py:359-363 | After any sequence of calls, the body is the earlier buffer followed by everything the calls wrote, in order. |
| Handler.RunHeaders | SimpleHttpServer.py:337-339 | After any sequence of calls, the headers are the earlier dictionary with the `set_header` assignments applied in order. |
| Handler.RunStatus | SimpleHttpServer.py:331-333 | Calls without `write_error` keep the status. |
| Handler.RunLastWriteError | SimpleHttpServer.py:331-333 | After a run of calls, the status code and message are those of the last `write_error` call. |
| Handler.Flush | SimpleHttpServer.py:365-372 | `Content-Length` is set to the body length and `Content-Type` to `text/html`, each only when absent. Existing headers, the status and the body are unchanged. |
| Handler.FlushIdempotent | SimpleHttpServer.py:369-372 | A second flush adds nothing. |
| Handler.FlushContentLength | SimpleHttpServer.py:369-370 | A defaulted `Content-Length` reads back as the length of the body sent. |
| Handler.Items | SimpleHttpServer.py:344-345 | Every header line written carries a name of the dictionary with its value, and a name the order lists. |
| Handler.ItemsExactlyOnce | SimpleHttpServer.py:344-345 | When the order is the dictionary's iteration order, every header is written once with its value and no name twice. |
| Handler.WriteHeader | SimpleHttpServer.py:341-346 | The head starts with the status line and ends with the blank line. |
| Handler.WriteHeaderListsEveryHeader | SimpleHttpServer.py:341-346 | The head holds a `name: value` line for every header of the response. |
| Handler.FlushOutput | SimpleHttpServer.py:365-374 | What `flush` sends starts with the status line and ends with a line break followed by the whole body. |
| Handler.ApplyItems | SimpleHttpServer.py:344-345 | Reading back the header lines of every name rebuilds the header dictionary. |
| Handler.ReadStatusLine | SimpleHttpServer.py:343 | The status line `HTTP/1.1 code message` is one line, read exactly. |
| Handler.ReadFlushOutput | SimpleHttpServer.py:341-374 | What `flush` sends reads back as the flushed response: code, message, every header (the defaults included) and the body. |
| Server.HandleRequest | SimpleHttpServer.py:106-123 | A verb the handler class has no method for gets 403 `This method Forbidden`, with the default error page, its length and `text/html`. Otherwise the response is the flushed result of the method's calls. The response always carries Content-Length and Content-Type. |
| Server.HandledBody | SimpleHttpServer.py:117-123 | A handled request's body is exactly what its method wrote. The status stays 200 OK unless the method called `write_error`. |
| Server.ForbiddenResponse | SimpleHttpServer.py:111-116 | The 403 answer reads back from the wire as that response. |
| Server.OnClientRequest | SimpleHttpServer.py:92-104 | A failed parse closes the connection with no output and leaves the table as it was. Otherwise the flushed response is written, and the connection is registered for reading again exactly when the request asked for keep-alive. |
| Server.ServeCycle | SimpleHttpServer.py:77-104 | The descriptor is unregistered before dispatch and served. Afterwards it is watched again exactly when the connection stays open, with its context unchanged. Every other registration is untouched. |

## Left out

- **Socket I/O.** `makefile`, `accept`, `close`, `bind`, `listen` and `setsockopt` (SimpleHttpServer.py:41-64, 86, 323-324) are not modelled. The input is a string, and the output is the string `write_header` and `flush` would write.
- **`select.select`** (utils/selectors.py:43-46) is an oracle parameter, and the timeout argument is not modelled.
- **`utils/thread_pool.py`** is not part of this model: it is threads and a blocking queue. It also refers to an undefined `queue.Empty` (utils/thread_pool.py:111).
- **The dispatcher loop.** `_start_forever` and its `KeyboardInterrupt` handling, `_on_new_connected`, `_setup_server` and `start_server` (SimpleHttpServer.py:43-89, 127-139) are concurrency and operating-system setup. Only the unregister-before-dispatch step appears, inside `Server.ServeCycle`.
- **`StaticRequestHandler.get`** (SimpleHttpServer.py:379-389) reads the filesystem. It is the `fallback` handler class parameter of `Server.HandleRequest`.
- **Logging and tracebacks** are not modelled. The `try`/`except` around the resolver becomes the `Failure` cases of `Resolver.ParseRequest`.
- **Exceptions inside a handler method** are not modelled as such. A method that raises midway is modelled by the calls it made before raising, after which the handler is flushed as in the source.
- **Duck-typed method lookup.** `getattr(obj, method)` also finds inherited attributes such as `write` or `flush`, so a request with method `FLUSH` would call `flush` itself. The model gives each handler class an explicit map from verb to method.
- **The dictionary order** in which `write_header` emits headers is a parameter (`order`), because Python 2 dictionary order is an implementation detail. It is required to list each header name exactly once, as iteration over a dictionary does (`Handler.Enumerates`).
- **Handler code** that calls `write_header` or writes to `wfile` directly is not modelled. Header values are strings; the source formats any object with `str`.
- **Leftover input is dropped.** Each request gets a fresh `rfile` buffer in the source, so input read ahead past one request is lost. The model parses one request from the input it is given and leaves keep-alive pipelining out.
- **Cookies.** `HttpRequest.cookies` is never filled by the source and is not modelled.
- **Blocking reads.** `rfile.read(n)` on a socket blocks until n bytes arrive or the peer closes. The model takes what is there, up to n characters.
- Strings.ParseInt: Python 2's `int()` also accepts whitespace between the sign and the digits. This quirk is not modelled, and such a Content-Length is rejected.
- **Bytes as characters.** The server works on Python 2 byte strings; the model uses Dafny strings, one `char` per byte. `%XX` decodes to the one character with that code, which is the byte `unquote` produces. Characters above U+00FF have no Python 2 counterpart, and the encoder lemmas require byte-range text (`QueryString.IsBytes`).
- Resolver.ParseHeaders: its own contract states only that names are kept, that input is consumed and what kind of failure can occur. The exact result is stated by `Resolver.ParseHeaderLineStep`, `Resolver.ParsePaddedHeaderLine`, `Resolver.ParseBlankLine`, `Resolver.ParseHeaderBlock` and `Resolver.EmptyHeaderValueRefused`.
- Strings.SplitWhitespace: its own contract states only that every piece is a non-empty run without whitespace. How the pieces are found is stated by `Strings.SplitWhitespaceOfToken`.
- Strings.Strip: its own contract states that neither end is whitespace and when the result is empty. The exact result is stated by `Strings.StripOfPadded`.
- Multipart.ParseMultipartFormData: its own contract covers the missing closing delimiter and non-empty names. The result for a whole rendered body is stated by `Multipart.ParseMultipartBody`, for parts that do not contain the delimiter line and end with a line break, and for boundaries on one line. The per-part result is stated by `Multipart.CollectPartsValues`, `Multipart.ParsePartOfField` and `Multipart.ParsePartOfUpload`.
- Multipart.ParsePart: its own contract covers the parts that are skipped before their headers are read. Which parts are accepted, and as what, is stated by `Multipart.PartOf`.
- Handler.ReadFlushOutput: it is stated for responses whose header names are tokens without `:`, whose header values are non-empty, unpadded and on one line, and whose message has no line break. Other responses are written the same way but cannot be read back unambiguously.
