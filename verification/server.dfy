/** The decisions `SimpleHttpServer` takes around one request: which handler
    method answers it (`_handler_request`) and what becomes of the
    connection afterwards (`_on_client_request`). */
module Server {
  import opened Wrappers
  import opened Strings
  import opened Selectors
  import opened Resolver
  import opened Handler

  /** A request handler class as dispatch sees it: the verbs it has a method
      for, each with the calls that method makes on the handler for a
      request. A method that raises midway is the prefix of calls it made
      before raising. */
  type HandlerClass = map<string, Request -> seq<Action>>

  const ForbiddenCode: int := 403
  const ForbiddenMessage: string := "This method Forbidden"

  /** `_handler_request` up to the bytes sent: the class registered for the
      location, or `fallback` (the static file handler) when there is none;
      the method named by the lower-cased verb runs on a fresh handler, or,
      when the class has no such method, the handler answers 403 with the
      default error page; either way the handler is flushed. */
  function HandleRequest(handlers: map<string, HandlerClass>, fallback: HandlerClass, req: Request): (r: Response)
    ensures var cls := Get(handlers, req.location, fallback);
            req.verb !in cls ==>
              && r.code == ForbiddenCode && r.message == ForbiddenMessage
              && r.body == ErrorPage(ForbiddenCode, ForbiddenMessage)
              && r.headers == map["Content-Length" := NatToString(|r.body|), "Content-Type" := "text/html"]
    ensures var cls := Get(handlers, req.location, fallback);
            req.verb in cls ==> r == Flush(Run(Initial, cls[req.verb](req)))
    ensures "Content-Length" in r.headers && "Content-Type" in r.headers
  {
    var cls := Get(handlers, req.location, fallback);
    if req.verb !in cls then
      Flush(WriteError(Initial, ForbiddenCode, ForbiddenMessage, []))
    else
      Flush(Run(Initial, cls[req.verb](req)))
  }

  /** A handled request's body is exactly what its method wrote, and its
      status is 200 OK unless the method called `write_error`. */
  lemma HandledBody(handlers: map<string, HandlerClass>, fallback: HandlerClass, req: Request)
    requires req.verb in Get(handlers, req.location, fallback)
    ensures var actions := Get(handlers, req.location, fallback)[req.verb](req);
            && HandleRequest(handlers, fallback, req).body == Written(actions)
            && ((forall k :: 0 <= k < |actions| ==> !actions[k].CallWriteError?) ==>
                  HandleRequest(handlers, fallback, req).code == 200)
  {
    var actions := Get(handlers, req.location, fallback)[req.verb](req);
    RunBody(Initial, actions);
    assert Initial.body + Written(actions) == Written(actions);
    if forall k :: 0 <= k < |actions| ==> !actions[k].CallWriteError? {
      RunStatus(Initial, actions);
    }
  }

  /** What serving one request leaves behind: the selector table, the bytes
      written to the client, and whether the connection stays open. */
  datatype Outcome<D> = Outcome(table: Table<D>, output: string, open: bool)

  /** `_on_client_request(sock, data)` for the descriptor `fd`: the request
      is parsed from the connection's input (`host` and `port` are the
      address `data` carries); a parse failure closes the connection without
      an answer; otherwise the response is written, and the connection is
      registered for reading again exactly when the request asked to be kept
      alive. `order` is the order the response's header dictionary yields
      its names, so it names each of them once. */
  function OnClientRequest<D>(t: Table<D>, fd: Fd, data: D, host: string, port: int, input: string,
                              handlers: map<string, HandlerClass>, fallback: HandlerClass,
                              order: seq<string>): (o: Outcome<D>)
    requires ParseRequest(host, port, input).Success? ==>
               Enumerates(order, HandleRequest(handlers, fallback, ParseRequest(host, port, input).value).headers)
    ensures ParseRequest(host, port, input).Failure? ==> o == Outcome(t, [], false)
    ensures ParseRequest(host, port, input).Success? ==>
              && (o.open <==> ParseRequest(host, port, input).value.keepAlive)
              && o.output == FlushOutput(HandleRequest(handlers, fallback, ParseRequest(host, port, input).value), order)
    ensures o.open ==> o.table == Register(t, fd, EVENT_READ, data)
    ensures !o.open ==> o.table == t
  {
    match ParseRequest(host, port, input)
    case Failure(_) => Outcome(t, [], false)
    case Success(req) =>
      var output := FlushOutput(HandleRequest(handlers, fallback, req), order);
      if req.keepAlive then Outcome(Register(t, fd, EVENT_READ, data), output, true)
      else Outcome(t, output, false)
  }

  /** The dispatcher unregisters a descriptor before handing it to a worker;
      after the worker has served it, the descriptor is watched again
      exactly when the connection was kept alive, with its context
      unchanged, and every other registration is untouched. */
  lemma ServeCycle<D>(t: Table<D>, fd: Fd, data: D, host: string, port: int, input: string,
                      handlers: map<string, HandlerClass>, fallback: HandlerClass, order: seq<string>)
    requires Valid(t)
    requires ParseRequest(host, port, input).Success? ==>
               Enumerates(order, HandleRequest(handlers, fallback, ParseRequest(host, port, input).value).headers)
    ensures var t0 := Unregister(t, fd);
            var o := OnClientRequest(t0, fd, data, host, port, input, handlers, fallback, order);
            && Valid(o.table)
            && (fd in o.table <==> o.open)
            && (o.open ==> o.table[fd].data == data)
            && (forall g :: g != fd ==> (g in o.table <==> g in t))
            && (forall g :: g in o.table && g != fd ==> o.table[g] == t[g])
  {
    var t0 := Unregister(t, fd);
    var o := OnClientRequest(t0, fd, data, host, port, input, handlers, fallback, order);
    assert Valid(t0) && fd !in t0;
    if o.open {
      assert o.table == Register(t0, fd, EVENT_READ, data);
    } else {
      assert o.table == t0;
    }
  }

  /** A request for a verb the class has no method for is answered 403 with
      the default error page, which reads back from the wire as such. */
  lemma ForbiddenResponse(handlers: map<string, HandlerClass>, fallback: HandlerClass, req: Request,
                          order: seq<string>)
    requires req.verb !in Get(handlers, req.location, fallback)
    requires Enumerates(order, HandleRequest(handlers, fallback, req).headers)
    ensures var r := HandleRequest(handlers, fallback, req);
            ReadResponse(FlushOutput(r, order)) == Some(r)
  {
    var e := WriteError(Initial, ForbiddenCode, ForbiddenMessage, []);
    assert HandleRequest(handlers, fallback, req) == Flush(e);
    FlushIdempotent(e);
    ForbiddenReadable();
    FlushReadable(e);
    ReadFlushOutput(Flush(e), order);
  }

  lemma ForbiddenReadable()
    ensures '\n' !in ForbiddenMessage
  {
  }
}
