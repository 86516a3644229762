/**
 * handle_request (main.h:51-146): one request-response cycle on an accepted
 * client socket -- read the request, parse it, read the body of a POST, PUT
 * or PATCH, call the handler, and send the headers and the body back.
 */
module Worker {
  import opened Wrappers
  import opened CLib
  import opened Socket
  import opened RequestReader
  import opened ResponseWriter
  import Strtok

  /** sizeof(buffer): the request is read by one read(2) of at most this many bytes. */
  const BufferSize: nat := 1024

  /** The http_request_t the handler receives (body_fd is always -1 and carries nothing). */
  datatype Request = Request(httpMethod: string, path: string, body: Option<string>)

  /** Behaviour the C standard leaves undefined, reached on the way through a cycle. */
  datatype Hazard =
    | UnterminatedRequest  // no NUL in buffer[1024]: printf and strdup read past its end
    | LengthOutOfRange     // atoi of a Content-Length value that does not fit an int
    | MissingToken         // strdup(NULL) for a missing method or path
    | BadBodyLength        // malloc(content_length + 1) and body[content_length] for a negative or INT_MAX length
    | FreedBodySent        // send(.., response.body, ..) after write_response freed it

  /** Which read(2) failed. */
  datatype Stage = ReadingRequest | ReadingBody

  /** How a cycle ends, and, when it responds, what it wrote to the socket. */
  datatype Outcome =
    | Aborted(stage: Stage)
    | Undefined(hazard: Hazard)
    | Stalls
    | Responded(request: Request, sent: string)

  /** write_response as written, or with its final free removed. */
  datatype Writer = AsWritten | Corrected

  /** strcmp(method, "POST") == 0 || ... "PUT" ... || ... "PATCH". */
  predicate IsBodyMethod(m: string)
  {
    m == "POST" || m == "PUT" || m == "PATCH"
  }

  /** The first read(2) of the cycle. */
  function FirstRead(pending: seq<Delivery>): ReadStep
  {
    ReadFrom(pending, BufferSize)
  }

  /**
   * buffer[1024] after the first read: the bytes read, then whatever the
   * stack held there before (`stack`), since read(2) does not terminate them.
   */
  function Received(pending: seq<Delivery>, stack: string): (b: string)
    requires |stack| == BufferSize && FirstRead(pending).count >= 0
    ensures |b| == BufferSize
  {
    Patched(stack, 0, FirstRead(pending).data)
  }

  /** strdup(buffer): defined only when the buffer holds a NUL; it copies up to that NUL. */
  function RequestText(buffer: string): (t: Option<string>)
    ensures t.Some? <==> NUL in buffer
    ensures t.Some? ==> t.value == CStr(buffer) && NUL !in t.value
  {
    if NUL in buffer then Some(CStr(buffer)) else None
  }

  /**
   * The two send calls: strlen(headers) bytes of the headers, then
   * body_length bytes of the body -- undefined once the body has been freed.
   */
  function Send(request: Request, state: ResponseState): Outcome
    requires state.body.Live? ==> state.bodyLength <= |state.body.bytes|
  {
    match state.body
    case Freed => Undefined(FreedBodySent)
    case Live(bytes) => Responded(request, CStr(state.headers) + bytes[..state.bodyLength])
  }

  /** handler(&request, &response) followed by the sends. */
  function Respond(request: Request, handler: Request -> WriterArgs, writer: Writer): Outcome
  {
    var state := Written(handler(request));
    Send(request, if writer == AsWritten then state.(body := Freed) else state)
  }

  /** Where the checks and the body loop leave a cycle: at the handler call, or at an end reached before it. */
  datatype Stop = Handle(request: Request) | Ends(outcome: Outcome)

  /**
   * The cycle once atoi has run over the scanned lines, up to the handler
   * call: the checks on the length and the tokens, and the body loop for
   * POST, PUT and PATCH. `after` is what the socket holds after the first read.
   */
  function Prepare(head: RequestHead, after: seq<Delivery>): Stop
  {
    if !head.lengthInRange then Ends(Undefined(LengthOutOfRange))
    else if head.httpMethod.None? || head.path.None? then Ends(Undefined(MissingToken))
    else
      var verb, path := head.httpMethod.value, head.path.value;
      if !IsBodyMethod(verb) then Handle(Request(verb, path, None))
      else if head.contentLength < 0 || head.contentLength == IntMax then Ends(Undefined(BadBodyLength))
      else
        var body := BodySpec(after, head.contentLength);
        match body.status
        case Failed => Ends(Aborted(ReadingBody))
        case Stalled => Ends(Stalls)
        case Complete => Handle(Request(verb, path, Some(body.data)))
  }

  /** The cycle from the parsed head on: `Prepare`, then the handler and the sends. */
  function Dispatch(head: RequestHead, after: seq<Delivery>, handler: Request -> WriterArgs, writer: Writer): Outcome
  {
    match Prepare(head, after)
    case Handle(request) => Respond(request, handler, writer)
    case Ends(outcome) => outcome
  }

  /**
   * One cycle of handle_request on a socket delivering `pending`, with the
   * request buffer's earlier contents `stack`.
   */
  function Cycle(pending: seq<Delivery>, stack: string, handler: Request -> WriterArgs, writer: Writer): Outcome
    requires |stack| == BufferSize
  {
    var first := FirstRead(pending);
    if first.count < 0 then Aborted(ReadingRequest)
    else match RequestText(Received(pending, stack))
      case None => Undefined(UnterminatedRequest)
      case Some(text) => Dispatch(ParseHead(text), first.after, handler, writer)
  }

  /**
   * handle_request from the first read to the parse of the request, step by
   * step, with write_response as written or corrected according to `writer`.
   */
  method HandleRequest(conn: Connection, stack: string, handler: Request -> WriterArgs, writer: Writer) returns (outcome: Outcome)
    requires conn.Valid() && |stack| == BufferSize
    modifies conn
    ensures outcome == Cycle(old(conn.pending), stack, handler, writer)
  {
    ghost var pending := conn.pending;
    var buffer := new char[BufferSize](i => if 0 <= i < |stack| then stack[i] else NUL);
    assert buffer[..] == stack;
    var got := conn.Read(buffer, 0, BufferSize);
    if got < 0 {
      return Aborted(ReadingRequest);
    }
    assert buffer[..] == Received(pending, stack);
    if NUL !in buffer[..] {
      return Undefined(UnterminatedRequest);
    }
    var head := ParseRequest(CStr(buffer[..]));
    outcome := Serve(conn, head, handler, writer);
  }

  /** The rest of handle_request: the checks, the body loop, the handler and the sends. */
  method Serve(conn: Connection, head: RequestHead, handler: Request -> WriterArgs, writer: Writer) returns (outcome: Outcome)
    requires conn.Valid()
    modifies conn
    ensures outcome == Dispatch(head, old(conn.pending), handler, writer)
  {
    if !head.lengthInRange {
      return Undefined(LengthOutOfRange);
    }
    if head.httpMethod.None? || head.path.None? {
      return Undefined(MissingToken);
    }
    var request := Request(head.httpMethod.value, head.path.value, None);
    if IsBodyMethod(request.httpMethod) {
      if head.contentLength < 0 || head.contentLength == IntMax {
        return Undefined(BadBodyLength);
      }
      var body, status := ReadBody(conn, head.contentLength);
      if status == Failed {
        return Aborted(ReadingBody);
      }
      if status == Stalled {
        return Stalls;
      }
      request := request.(body := Some(body[..head.contentLength]));
    }
    var response := new Response();
    if writer == AsWritten {
      response.WriteAsWritten(handler(request));
    } else {
      response.Write(handler(request));
    }
    outcome := Send(request, response.State());
  }

  // ---- what a cycle guarantees ------------------------------------------------

  /** A failed first read closes the socket: no handler call and nothing sent. */
  lemma ReadErrorSendsNothing(pending: seq<Delivery>, stack: string, handler: Request -> WriterArgs, writer: Writer)
    requires |stack| == BufferSize
    requires pending != [] && pending[0].Failure?
    ensures Cycle(pending, stack, handler, writer) == Aborted(ReadingRequest)
  {
  }

  /** The parsed request reaches the body loop: no hazard so far, a body method and a usable length. */
  predicate ExpectsBody(head: RequestHead)
  {
    && head.lengthInRange && head.httpMethod.Some? && head.path.Some?
    && IsBodyMethod(head.httpMethod.value)
    && 0 <= head.contentLength && head.contentLength != IntMax
  }

  /**
   * The handler is called exactly when `Prepare` reaches it, whichever
   * writer runs: only then does the cycle respond or send a freed body.
   */
  lemma HandlerCalledWhenPrepared(head: RequestHead, after: seq<Delivery>, handler: Request -> WriterArgs, writer: Writer)
    ensures Prepare(head, after).Handle?
        <==> (Dispatch(head, after, handler, writer).Responded? || Dispatch(head, after, handler, writer) == Undefined(FreedBodySent))
    ensures Prepare(head, after).Handle? ==> Dispatch(head, after, handler, writer) == Respond(Prepare(head, after).request, handler, writer)
  {
  }

  /**
   * The request the handler is called with, for either writer, carries the
   * parsed method and path, and has a body exactly when its method is POST,
   * PUT or PATCH; that body is the next content_length bytes of the stream,
   * so it is empty, not missing, when the length is 0.
   */
  lemma HandlerRequest(head: RequestHead, after: seq<Delivery>)
    requires WellFormed(after)
    requires Prepare(head, after).Handle?
    ensures var req := Prepare(head, after).request;
      && head.httpMethod == Some(req.httpMethod) && head.path == Some(req.path)
      && (req.body.Some? <==> IsBodyMethod(req.httpMethod))
      && (req.body.Some? ==>
            && ExpectsBody(head)
            && |req.body.value| == head.contentLength <= |Stream(after)|
            && req.body.value == Stream(after)[..head.contentLength])
  {
    if ExpectsBody(head) {
      var n := head.contentLength;
      BodyStatusFromStream(after, n);
      BodyDataFromStream(after, n);
    }
  }

  /** The same for a responding cycle: what it responds to is that request. */
  lemma BodyOnlyForBodyMethods(head: RequestHead, after: seq<Delivery>, handler: Request -> WriterArgs, writer: Writer)
    requires WellFormed(after)
    requires Dispatch(head, after, handler, writer).Responded?
    ensures var req := Dispatch(head, after, handler, writer).request;
      && head.httpMethod == Some(req.httpMethod) && head.path == Some(req.path)
      && (req.body.Some? <==> IsBodyMethod(req.httpMethod))
      && (req.body.Some? ==>
            && ExpectsBody(head)
            && |req.body.value| == head.contentLength <= |Stream(after)|
            && req.body.value == Stream(after)[..head.contentLength])
  {
    HandlerCalledWhenPrepared(head, after, handler, writer);
    HandlerRequest(head, after);
  }

  /**
   * Once the body loop is reached, a socket error before the body is complete
   * ends the cycle with nothing sent and no handler call; a close before the
   * end leaves the C loop spinning.
   */
  lemma BodyReadErrorSendsNothing(head: RequestHead, after: seq<Delivery>, handler: Request -> WriterArgs, writer: Writer)
    requires WellFormed(after) && ExpectsBody(head)
    ensures Dispatch(head, after, handler, writer) == Aborted(ReadingBody)
        <==> (|Stream(after)| < head.contentLength && Fails(after))
    ensures Dispatch(head, after, handler, writer) == Stalls
        <==> (|Stream(after)| < head.contentLength && !Fails(after))
  {
    BodyStatusFromStream(after, head.contentLength);
    var outcome := Dispatch(head, after, handler, writer);
    match BodySpec(after, head.contentLength).status
    case Complete => assert outcome.Responded? || outcome.Undefined?;
    case Failed => assert outcome == Aborted(ReadingBody);
    case Stalled => assert outcome == Stalls;
  }

  /**
   * With the corrected writer, what is sent is the header block (cut to 511
   * characters if longer) followed directly by strlen(body) bytes of the body.
   */
  lemma ResponseIsHeadersThenBody(head: RequestHead, after: seq<Delivery>, handler: Request -> WriterArgs)
    requires Dispatch(head, after, handler, Corrected).Responded?
    ensures var out := Dispatch(head, after, handler, Corrected);
      var args := handler(out.request);
      out.sent == Truncated(HeaderText(args.statusCode, CStr(args.contentType), |CStr(args.body)|)) + CStr(args.body)
  {
    var req := Dispatch(head, after, handler, Corrected).request;
    RespondSends(req, handler);
  }

  /** The corrected writer always lets the sends go through. */
  lemma RespondSends(req: Request, handler: Request -> WriterArgs)
    ensures var args := handler(req);
      Respond(req, handler, Corrected)
        == Responded(req, Truncated(HeaderText(args.statusCode, CStr(args.contentType), |CStr(args.body)|)) + CStr(args.body))
  {
    var state := Written(handler(req));
    assert state.body.bytes[..state.bodyLength] == state.body.bytes;
  }

  /**
   * write_response as written frees the body it has just copied, and
   * handle_request then sends from it: every cycle that would respond reads
   * freed memory instead, and none responds.
   */
  lemma UseAfterFree(pending: seq<Delivery>, stack: string, handler: Request -> WriterArgs)
    requires |stack| == BufferSize
    ensures !Cycle(pending, stack, handler, AsWritten).Responded?
    ensures Cycle(pending, stack, handler, Corrected).Responded?
        ==> Cycle(pending, stack, handler, AsWritten) == Undefined(FreedBodySent)
  {
    var first := FirstRead(pending);
    if first.count >= 0 && NUL in Received(pending, stack) {
      DispatchUseAfterFree(ParseHead(CStr(Received(pending, stack))), first.after, handler);
    }
  }

  lemma DispatchUseAfterFree(head: RequestHead, after: seq<Delivery>, handler: Request -> WriterArgs)
    ensures !Dispatch(head, after, handler, AsWritten).Responded?
    ensures Dispatch(head, after, handler, Corrected).Responded?
        ==> Dispatch(head, after, handler, AsWritten) == Undefined(FreedBodySent)
  {
  }

  /** The handler of main.c. */
  function PostHandler(request: Request): WriterArgs
  {
    WriterArgs(404, "text/plain", "Hello, world!")
  }

  /**
   * Whatever the request, the server of main.c with write_response's final
   * free removed (`Corrected`) answers with these bytes. As written it sends
   * a freed body instead (`UseAfterFree`).
   */
  lemma ExampleServerResponse(req: Request)
    ensures Respond(req, PostHandler, Corrected)
         == Responded(req, "HTTP/1.1 404 Not Found" + "\r\n" + "Content-Type: text/plain" + "\r\n" + "Content-Length: 13" + "\r\n"
                           + "Hello, world!")
  {
    CStrOfText("text/plain");
    CStrOfText("Hello, world!");
    ExampleHeaders();
    HeadersFit(404, "text/plain", 13);
    RespondSends(req, PostHandler);
  }

  /**
   * A client that closes without sending anything, when the uninitialised
   * buffer happens to start with NUL: the empty request has no method, so
   * handle_request reaches strdup(NULL). (Other stack contents may spell a
   * method, or hold no NUL at all.)
   */
  lemma EmptyRequestIsUndefined(stack: string, handler: Request -> WriterArgs, writer: Writer)
    requires |stack| == BufferSize && stack[0] == NUL
    ensures Cycle([], stack, handler, writer) == Undefined(MissingToken)
  {
    assert Received([], stack) == stack;
    CStrAtOfStretch(stack, 0, 0);
    assert stack[0..0] == [];
    assert Strtok.Tokens([], CRLF) == [];
  }

  /**
   * A POST, PUT or PATCH with content_length 0 still gets a body: the
   * malloc(1) buffer holding only its NUL, handed to the handler as an empty body.
   */
  lemma ZeroLengthBody(verb: string, path: string, after: seq<Delivery>, handler: Request -> WriterArgs, writer: Writer)
    requires IsBodyMethod(verb)
    ensures Dispatch(RequestHead(Some(verb), Some(path), 0, true), after, handler, writer)
         == Respond(Request(verb, path, Some([])), handler, writer)
  {
    var body := BodySpec(after, 0);
    assert body.status == Complete && body.data == [];
    assert Dispatch(RequestHead(Some(verb), Some(path), 0, true), after, handler, writer)
        == Respond(Request(verb, path, Some(body.data)), handler, writer);
  }

  /**
   * A request that arrives in one piece shorter than the buffer, with a NUL
   * left on the stack right after it, is parsed exactly as sent.
   */
  lemma CycleOfRequest(text: string, stack: string, handler: Request -> WriterArgs, writer: Writer)
    requires NUL !in text && text != []
    requires |stack| == BufferSize && |text| < BufferSize && stack[|text|] == NUL
    ensures Cycle([Data(text)], stack, handler, writer) == Dispatch(ParseHead(text), [], handler, writer)
  {
    var pending := [Data(text)];
    assert FirstRead(pending) == ReadStep(|text|, text, []);
    var buffer := Received(pending, stack);
    assert buffer[..|text|] == text;
    assert buffer[0..|text|] == text;
    CStrAtOfStretch(buffer, 0, |text|);
    assert RequestText(buffer) == Some(text);
  }

  /**
   * The POST of a length declared on a header line, with write_response's
   * final free removed (`Corrected`): the cycle responds after reading an
   * empty body, so none of the bytes the client sent as its body reach the
   * handler. (As written, the handler is called with that same request, since
   * `Prepare` does not depend on the writer.)
   */
  lemma PostBodyIsNotRead(n: nat, body: string, stack: string, handler: Request -> WriterArgs)
    requires NUL !in body
    requires var text := "POST /p HTTP/1.1" + "\r\nContent-Length: " + DecimalNat(n) + "\r\n\r\n" + body;
      && |stack| == BufferSize && |text| < BufferSize && stack[|text|] == NUL
    ensures var text := "POST /p HTTP/1.1" + "\r\nContent-Length: " + DecimalNat(n) + "\r\n\r\n" + body;
      var out := Cycle([Data(text)], stack, handler, Corrected);
      out.Responded? && out.request == Request("POST", "/p", Some([]))
  {
    var text := "POST /p HTTP/1.1" + "\r\nContent-Length: " + DecimalNat(n) + "\r\n\r\n" + body;
    assert NUL !in text by {
      DigitsAvoid(n, {NUL});
      TextAvoidsNul("POST /p HTTP/1.1" + "\r\nContent-Length: ", DecimalNat(n), "\r\n\r\n" + body);
    }
    var head := RequestHead(Some("POST"), Some("/p"), 0, true);
    var req := Request("POST", "/p", Some([]));
    assert Dispatch(head, [], handler, Corrected) == Respond(req, handler, Corrected) by {
      assert IsBodyMethod("POST");
      ZeroLengthBody("POST", "/p", [], handler, Corrected);
    }
    RespondSends(req, handler);
    assert Cycle([Data(text)], stack, handler, Corrected) == Dispatch(head, [], handler, Corrected) by {
      CycleOfRequest(text, stack, handler, Corrected);
      HeaderLineIsNotScanned(n, body);
    }
  }

  lemma TextAvoidsNul(a: string, b: string, c: string)
    requires NUL !in a && Avoids(b, {NUL}) && NUL !in c
    ensures NUL !in a + b + c
  {
    assert forall j :: 0 <= j < |b| ==> b[j] != NUL;
  }
}
