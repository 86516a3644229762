# A verified model of a minimal threaded HTTP/1.1 server core

This project models the request-response cycle of a small HTTP/1.1 server
written in C (`main.h`); `main.c` only adds the example handler. One worker
runs `handle_request` on each accepted client socket. It does one `read(2)`
into a 1024-byte stack buffer and copies the buffer with `strdup`. It splits
the copy with `strtok`: the request line is the first CRLF token, and the
method and path are its first two space tokens. It then scans further CRLF
tokens for `Content-Length:`. For POST, PUT and PATCH it reads that many body
bytes in a loop. It calls the handler and sends the headers and the body that
the handler built through `write_response`.

The model follows the C code rather than the protocol it aims at. The
properties proved about it are these:

- `strtok` keeps a single hidden cursor. So `strtok(request_line, " ")`
  restarts it inside the request line, and the header loop never reaches a
  header line. `content_length` is 0 unless the request line itself carries
  `Content-Length:` after the path.
- A POST, PUT or PATCH always gets a body buffer, even for length 0.
- The body, when there is one, is the next `content_length` bytes of the
  stream, however the bytes are split across reads.
- A read error ends the cycle with no handler call and nothing sent.
- The response header block is three CRLF-terminated lines in a 512-byte
  buffer, with no blank line after them.

Module layout, one module per file:

- `Wrappers`: `Option`.
- `CLib`: the C library functions.
  - The C string a pointer denotes (`strlen`, `strdup`).
  - `atoi`.
  - The `%d` and `%lu` conversions of `snprintf`.
- `Strtok`: `strtok`.
  - As a pure function, `Tokens`.
  - As the in-place algorithm, class `Tokenizer`: a buffer it overwrites with
    NULs and the cursor every call shares.
- `Socket`: the client socket as a list of deliveries, and `read(2)` on it
  (class `Connection`).
- `RequestReader`: parsing the request and the body loop.
- `ResponseWriter`: `write_response` (class `Response`).
- `Worker`: one whole cycle of `handle_request`.

In three places the C code behaves differently from what HTTP, or a reader
of the code, would expect. The model follows the code each time:

- **Header lines.** A server following section 8.6 of RFC 9110 takes the
  body length from a `Content-Length` header field, which sits on a line
  after the request line. The shared `strtok` cursor means this server never
  reaches those lines (`RequestReader.HeaderLineIsNotScanned`).
- **Negative `Content-Length`.** A negative value is not turned into 0 or
  rejected. It reaches `malloc(content_length + 1)` and
  `body[content_length]`, which the model reports as the hazard
  `BadBodyLength`.
- **Length 0.** A POST, PUT or PATCH with length 0 still gets a body buffer,
  allocated and terminated, rather than no body (`Worker.ZeroLengthBody`).

Behaviour the C standard leaves undefined ends a cycle with the outcome
`Undefined(hazard)`; the model neither assumes it away nor guesses what it
would do. The hazards are:

- a request buffer with no NUL, which `printf` and `strdup` read past;
- a length that `atoi` cannot fit in an `int`;
- a missing method or path, which reaches `strdup(NULL)`;
- a negative or `INT_MAX` body length;
- sending a body that has already been freed.

## Model

| member | source | states |
|---|---|---|
| CLib.NulFrom | main.h:251 | strlen stops at the first NUL at or after the start, or at the end of the buffer; nothing before it is NUL |
| CLib.NulFromUnique | main.h:251 | that stopping point is the only index that fits this description |
| CLib.CStrAt | main.h:67-69 | the string a pointer into a buffer denotes: the NUL-free stretch from there up to the next NUL |
| CLib.CStr | main.h:65 | strdup copies exactly the characters before the first NUL; the copy holds no NUL |
| CLib.CStrAtOfStretch | main.h:65 | a NUL-free stretch ended by a NUL is the C string that starts there |
| CLib.TerminatedFrame | main.h:84-85 | a NUL-terminated string survives any change that leaves its characters and its NUL alone |
| CLib.SkipSpaces | main.h:78 | atoi's leading white space: the result is a suffix, everything dropped is a space, and the result never starts with one |
| CLib.DigitRun | main.h:78 | the digits atoi reads: the longest prefix made only of digits |
| CLib.AtoiSkipsSpaces | main.h:78 | leading white space does not change what atoi returns |
| CLib.Atoi | main.h:78 | atoi in the "C" locale: leading white space, an optional sign, then the longest run of digits, read as a decimal number (0 when there is none) |
| CLib.AtoiWithoutDigits | main.h:78 | with no digit after the optional sign, atoi returns 0 |
| CLib.AtoiOfDigits | main.h:78 | atoi of a digit string followed by a non-digit is the value of the digits |
| CLib.AtoiOfNegative | main.h:78 | atoi of a minus sign and digits is minus the value of the digits |
| CLib.DecimalNat | main.h:271 | `%lu` writes a non-empty string of digits with no leading zero |
| CLib.Decimal | main.h:271 | `%d` writes digits after an optional minus sign, and agrees with `%lu` on non-negative values |
| CLib.DigitsValueOfDecimal | main.h:271 | the digits `%lu` writes spell the number it was given |
| CLib.AtoiOfDecimal | main.h:78 | atoi reads back any number `%d` writes, whatever non-digit text follows it |
| Strtok.Skip | main.h:67 | strspn stays inside the string |
| Strtok.SkipStops | main.h:67 | strspn passes over delimiters only and stops at the first non-delimiter or at the end |
| Strtok.SkipUnique | main.h:67 | that stopping point is unique |
| Strtok.RunStops | main.h:67 | strcspn passes over non-delimiters only and stops at the first delimiter or at the end |
| Strtok.RunUnique | main.h:67 | that stopping point is unique |
| Strtok.FirstToken | main.h:67 | a strtok step leaves strictly less text behind, so tokenising terminates |
| Strtok.FirstTokenFacts | main.h:67-69 | strtok finds no token exactly when the text is all delimiters; any token it finds is a non-empty run without delimiters |
| Strtok.FirstTokenIsFirstRun | main.h:67 | the token is the first maximal run; the leading delimiters come before it, and what follows starts after the one delimiter that ended the token |
| Strtok.TokensAreRuns | main.h:73 | strtok never returns an empty token or one holding a delimiter |
| Strtok.FirstTokenAt | main.h:67 | the first token is fixed by where it starts and where it ends |
| Strtok.Tokens | main.h:67-73 | the tokens that successive strtok calls with one delimiter set return, in order, until the first NULL |
| Strtok.SkipLeading | main.h:67 | leading delimiters do not change the first token or what follows it |
| Strtok.TokensSkipLeading | main.h:73 | leading delimiters do not change the token sequence |
| Strtok.FirstTokenOfRun | main.h:67 | a run followed by a delimiter is the first token, and the rest starts after that delimiter |
| Strtok.TokensCons | main.h:73 | a run followed by one or more delimiters is the first token, and tokenising goes on with what follows |
| Strtok.TokensOfLines | main.h:73 | tokenising CRLF-terminated lines gives the lines back, so the token sequence inverts the line joining |
| Strtok.TokensWithoutDelims | main.h:73 | text with no delimiter is at most one token: the text itself |
| Strtok.SpanFrom | main.h:67 | in the buffer, strspn stays before the terminating NUL |
| Strtok.SpanStops | main.h:67 | in the buffer, strspn passes over delimiters and stops at NUL or a non-delimiter |
| Strtok.BreakFrom | main.h:67 | in the buffer, strpbrk stays within the buffer |
| Strtok.BreakStops | main.h:67 | in the buffer, strpbrk passes over non-delimiters and stops at NUL or a delimiter |
| Strtok.Step | main.h:67-73 | one strtok call on the buffer from a cursor: skip delimiters with strspn; at NUL return NULL; else find the token's end with strpbrk, overwrite a delimiter there with NUL and move the cursor past it |
| Strtok.StepFrame | main.h:67-73 | a strtok call writes nothing before its starting point, never changes a NUL, and leaves its cursor inside the buffer |
| Strtok.StepAtEnd | main.h:73 | when only delimiters remain, strtok returns NULL and parks the cursor on the NUL, so every later call returns NULL too |
| Strtok.StepAtToken | main.h:67-73 | otherwise strtok returns the first token, NUL-terminated in place, and the cursor points at the text after that token's delimiter |
| Strtok.StepMeaning | main.h:67-73 | a strtok call returns a token exactly when the C string at its start holds one; afterwards the cursor points at the rest, or at an empty string |
| Strtok.StepKeeps | main.h:68-73 | a token strtok returned earlier is kept intact by later calls that start after it |
| Strtok.Tokenizer.constructor | main.h:65 | strdup: a fresh buffer holding the request text followed by its NUL |
| Strtok.Tokenizer.Span | main.h:67 | the strspn loop ends where strspn's definition says |
| Strtok.Tokenizer.Break | main.h:67 | the strpbrk loop ends where its definition says |
| Strtok.Tokenizer.Next | main.h:67-73 | strtok(s, delims), or strtok(NULL, delims) from the shared cursor: the token it returns, the buffer with the one delimiter overwritten by NUL, and the new cursor, exactly as one step prescribes |
| Socket.ReadFrom | main.h:97 | read(2): -1 exactly when the next delivery is an error; at most the requested count, equal to the bytes delivered; 0 only once the peer has closed; the stream after the read is the stream before, minus those bytes |
| Socket.Patched | main.h:97 | the buffer after a read: the same length, the bytes read at the offset, and everything else unchanged |
| Socket.Connection.Read | main.h:97 | read(fd, buf + off, n) returns what `ReadFrom` prescribes, consumes that from the socket, and stores those bytes at `buf[off..]` and nothing else |
| RequestReader.Update | main.h:76-79 | one header line: a line starting with "Content-Length:" sets the length to atoi of the rest, noting whether it fits an int; any other line changes nothing |
| RequestReader.Declare | main.h:73-81 | the header loop over a sequence of lines: `Update` applied to each line in turn |
| RequestReader.ParseHead | main.h:65-81 | the parse on the request text: the request line is the first CRLF token, the method and path its first two space tokens, and the length is `Declare` over the CRLF tokens left after the path |
| RequestReader.DeclareWithoutHeader | main.h:72-81 | without a Content-Length line, content_length keeps its initial value |
| RequestReader.DeclareIsLast | main.h:73-81 | the length the header loop settles on is atoi of the last Content-Length line |
| RequestReader.ScansAtMostOneLine | main.h:67-73 | because strtok's cursor resumes inside the request line, the header loop sees at most one line: what follows the path on the request line |
| RequestReader.LengthComesFromRequestLine | main.h:67-81 | content_length is atoi of the text after the path on the request line if that text starts with "Content-Length:", and 0 otherwise |
| RequestReader.ParseHeadByLine | main.h:67-81 | the parse depends on the request line alone |
| RequestReader.FirstLineIs | main.h:67 | the request line is the first CR/LF-free run after any leading CR and LF |
| RequestReader.OnlyRequestLineCounts | main.h:67-81 | nothing after the request line's terminator influences the method, the path or the length |
| RequestReader.FirstWord | main.h:68-69 | a word followed by a space is the first space-delimited token |
| RequestReader.ParseHeadOfLine | main.h:67-81 | the request line "METHOD PATH TAIL" yields METHOD and PATH, and the header loop sees TAIL as its one line |
| RequestReader.ScanStep | main.h:73-80 | one turn of the header loop, on the buffer as strtok leaves it, moves one line from the text still to scan into the length |
| RequestReader.ScanHeaders | main.h:71-81 | the header loop returns the length `Declare` gives for the lines left at the cursor; it writes nothing before the cursor, removes no NUL, and leaves the cursor at an empty C string |
| RequestReader.ScanLine | main.h:73-80 | one turn of the header loop on the tokenizer: it keeps the loop on course for the same final length, and either shortens the text still to scan or reports that strtok returned NULL with nothing left |
| RequestReader.TokenStep | main.h:67-73 | a strtok call in terms of the C string at its starting point |
| RequestReader.ParseRequest | main.h:65-88 | strdup and the strtok calls give exactly the method, path and length that `ParseHead` describes |
| RequestReader.HeaderLineIsNotScanned | main.h:67-81 | "POST /p HTTP/1.1\r\nContent-Length: N\r\n\r\n..." parses to POST, /p and length 0, whatever N is |
| RequestReader.UpdateWithNumeral | main.h:76-78 | a "Content-Length:" line followed by the numeral of n declares n |
| RequestReader.LengthOnRequestLine | main.h:67-81 | "GET /x Content-Length:N" declares length N, since that text is the one line the loop sees |
| RequestReader.BodyStatusFromStream | main.h:94-109 | the body loop completes exactly when enough bytes arrive; otherwise it fails if the connection reports an error and stalls if it closes |
| RequestReader.BodyDataFromStream | main.h:94-111 | a complete body is the first content_length bytes of the stream, and the socket keeps the rest |
| RequestReader.BodyIgnoresChunking | main.h:94-109 | two connections delivering the same bytes and the same errors give the same outcome and body, however the bytes are split across reads |
| RequestReader.BodyStep | main.h:96-108 | one successful read moves its bytes from the socket to the end of the stored prefix, keeping the loop on course for the same final body |
| RequestReader.BodySpec | main.h:91-109 | the body loop on the socket: reads for the bytes still missing until content_length have arrived, ending Failed at a -1 read and Stalled at a 0 read; it gives the bytes read and the socket left |
| RequestReader.ReadBody | main.h:91-111 | malloc(content_length + 1) and the read loop: the outcome the body specification gives, the socket it leaves, and on success the body bytes followed by NUL at index content_length |
| ResponseWriter.Reason | main.h:253-268 | 200 gives "OK", 404 "Not Found", 500 "Internal Server Error", and every other code "Unknown", each in both directions |
| ResponseWriter.StatusLine | main.h:271 | the first line of the format: "HTTP/1.1 ", the status code as `%d`, a space and the reason phrase |
| ResponseWriter.TypeLine | main.h:271 | the second line: "Content-Type: " and the content type |
| ResponseWriter.LengthLine | main.h:271 | the third line: "Content-Length: " and the body length as `%lu` |
| ResponseWriter.HeaderText | main.h:271 | the text snprintf formats with room enough: the three lines, each followed by CRLF |
| ResponseWriter.Truncated | main.h:270-271 | snprintf into headers[512] keeps the whole text when it is shorter than 512, and otherwise exactly its first 511 characters |
| ResponseWriter.Nuls | main.h:274 | strncpy's padding: n NUL characters |
| ResponseWriter.HeaderBuffer | main.h:273-274 | malloc(headers_length + 1) filled by strncpy: one more character than the text, holding as a C string exactly what snprintf kept |
| ResponseWriter.ReasonAvoids | main.h:253-268 | no reason phrase holds NUL, CR or LF |
| ResponseWriter.StatusLineAvoids | main.h:271 | the status line holds no NUL, CR or LF |
| ResponseWriter.LinesAvoid | main.h:271 | each header line holds no NUL, CR or LF if the content type holds none |
| ResponseWriter.HeaderTextHasNoNul | main.h:271 | the formatted header text holds no NUL, so strlen(headers) covers what snprintf kept |
| ResponseWriter.Written | main.h:248-274 | the response after write_response: the code and content type as given, the body is the strdup copy, body_length is strlen(body), and the headers are the snprintf text cut to 511 characters |
| ResponseWriter.Response.constructor | main.h:115 | `http_response_t response;`, before the handler fills it |
| ResponseWriter.Response.Write | main.h:246-277 | write_response with its final free removed leaves exactly the state `Written` gives |
| ResponseWriter.Response.WriteAsWritten | main.h:246-279 | write_response as written leaves that state with the body already freed |
| ResponseWriter.HeaderLines | main.h:271 | the header block is three CRLF-terminated lines (status, Content-Type, Content-Length), and strtok on CRLF reads exactly those three lines back |
| ResponseWriter.LengthLineReadsBack | main.h:271 | the Content-Length line the writer emits, read by the parser's own rule at main.h:76-78, declares the body length |
| ResponseWriter.NoBlankLine | main.h:271 | the header block ends with the CRLF of the Content-Length line right after a digit, so no empty line separates the headers from the body |
| ResponseWriter.DecimalNatLength | main.h:271 | a number below 10^k has at most k digits |
| ResponseWriter.HeadersFit | main.h:270-271 | with a 32-bit status code, a 64-bit body length and a content type of at most 400 characters, the text is under 512 characters and nothing is cut |
| ResponseWriter.ExampleHeaders | main.c:4 | the header text for 404, "text/plain" and length 13 is "HTTP/1.1 404 Not Found", "Content-Type: text/plain" and "Content-Length: 13", each ended by CRLF |
| Worker.IsBodyMethod | main.h:89 | the methods that get a body: exactly "POST", "PUT" and "PATCH" |
| Worker.Received | main.h:53-54 | the request buffer after the first read: 1024 characters, the bytes read, then whatever the stack held |
| Worker.RequestText | main.h:63-65 | strdup(buffer) is defined exactly when the buffer holds a NUL, and then copies the NUL-free text before it |
| Worker.Send | main.h:118-129 | the two sends: strlen(headers) header bytes then body_length body bytes, or the hazard `FreedBodySent` when the body has been freed |
| Worker.Respond | main.h:115-129 | the handler call, write_response as written or corrected, then the sends |
| Worker.Prepare | main.h:78-113 | the cycle from the parsed head up to the handler call: a length that does not fit an int, a missing method or path, or a negative or INT_MAX body length ends it as undefined; a failed or stalled body loop ends it; otherwise the handler gets the method, the path and, for POST, PUT and PATCH, the body read |
| Worker.Dispatch | main.h:78-129 | the cycle from the parsed head on: where `Prepare` stops, or `Respond` on the request it hands over |
| Worker.Cycle | main.h:51-129 | a whole cycle: a failed first read aborts it, a buffer without NUL is undefined, otherwise `Dispatch` on the parsed text and the rest of the socket |
| Worker.HandleRequest | main.h:51-88 | the first read, the NUL check and the parse followed by `Serve` end exactly as `Cycle` says, with write_response as written (`AsWritten`, so every cycle that reaches the handler ends sending a freed body) or corrected, as chosen by `writer` |
| Worker.Serve | main.h:83-129 | the checks, the body loop, the handler and the sends end exactly as `Dispatch` says, calling `Response.WriteAsWritten` or `Response.Write` as `writer` chooses |
| Worker.ReadErrorSendsNothing | main.h:54-61 | a failed first read aborts the cycle, with no handler call and nothing sent |
| Worker.HandlerCalledWhenPrepared | main.h:83-129 | for each writer, the cycle responds or sends a freed body exactly when the handler is called, and then it is `Respond` on the request `Prepare` hands over |
| Worker.HandlerRequest | main.h:83-116 | for either writer, the request the handler is called with carries the parsed method and path, and a body exactly when the method is POST, PUT or PATCH; that body is the next content_length bytes of the stream |
| Worker.BodyOnlyForBodyMethods | main.h:83-113 | in a cycle that responds, the handler saw the parsed method and path and a body exactly when the method is POST, PUT or PATCH; that body is the next content_length bytes of the stream |
| Worker.BodyReadErrorSendsNothing | main.h:94-106 | once the body loop runs, the cycle aborts with nothing sent exactly when the stream is short and the connection reports an error, and stalls exactly when the stream is short and the peer closes |
| Worker.ResponseIsHeadersThenBody | main.h:116-129 | with write_response's final free removed (`Corrected`), what is sent is the header block, cut to 511 characters if longer, followed directly by strlen(body) bytes of the body |
| Worker.RespondSends | main.h:116-129 | with the body kept alive, the handler call and both sends always respond, with the headers then the body |
| Worker.UseAfterFree | main.h:118-129 | with write_response as written, no cycle responds, and every cycle that the corrected writer completes sends a freed body instead |
| Worker.DispatchUseAfterFree | main.h:118-129 | the same, from the point after parsing |
| Worker.PostHandler | main.c:2-5 | the example handler: whatever the request, write_response(404, "text/plain", "Hello, world!") |
| Worker.ExampleServerResponse | main.c:2-5 | with write_response's final free removed (`Corrected`), whatever the request, the example handler's response is exactly the 404 header block followed by "Hello, world!" |
| Worker.EmptyRequestIsUndefined | main.h:53-84 | a client that sends nothing, when the uninitialised buffer starts with NUL, leaves no method token, so the cycle reaches strdup(NULL) |
| Worker.ZeroLengthBody | main.h:89-112 | a POST, PUT or PATCH with content_length 0 still hands the handler a body: the empty one |
| Worker.CycleOfRequest | main.h:53-65 | a request delivered in one piece shorter than the buffer, with a NUL on the stack right after it, is parsed exactly as sent |
| Worker.PostBodyIsNotRead | main.h:67-113 | with write_response's final free removed (`Corrected`), a POST that declares its length on a header line gets an empty body; none of the bytes it sent as its body reach the handler |

## Left out

- Sockets, `accept`, `bind`, `listen` and `setsockopt` (main.h:185-245) are
  left out: they are I/O. The model starts from an accepted connection
  already described as a list of deliveries.
- The thread pool and its mutex (main.h:148-183, 233-241) are left out as
  concurrency. So is the write to `threads[thread_count - 1]` at main.h:240.
  The counter starts at the 20 of main.c:13 (main.h:174), and the array has
  20 slots (main.h:176). The first accept raises the counter to 21
  (main.h:237), so every connection writes at or past `threads[20]`, one past
  the end.
- The process-wide state of `strtok` is left out. Each request gets its own
  `Tokenizer`, as if no other thread called `strtok` at the same time; the C
  code gives no such guarantee.
- `printf`, `perror` and `close` are left out: they are output and do not
  affect the cycle. The second `close` (main.h:155 after main.h:59) is left
  out with them.
- `free` is modelled only where it matters: the body that write_response
  frees before it is sent. The other frees release memory that is never
  used again.
- `malloc` and `strdup` are assumed to succeed.
- `send` is assumed to send the whole buffer in one call. Its error paths
  (main.h:119-127, 130-138) are left out: they only close and free.
- `body_fd` is left out: it is always -1 and nothing reads it.
- `sigint_handler` and `exit` are left out: they concern process control.
- Socket.ReadFrom: read(2) is modelled only for a positive count. Every call
  in the source asks for at least one byte.
- RequestReader.ReadBody: a read that returns 0 leaves the C loop spinning
  forever (main.h:108). The model stops with the status `Stalled` rather
  than running forever.
- Characters stand for bytes. There is no encoding; `atoi` and `isspace`
  follow the "C" locale.
- Worker.Received: the stack contents of `buffer` before the read are a
  parameter, because C leaves them uninitialised.
- The handler is a pure function from the request to the three arguments it
  passes to write_response. A handler that does not call write_response
  leaves `response` uninitialised; that case is not modelled.
- Integer widths: `content_length` is a C `int`, checked through `FitsInt`.
  A `ssize_t` overflow of `total_bytes_read` cannot happen below `INT_MAX`.
  `body_length` is a `size_t`, shown by `%lu`, and is treated as unbounded.

## Findings

| source | as written | input that shows it | evidently intended | confidence | as-written member | corrected member |
|---|---|---|---|---|---|---|
| main.h:278 | write_response frees `response->body` as its last act, and handle_request then sends `response->body_length` bytes from that freed block (main.h:129) | any request that reaches the handler, for instance "GET / HTTP/1.1" | keep the body copy alive until the send, and free it in handle_request afterwards | not executed | ResponseWriter.Response.WriteAsWritten, Worker.UseAfterFree | ResponseWriter.Response.Write, Worker.ResponseIsHeadersThenBody |
