/**
 * write_response (main.h:246-279): fills an http_response_t from a status
 * code, a content type and a body. The header block is formatted by snprintf
 * into a 512-byte stack buffer and copied to the heap with strncpy.
 */
module ResponseWriter {
  import opened CLib
  import opened Strtok
  import RequestReader

  /** The three arguments a handler passes to write_response (http_response_writer_t). */
  datatype WriterArgs = WriterArgs(statusCode: CInt, contentType: string, body: string)

  /** The reason phrase chosen by the switch on the status code. */
  function Reason(code: int): (r: string)
    ensures r == "OK" <==> code == 200
    ensures r == "Not Found" <==> code == 404
    ensures r == "Internal Server Error" <==> code == 500
    ensures r == "Unknown" <==> code != 200 && code != 404 && code != 500
  {
    if code == 200 then "OK"
    else if code == 404 then "Not Found"
    else if code == 500 then "Internal Server Error"
    else "Unknown"
  }

  /** The first line the format string produces: `HTTP/1.1 %d %s`. */
  function StatusLine(code: int): string
  {
    "HTTP/1.1 " + Decimal(code) + " " + Reason(code)
  }

  /** The second line: `Content-Type: %s`. */
  function TypeLine(contentType: string): string
  {
    "Content-Type: " + contentType
  }

  /** The third line: `Content-Length: %lu`. */
  function LengthLine(bodyLength: nat): string
  {
    "Content-Length: " + DecimalNat(bodyLength)
  }

  /**
   * The whole text of the format string
   * `HTTP/1.1 %d %s\r\nContent-Type: %s\r\nContent-Length: %lu\r\n`,
   * as snprintf would write it given room enough.
   */
  function HeaderText(code: int, contentType: string, bodyLength: nat): string
  {
    StatusLine(code) + "\r\n" + TypeLine(contentType) + "\r\n" + LengthLine(bodyLength) + "\r\n"
  }

  /** sizeof(headers). */
  const HeaderCapacity: nat := 512

  /** What snprintf leaves in headers[512] before its NUL: at most 511 characters of the text. */
  function Truncated(text: string): (r: string)
    ensures |r| <= |text| && |r| < HeaderCapacity && r == text[..|r|]
    ensures |text| < HeaderCapacity ==> r == text
    ensures |text| >= HeaderCapacity ==> |r| == HeaderCapacity - 1
  {
    if |text| < HeaderCapacity then text else text[..HeaderCapacity - 1]
  }

  /** `n` NUL characters: the padding strncpy writes after the source string ends. */
  function Nuls(n: nat): (r: string)
    ensures |r| == n && forall j :: 0 <= j < n ==> r[j] == NUL
  {
    seq(n, _ => NUL)
  }

  /**
   * response->headers: malloc(headers_length + 1), where headers_length is
   * the full length snprintf reports, filled by strncpy(.., headers,
   * headers_length + 1) -- the kept text, then NULs up to the end.
   */
  function HeaderBuffer(text: string): (b: string)
    requires NUL !in text
    ensures |b| == |text| + 1
    ensures CStr(b) == Truncated(text)
  {
    var kept := Truncated(text);
    var b := kept + Nuls(|text| + 1 - |kept|);
    assert b[..|kept|] == kept;
    CStrAtOfStretch(b, 0, |kept|);
    b
  }

  /** The heap copy of the body: still allocated, or already given back by free. */
  datatype Storage = Live(bytes: string) | Freed

  /** The fields of an http_response_t. */
  datatype ResponseState = ResponseState(
    statusCode: int,
    contentType: string,
    body: Storage,
    bodyLength: nat,
    headers: string)

  /** No character of `s` is one of `chars`. */
  predicate Avoids(s: string, chars: set<char>)
  {
    forall j :: 0 <= j < |s| ==> s[j] !in chars
  }

  lemma AvoidsConcat(a: string, b: string, chars: set<char>)
    requires Avoids(a, chars) && Avoids(b, chars)
    ensures Avoids(a + b, chars)
  {
    forall j | |a| <= j < |a + b| ensures (a + b)[j] !in chars {
      assert (a + b)[j] == b[j - |a|];
    }
  }

  /** A `%lu` numeral is all digits. */
  lemma DigitsAvoid(n: nat, chars: set<char>)
    requires forall c :: c in chars ==> !IsDigit(c)
    ensures Avoids(DecimalNat(n), chars)
  {
    var d := DecimalNat(n);
    forall j | 0 <= j < |d| ensures d[j] !in chars {
      assert IsDigit(d[j]);
    }
  }

  /** A `%d` numeral is digits after an optional minus sign. */
  lemma NumeralAvoids(n: int, chars: set<char>)
    requires forall c :: c in chars ==> c != '-' && !IsDigit(c)
    ensures Avoids(Decimal(n), chars)
  {
    if n < 0 {
      DigitsAvoid(-n, chars);
      AvoidsConcat("-", DecimalNat(-n), chars);
    } else {
      DigitsAvoid(n, chars);
    }
  }

  /** The control characters a header line never holds: NUL, CR and LF. */
  predicate OnlyControls(chars: set<char>)
  {
    forall c :: c in chars ==> c == NUL || c == '\r' || c == '\n'
  }

  /** Text free of NUL, CR and LF avoids every set of those. */
  lemma PlainAvoids(s: string, chars: set<char>)
    requires OnlyControls(chars) && NUL !in s && '\r' !in s && '\n' !in s
    ensures Avoids(s, chars)
  {
    forall j | 0 <= j < |s| ensures s[j] !in chars {
      assert s[j] in s;
    }
  }

  lemma ReasonAvoids(code: int, chars: set<char>)
    requires OnlyControls(chars)
    ensures Avoids(Reason(code), chars)
  {
    PlainAvoids(Reason(code), chars);
  }

  /** The status line avoids NUL, CR and LF. */
  lemma StatusLineAvoids(code: int, chars: set<char>)
    requires OnlyControls(chars)
    ensures Avoids(StatusLine(code), chars)
  {
    PlainAvoids("HTTP/1.1 ", chars);
    PlainAvoids(" ", chars);
    NumeralAvoids(code, chars);
    ReasonAvoids(code, chars);
    AvoidsConcat("HTTP/1.1 ", Decimal(code), chars);
    AvoidsConcat("HTTP/1.1 " + Decimal(code), " ", chars);
    AvoidsConcat("HTTP/1.1 " + Decimal(code) + " ", Reason(code), chars);
  }

  /** Each line of the header block avoids NUL, CR and LF, given a content type that does. */
  lemma LinesAvoid(code: int, contentType: string, bodyLength: nat, chars: set<char>)
    requires OnlyControls(chars) && Avoids(contentType, chars)
    ensures Avoids(StatusLine(code), chars)
    ensures Avoids(TypeLine(contentType), chars) && Avoids(LengthLine(bodyLength), chars)
  {
    StatusLineAvoids(code, chars);
    TypeLineAvoids(contentType, chars);
    LengthLineAvoids(bodyLength, chars);
  }

  /** The Content-Type line avoids NUL, CR and LF when the content type does. */
  lemma TypeLineAvoids(contentType: string, chars: set<char>)
    requires OnlyControls(chars) && Avoids(contentType, chars)
    ensures Avoids(TypeLine(contentType), chars)
  {
    PlainAvoids("Content-Type: ", chars);
    AvoidsConcat("Content-Type: ", contentType, chars);
  }

  /** The Content-Length line avoids NUL, CR and LF. */
  lemma LengthLineAvoids(bodyLength: nat, chars: set<char>)
    requires OnlyControls(chars)
    ensures Avoids(LengthLine(bodyLength), chars)
  {
    PlainAvoids("Content-Length: ", chars);
    DigitsAvoid(bodyLength, chars);
    AvoidsConcat("Content-Length: ", DecimalNat(bodyLength), chars);
  }

  /** No character of the header text is a NUL, so strlen sees all of it. */
  lemma HeaderTextHasNoNul(code: int, contentType: string, bodyLength: nat)
    requires NUL !in contentType
    ensures NUL !in HeaderText(code, contentType, bodyLength)
  {
    assert Avoids(contentType, {NUL});
    LinesAvoid(code, contentType, bodyLength, {NUL});
    var l0, l1, l2 := StatusLine(code), TypeLine(contentType), LengthLine(bodyLength);
    assert Avoids("\r\n", {NUL});
    AvoidsConcat(l0, "\r\n", {NUL});
    AvoidsConcat(l0 + "\r\n", l1, {NUL});
    AvoidsConcat(l0 + "\r\n" + l1, "\r\n", {NUL});
    AvoidsConcat(l0 + "\r\n" + l1 + "\r\n", l2, {NUL});
    AvoidsConcat(l0 + "\r\n" + l1 + "\r\n" + l2, "\r\n", {NUL});
    var t := HeaderText(code, contentType, bodyLength);
    assert forall j :: 0 <= j < |t| ==> t[j] != NUL;
  }

  /**
   * The state write_response leaves, with the free of the body at main.h:278
   * left out: body_length is strlen(body), the body is the strdup copy, and
   * the headers hold the first line, Content-Type and Content-Length lines.
   */
  function Written(args: WriterArgs): (s: ResponseState)
    ensures s.statusCode == args.statusCode && s.contentType == args.contentType
    ensures s.body == Live(CStr(args.body)) && s.bodyLength == |CStr(args.body)|
    ensures CStr(s.headers) == Truncated(HeaderText(args.statusCode, CStr(args.contentType), s.bodyLength))
  {
    var body := CStr(args.body);
    var text := HeaderText(args.statusCode, CStr(args.contentType), |body|);
    HeaderTextHasNoNul(args.statusCode, CStr(args.contentType), |body|);
    ResponseState(args.statusCode, args.contentType, Live(body), |body|, HeaderBuffer(text))
  }

  /** An http_response_t, the object handed to the handler by pointer. */
  class Response {
    var statusCode: int
    var contentType: string
    var body: Storage
    var bodyLength: nat
    var headers: string

    function State(): ResponseState
      reads this
    {
      ResponseState(statusCode, contentType, body, bodyLength, headers)
    }

    /**
     * `http_response_t response;` -- its fields are not set until write_response
     * runs. These values are placeholders for "not yet set": `Freed` here records
     * only that no live body copy exists yet, not that anything was freed.
     */
    constructor ()
      ensures State() == ResponseState(0, [], Freed, 0, [])
    {
      statusCode, contentType, body, bodyLength, headers := 0, [], Freed, 0, [];
    }

    /** write_response as it should be: the body copy stays allocated for the send that follows. */
    method Write(args: WriterArgs)
      modifies this
      ensures State() == Written(args)
    {
      statusCode := args.statusCode;
      contentType := args.contentType;
      var copy := CStr(args.body);
      body := Live(copy);
      bodyLength := |copy|;
      var text := HeaderText(args.statusCode, CStr(args.contentType), bodyLength);
      HeaderTextHasNoNul(args.statusCode, CStr(args.contentType), bodyLength);
      headers := HeaderBuffer(text);
    }

    /** write_response as written: the last statement frees the body copy (main.h:278). */
    method WriteAsWritten(args: WriterArgs)
      modifies this
      ensures State() == Written(args).(body := Freed)
      ensures body.Freed?
    {
      Write(args);
      body := Freed;
    }
  }

  // ---- what the header block says ---------------------------------------

  /** Three lines joined by a terminator after each. */
  lemma LinesOfThree(a: string, b: string, c: string, sep: string)
    ensures Lines([a, b, c], sep) == a + sep + b + sep + c + sep
  {
    var lines := [a, b, c];
    assert lines[1..] == [b, c] && lines[1..][1..] == [c] && lines[1..][1..][1..] == [];
    assert Lines([c], sep) == c + sep + [];
    assert c + sep + [] == c + sep;
    AppendAssoc(a + sep, b + sep, c + sep);
    AppendAssoc(a + sep + b, sep, c + sep);
    AppendAssoc(a + sep + b + sep, c, sep);
    AppendAssoc(a, sep, b + sep + (c + sep));
    AppendAssoc(b, sep, c + sep);
  }

  /**
   * The header block is three CRLF-terminated lines, and reading it back with
   * the same strtok(.., "\r\n") the request parser uses gives exactly those
   * three lines, provided the content type has no CR or LF of its own.
   */
  lemma HeaderLines(code: int, contentType: string, bodyLength: nat)
    requires Avoids(contentType, RequestReader.CRLF)
    ensures var lines := [StatusLine(code), TypeLine(contentType), LengthLine(bodyLength)];
      && HeaderText(code, contentType, bodyLength) == Lines(lines, "\r\n")
      && Tokens(HeaderText(code, contentType, bodyLength), RequestReader.CRLF) == lines
  {
    var lines := [StatusLine(code), TypeLine(contentType), LengthLine(bodyLength)];
    LinesOfThree(StatusLine(code), TypeLine(contentType), LengthLine(bodyLength), "\r\n");
    LinesAvoid(code, contentType, bodyLength, RequestReader.CRLF);
    assert StatusLine(code) != [] && TypeLine(contentType) != [] && LengthLine(bodyLength) != [];
    TokensOfLines(lines, "\r\n", RequestReader.CRLF);
  }

  /**
   * The Content-Length line the writer emits, read by the header rule of the
   * request parser (prefix "Content-Length:", then atoi), declares the body length.
   */
  lemma LengthLineReadsBack(acc: RequestReader.Declared, bodyLength: nat)
    ensures RequestReader.Update(acc, LengthLine(bodyLength))
         == RequestReader.Declared(bodyLength, acc.inRange && FitsInt(bodyLength))
  {
    var line := LengthLine(bodyLength);
    assert line[..|RequestReader.LengthField|] == RequestReader.LengthField;
    assert line[|RequestReader.LengthField|..] == " " + DecimalNat(bodyLength);
    AtoiSkipsSpaces(" ", DecimalNat(bodyLength));
    AtoiOfDecimal(bodyLength, []);
    assert Decimal(bodyLength) + [] == DecimalNat(bodyLength);
  }

  /**
   * The header block ends with the CRLF of the Content-Length line, right
   * after a digit: there is no empty line closing the header section, so the
   * body is sent straight after the last header.
   */
  lemma NoBlankLine(code: int, contentType: string, bodyLength: nat)
    ensures var t := HeaderText(code, contentType, bodyLength);
      |t| >= 3 && t[|t| - 2..] == "\r\n" && IsDigit(t[|t| - 3])
  {
    var n := DecimalNat(bodyLength);
    var t := HeaderText(code, contentType, bodyLength);
    var front := StatusLine(code) + "\r\n" + TypeLine(contentType) + "\r\n" + "Content-Length: ";
    assert t == front + n + "\r\n";
    assert t[|t| - 3] == n[|n| - 1];
  }

  /** 10 to the power `k`. */
  function Pow10(k: nat): (p: nat)
    ensures p >= 1
  {
    if k == 0 then 1 else 10 * Pow10(k - 1)
  }

  /** A number below 10^k has at most k digits. */
  lemma {:induction false} DecimalNatLength(n: nat, k: nat)
    requires 1 <= k && n < Pow10(k)
    ensures |DecimalNat(n)| <= k
    decreases k
  {
    if n >= 10 {
      assert n / 10 < Pow10(k - 1);
      DecimalNatLength(n / 10, k - 1);
    }
  }

  /**
   * With a 32-bit status code, a 64-bit body length and a content type of at
   * most 400 characters, the text fits in the 512-byte buffer and nothing is cut.
   */
  lemma HeadersFit(code: CInt, contentType: string, bodyLength: nat)
    requires |contentType| <= 400 && bodyLength < 0x1_0000_0000_0000_0000
    ensures |HeaderText(code, contentType, bodyLength)| < HeaderCapacity
    ensures Truncated(HeaderText(code, contentType, bodyLength)) == HeaderText(code, contentType, bodyLength)
  {
    assert Pow10(10) == 10000000000 && Pow10(20) == 100000000000000000000 by {
      assert Pow10(5) == 100000;
      assert Pow10(10) == Pow10(5) * Pow10(5) by {
        PowAdd(5, 5);
      }
      assert Pow10(20) == Pow10(10) * Pow10(10) by {
        PowAdd(10, 10);
      }
    }
    var c: int := code;
    var magnitude: nat := if c < 0 then -c else c;
    DecimalNatLength(magnitude, 10);
    DecimalNatLength(bodyLength, 20);
  }

  lemma {:induction false} PowAdd(a: nat, b: nat)
    ensures Pow10(a + b) == Pow10(a) * Pow10(b)
    decreases a
  {
    if a > 0 {
      PowAdd(a - 1, b);
      assert Pow10(a + b) == 10 * Pow10(a - 1 + b);
    }
  }

  /** The handler of main.c: write_response(404, "text/plain", "Hello, world!"). */
  lemma ExampleHeaders()
    ensures HeaderText(404, "text/plain", 13)
         == "HTTP/1.1 404 Not Found" + "\r\n" + "Content-Type: text/plain" + "\r\n" + "Content-Length: 13" + "\r\n"
  {
    assert Decimal(404) == "404";
    assert StatusLine(404) == "HTTP/1.1 404 Not Found";
    assert LengthLine(13) == "Content-Length: 13";
    assert TypeLine("text/plain") == "Content-Type: text/plain";
  }
}
