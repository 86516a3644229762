/**
 * The reading half of handle_request: splitting the first read into request
 * line, method and path with strtok, scanning for Content-Length, and reading
 * the body of a POST, PUT or PATCH from the socket.
 */
module RequestReader {
  import opened Wrappers
  import opened CLib
  import opened Strtok
  import opened Socket

  /** The delimiters handle_request passes to strtok. */
  const CRLF: set<char> := {'\r', '\n'}
  const SP: set<char> := {' '}

  /** The header name handle_request looks for, colon included, compared case-sensitively. */
  const LengthField: string := "Content-Length:"

  /** strncmp(line, "Content-Length:", 15) == 0: the line starts with the field name. */
  predicate IsLengthHeader(line: string)
  {
    |line| >= |LengthField| && line[..|LengthField|] == LengthField
  }

  /** content_length after the header scan, and whether every atoi along the way fit in an int. */
  datatype Declared = Declared(length: int, inRange: bool)

  /** One iteration of the header loop: a Content-Length line overrides the length so far. */
  function Update(acc: Declared, line: string): Declared
  {
    if IsLengthHeader(line) then
      var v := Atoi(line[|LengthField|..]);
      Declared(v, acc.inRange && FitsInt(v))
    else acc
  }

  /** The header loop over `lines`, starting from `acc`. */
  function Declare(lines: seq<string>, acc: Declared): Declared
    decreases |lines|
  {
    if lines == [] then acc else Declare(lines[1..], Update(acc, lines[0]))
  }

  /** Without a Content-Length line the header loop changes nothing. */
  lemma {:induction false} DeclareWithoutHeader(lines: seq<string>, acc: Declared)
    requires forall k :: 0 <= k < |lines| ==> !IsLengthHeader(lines[k])
    ensures Declare(lines, acc) == acc
    decreases |lines|
  {
    if lines != [] {
      assert forall m :: 0 <= m < |lines| - 1 ==> lines[1..][m] == lines[m + 1];
      DeclareWithoutHeader(lines[1..], acc);
    }
  }

  /** The length the header loop settles on is that of the last Content-Length line. */
  lemma {:induction false} DeclareIsLast(lines: seq<string>, acc: Declared, k: nat)
    requires k < |lines| && IsLengthHeader(lines[k])
    requires forall m :: k < m < |lines| ==> !IsLengthHeader(lines[m])
    ensures Declare(lines, acc).length == Atoi(lines[k][|LengthField|..])
    decreases |lines|
  {
    assert forall m :: 0 <= m < |lines| - 1 ==> lines[1..][m] == lines[m + 1];
    if k == 0 {
      DeclareWithoutHeader(lines[1..], Update(acc, lines[0]));
    } else {
      DeclareIsLast(lines[1..], Update(acc, lines[0]), k - 1);
    }
  }

  /** What handle_request extracts from the request text before it looks at the body. */
  datatype RequestHead = RequestHead(httpMethod: Option<string>, path: Option<string>, contentLength: int, lengthInRange: bool)

  /** The token of a split, or nothing; and what follows it, or the empty string. */
  function TokenOf(sp: Option<Split>): Option<string>
  {
    if sp.Some? then Some(sp.value.token) else None
  }

  function RestOf(sp: Option<Split>): string
  {
    if sp.Some? then sp.value.rest else []
  }

  /** The C string a strtok result points to; a missing token leaves strtok at an empty string. */
  function TextOf(sp: Option<Split>): string
  {
    if sp.Some? then sp.value.token else []
  }

  /**
   * The head of a request, as the strtok calls of handle_request produce it:
   * the request line is the first CRLF token; method and path are its first two
   * space tokens; and because strtok keeps a single cursor, the header loop
   * resumes inside the request line, so it scans only what follows the path there.
   */
  function ParseHead(text: string): RequestHead
  {
    var line := FirstToken(text, CRLF);
    var m := FirstToken(TextOf(line), SP);
    var path := FirstToken(RestOf(m), SP);
    var d := Declare(Tokens(RestOf(path), CRLF), Declared(0, true));
    RequestHead(TokenOf(m), TokenOf(path), d.length, d.inRange)
  }

  /** A string free of the characters of `e` leaves a remainder free of them too. */
  lemma RestAvoids(s: string, delims: set<char>, e: set<char>)
    requires FirstToken(s, delims).Some?
    requires forall j :: 0 <= j < |s| ==> s[j] !in e
    ensures forall j :: 0 <= j < |FirstToken(s, delims).value.rest| ==> FirstToken(s, delims).value.rest[j] !in e
  {
    FirstTokenIsFirstRun(s, delims);
  }

  /**
   * Because the header loop resumes strtok's cursor inside the request line, it
   * sees at most one line: whatever follows the path on the request line.
   */
  lemma ScansAtMostOneLine(text: string)
    ensures var m := FirstToken(TextOf(FirstToken(text, CRLF)), SP);
      var tail := RestOf(FirstToken(RestOf(m), SP));
      Tokens(tail, CRLF) == if tail == [] then [] else [tail]
  {
    var line := FirstToken(text, CRLF);
    var m := FirstToken(TextOf(line), SP);
    var path := FirstToken(RestOf(m), SP);
    if line.Some? && m.Some? && path.Some? {
      FirstTokenFacts(text, CRLF);
      RestAvoids(TextOf(line), SP, CRLF);
      RestAvoids(RestOf(m), SP, CRLF);
    }
    TokensWithoutDelims(RestOf(path), CRLF);
  }

  /** So the declared length is 0 unless the request line itself carries "Content-Length:". */
  lemma LengthComesFromRequestLine(text: string)
    ensures var m := FirstToken(TextOf(FirstToken(text, CRLF)), SP);
      var tail := RestOf(FirstToken(RestOf(m), SP));
      ParseHead(text).contentLength == if IsLengthHeader(tail) then Atoi(tail[|LengthField|..]) else 0
  {
    var m := FirstToken(TextOf(FirstToken(text, CRLF)), SP);
    var tail := RestOf(FirstToken(RestOf(m), SP));
    ScansAtMostOneLine(text);
    if tail != [] {
      DeclareCons(tail, [], Declared(0, true));
      assert [tail] + [] == [tail];
    }
  }

  /** The head depends on the request line alone. */
  lemma ParseHeadByLine(a: string, b: string)
    requires TextOf(FirstToken(a, CRLF)) == TextOf(FirstToken(b, CRLF))
    ensures ParseHead(a) == ParseHead(b)
  {
  }

  /** A CR/LF-free line after any CR and LF, and before a CR or LF, is the request line. */
  lemma FirstLineIs(lead: string, line: string, rest: string)
    requires forall j :: 0 <= j < |lead| ==> lead[j] in CRLF
    requires IsRun(line, CRLF)
    requires rest == [] || rest[0] in CRLF
    ensures TextOf(FirstToken(lead + line + rest, CRLF)) == line
  {
    var u := line + rest;
    AppendAssoc(lead, line, rest);
    SkipLeading(lead, u, CRLF);
    if rest != [] {
      assert u[|line|] == rest[0];
    }
    FirstTokenAt(u, CRLF, 0, |line|);
    TakeFront(line, rest);
  }

  /** Nothing after the request line's terminator influences the head. */
  lemma OnlyRequestLineCounts(lead: string, line: string, rest: string)
    requires forall j :: 0 <= j < |lead| ==> lead[j] in CRLF
    requires IsRun(line, CRLF)
    requires rest == [] || rest[0] in CRLF
    ensures ParseHead(lead + line + rest) == ParseHead(line)
  {
    FirstLineIs(lead, line, rest);
    FirstLineIs([], line, []);
    assert [] + line + [] == line;
    ParseHeadByLine(lead + line + rest, line);
  }

  /** A method or path as a client writes it: no space, CR or LF in it. */
  predicate IsWord(w: string)
  {
    w != [] && forall j :: 0 <= j < |w| ==> w[j] != ' ' && w[j] !in CRLF
  }

  /** A word followed by a space is the first space-delimited token. */
  lemma FirstWord(w: string, r: string)
    requires IsWord(w)
    ensures FirstToken(w + " " + r, SP) == Some(Split(w, r))
  {
    var u := w + " " + r;
    assert u[|w|] == ' ';
    assert u[0..|w|] == w;
    assert u[|w| + 1..] == r;
    forall j | 0 <= j < |w| ensures u[j] !in SP {
      assert u[j] == w[j];
    }
    FirstTokenAt(u, SP, 0, |w|);
  }

  /** Such a request line holds no CR or LF. */
  lemma LineOfWords(verb: string, path: string, tail: string)
    requires IsWord(verb) && IsWord(path)
    requires forall j :: 0 <= j < |tail| ==> tail[j] !in CRLF
    ensures IsRun(verb + " " + path + " " + tail, CRLF)
  {
    var line := verb + " " + path + " " + tail;
    forall j | 0 <= j < |line| ensures line[j] !in CRLF {
      if j < |verb| {
        assert line[j] == verb[j];
      } else if j == |verb| {
      } else if j < |verb| + 1 + |path| {
        assert line[j] == path[j - |verb| - 1];
      } else if j == |verb| + 1 + |path| {
      } else {
        assert line[j] == tail[j - |verb| - 2 - |path|];
      }
    }
  }

  /** A request line of two words and a tail, parsed on its own. */
  lemma ParseHeadOfWords(verb: string, path: string, tail: string)
    requires IsWord(verb) && IsWord(path)
    requires forall j :: 0 <= j < |tail| ==> tail[j] !in CRLF
    ensures var d := Declare(if tail == [] then [] else [tail], Declared(0, true));
      ParseHead(verb + " " + (path + " " + tail)) == RequestHead(Some(verb), Some(path), d.length, d.inRange)
  {
    var line := verb + " " + (path + " " + tail);
    assert FirstToken(line, CRLF) == Some(Split(line, [])) by {
      AppendAssoc(verb + " ", path + " ", tail);
      AppendAssoc(verb + " ", path, " ");
      LineOfWords(verb, path, tail);
      FirstTokenAt(line, CRLF, 0, |line|);
      assert line[0..|line|] == line;
    }
    FirstWord(verb, path + " " + tail);
    FirstWord(path, tail);
    TokensWithoutDelims(tail, CRLF);
  }

  /**
   * The request line "METHOD PATH TAIL" yields METHOD and PATH, and the header
   * loop sees TAIL as its one line.
   */
  lemma ParseHeadOfLine(verb: string, path: string, tail: string, rest: string)
    requires IsWord(verb) && IsWord(path)
    requires forall j :: 0 <= j < |tail| ==> tail[j] !in CRLF
    requires rest == [] || rest[0] in CRLF
    ensures var d := Declare(if tail == [] then [] else [tail], Declared(0, true));
      ParseHead(verb + " " + path + " " + tail + rest) == RequestHead(Some(verb), Some(path), d.length, d.inRange)
  {
    var line := verb + " " + path + " " + tail;
    assert line == verb + " " + (path + " " + tail) by {
      AppendAssoc(verb + " ", path + " ", tail);
      AppendAssoc(verb + " ", path, " ");
    }
    LineOfWords(verb, path, tail);
    assert verb + " " + path + " " + tail + rest == [] + line + rest;
    OnlyRequestLineCounts([], line, rest);
    ParseHeadOfWords(verb, path, tail);
  }

  /** The header loop consumes its lines front to back. */
  lemma DeclareCons(line: string, rest: seq<string>, d: Declared)
    ensures Declare([line] + rest, d) == Declare(rest, Update(d, line))
  {
    assert ([line] + rest)[1..] == rest;
  }

  /** One turn of the header loop, on the buffer as strtok leaves it. */
  lemma ScanStep(b: seq<char>, p: nat, d: Declared, goal: Declared)
    requires IsCBuffer(b) && p < |b|
    requires Declare(Tokens(CStrAt(b, p), CRLF), d) == goal
    ensures var r := Step(b, p, CRLF);
      && IsCBuffer(r.buf) && p <= r.cursor < |b| && Keeps(b, r.buf, p)
      && (r.tok.None? ==> d == goal)
      && (r.tok.Some? ==>
            && r.tok.value < |b|
            && |CStrAt(r.buf, r.cursor)| < |CStrAt(b, p)|
            && Declare(Tokens(CStrAt(r.buf, r.cursor), CRLF), Update(d, CStrAt(r.buf, r.tok.value))) == goal)
  {
    var r := Step(b, p, CRLF);
    StepFrame(b, p, CRLF);
    StepMeaning(b, p, CRLF);
    if r.tok.Some? {
      var sp := FirstToken(CStrAt(b, p), CRLF).value;
      var line := CStrAt(r.buf, r.tok.value);
      assert line == sp.token by {
        TerminatedIsCStr(r.buf, r.tok.value, sp.token);
      }
      assert Tokens(CStrAt(b, p), CRLF) == [sp.token] + Tokens(sp.rest, CRLF);
      DeclareCons(sp.token, Tokens(sp.rest, CRLF), d);
    }
  }

  /** atoi(header_line + strlen("Content-Length:")) reads the value `Update` takes from the line. */
  lemma UpdateAt(b: seq<char>, i: nat, acc: Declared, v: int)
    requires i <= |b| && IsLengthHeader(CStrAt(b, i))
    requires i + |LengthField| <= |b| && v == Atoi(CStrAt(b, i + |LengthField|))
    ensures Update(acc, CStrAt(b, i)) == Declared(v, acc.inRange && FitsInt(v))
  {
    CStrAtSuffix(b, i, |LengthField|);
  }

  /** The same turn, stated on the buffer, cursor and length the loop holds after it. */
  lemma ScanAdvance(b: seq<char>, p: nat, d: Declared, goal: Declared, b': seq<char>, c': nat, at: nat, d': Declared)
    requires IsCBuffer(b) && p < |b|
    requires Declare(Tokens(CStrAt(b, p), CRLF), d) == goal
    requires var r := Step(b, p, CRLF); r.tok == Some(at) && b' == r.buf && c' == r.cursor
    requires at <= |b'| && c' <= |b'| && d' == Update(d, CStrAt(b', at))
    ensures |CStrAt(b', c')| < |CStrAt(b, p)|
    ensures Declare(Tokens(CStrAt(b', c'), CRLF), d') == goal
  {
    ScanStep(b, p, d, goal);
  }

  /** A strtok call that finds no token leaves its cursor at an empty C string. */
  lemma StepEndsEmpty(b: seq<char>, p: nat, delims: set<char>, b': seq<char>, c: nat)
    requires IsCBuffer(b) && p < |b| && NUL !in delims
    requires var r := Step(b, p, delims); r.tok.None? && b' == r.buf && c == r.cursor
    ensures c <= |b'| && CStrAt(b', c) == []
  {
    StepMeaning(b, p, delims);
  }

  /**
   * The header loop of handle_request (main.h:71-81): strtok(NULL, "\r\n") until
   * it returns NULL, and atoi of every line that starts with "Content-Length:".
   * It writes nothing before the cursor it starts from and never removes a NUL.
   */
  method ScanHeaders(t: Tokenizer) returns (d: Declared)
    requires t.Valid()
    modifies t, t.buf
    ensures t.Valid() && t.buf == old(t.buf) && old(t.cursor) <= t.cursor
    ensures d == Declare(Tokens(old(CStrAt(t.buf[..], t.cursor)), CRLF), Declared(0, true))
    ensures Keeps(old(t.buf[..]), t.buf[..], old(t.cursor))
    ensures CStrAt(t.buf[..], t.cursor) == []
  {
    ghost var b0, c0 := t.buf[..], t.cursor;
    ghost var goal := Declare(Tokens(CStrAt(b0, c0), CRLF), Declared(0, true));
    d := Declared(0, true);
    var more := true;
    while more
      invariant t.Valid() && t.buf == old(t.buf) && c0 <= t.cursor
      invariant Declare(Tokens(CStrAt(t.buf[..], t.cursor), CRLF), d) == goal
      invariant Keeps(b0, t.buf[..], c0)
      invariant !more ==> CStrAt(t.buf[..], t.cursor) == []
      decreases more, |CStrAt(t.buf[..], t.cursor)|
    {
      ghost var before, p := t.buf[..], t.cursor;
      more, d := ScanLine(t, d, goal);
      KeepsTrans(b0, before, t.buf[..], c0, p);
    }
  }

  /**
   * One turn of the header loop: strtok(NULL, "\r\n"), and atoi of the line
   * when it starts with "Content-Length:". `more` is false once strtok returns NULL.
   */
  method ScanLine(t: Tokenizer, d: Declared, ghost goal: Declared) returns (more: bool, d': Declared)
    requires t.Valid() && Declare(Tokens(CStrAt(t.buf[..], t.cursor), CRLF), d) == goal
    modifies t, t.buf
    ensures t.Valid() && t.buf == old(t.buf) && old(t.cursor) <= t.cursor
    ensures Keeps(old(t.buf[..]), t.buf[..], old(t.cursor))
    ensures Declare(Tokens(CStrAt(t.buf[..], t.cursor), CRLF), d') == goal
    ensures more ==> |CStrAt(t.buf[..], t.cursor)| < |old(CStrAt(t.buf[..], t.cursor))|
    ensures !more ==> CStrAt(t.buf[..], t.cursor) == []
  {
    ghost var before, p := t.buf[..], t.cursor;
    ScanStep(before, p, d, goal);
    var headerAt := t.Next(None, CRLF);
    if headerAt.None? {
      StepEndsEmpty(before, p, CRLF, t.buf[..], t.cursor);
      return false, d;
    }
    d' := d;
    var headerLine := CStrAt(t.buf[..], headerAt.value);
    if IsLengthHeader(headerLine) {
      CStrAtSuffix(t.buf[..], headerAt.value, |LengthField|);
      var v := Atoi(CStrAt(t.buf[..], headerAt.value + |LengthField|));
      UpdateAt(t.buf[..], headerAt.value, d, v);
      d' := Declared(v, d.inRange && FitsInt(v));
    }
    ScanAdvance(before, p, d, goal, t.buf[..], t.cursor, headerAt.value, d');
    more := true;
  }

  /** One strtok call whose starting point holds the C string `s`, in terms of `s`. */
  lemma TokenStep(b: seq<char>, p: nat, delims: set<char>, s: string)
    requires IsCBuffer(b) && p < |b| && NUL !in delims && CStrAt(b, p) == s
    ensures var r, ft := Step(b, p, delims), FirstToken(s, delims);
      && IsCBuffer(r.buf) && p <= r.cursor < |b| && Keeps(b, r.buf, p)
      && CStrAt(r.buf, r.cursor) == RestOf(ft)
      && (r.tok.Some? <==> ft.Some?)
      && (ft.Some? ==> r.tok.value + |ft.value.token| <= r.cursor && Terminated(r.buf, r.tok.value, ft.value.token))
  {
    StepFrame(b, p, delims);
    StepMeaning(b, p, delims);
  }

  /**
   * The strdup and strtok calls of handle_request on the request text
   * (main.h:65-88): request line, method, path, then the header loop.
   */
  method ParseRequest(text: string) returns (head: RequestHead)
    requires NUL !in text
    ensures head == ParseHead(text)
  {
    var t := new Tokenizer(text);
    ghost var line := FirstToken(text, CRLF);
    TokenStep(t.buf[..], 0, CRLF, text);
    var lineAt := t.Next(Some(0), CRLF);
    ghost var q := if lineAt.Some? then lineAt.value else t.cursor;
    assert CStrAt(t.buf[..], q) == TextOf(line) by {
      if lineAt.Some? {
        TerminatedIsCStr(t.buf[..], lineAt.value, line.value.token);
      }
    }

    ghost var m := FirstToken(TextOf(line), SP);
    TokenStep(t.buf[..], q, SP, TextOf(line));
    var methodAt := t.Next(lineAt, SP);

    ghost var path := FirstToken(RestOf(m), SP);
    ghost var b2, c2 := t.buf[..], t.cursor;
    TokenStep(b2, c2, SP, RestOf(m));
    var pathAt := t.Next(None, SP);
    ghost var b3, c3 := t.buf[..], t.cursor;
    if methodAt.Some? {
      KeepsTerminated(b2, b3, c2, methodAt.value, m.value.token);
    }

    var d := ScanHeaders(t);

    var methodText := None;
    if methodAt.Some? {
      KeepsTerminated(b3, t.buf[..], c3, methodAt.value, m.value.token);
      TerminatedIsCStr(t.buf[..], methodAt.value, m.value.token);
      methodText := Some(CStrAt(t.buf[..], methodAt.value));
    }
    var pathText := None;
    if pathAt.Some? {
      KeepsTerminated(b3, t.buf[..], c3, pathAt.value, path.value.token);
      TerminatedIsCStr(t.buf[..], pathAt.value, path.value.token);
      pathText := Some(CStrAt(t.buf[..], pathAt.value));
    }
    head := RequestHead(methodText, pathText, d.length, d.inRange);
  }

  /**
   * A POST that declares its length on a header line: the header loop never
   * reaches that line, so content_length stays 0 whatever the declared length.
   */
  lemma HeaderLineIsNotScanned(n: nat, body: string)
    ensures ParseHead("POST /p HTTP/1.1" + "\r\nContent-Length: " + DecimalNat(n) + "\r\n\r\n" + body)
         == RequestHead(Some("POST"), Some("/p"), 0, true)
  {
    var rest := "\r\nContent-Length: " + DecimalNat(n) + "\r\n\r\n" + body;
    assert "POST" + " " + "/p" + " " + "HTTP/1.1" == "POST /p HTTP/1.1";
    AppendAssoc("POST /p HTTP/1.1", "\r\nContent-Length: " + DecimalNat(n) + "\r\n\r\n", body);
    AppendAssoc("POST /p HTTP/1.1", "\r\nContent-Length: " + DecimalNat(n), "\r\n\r\n");
    AppendAssoc("POST /p HTTP/1.1", "\r\nContent-Length: ", DecimalNat(n));
    DeclareCons("HTTP/1.1", [], Declared(0, true));
    assert ["HTTP/1.1"] + [] == ["HTTP/1.1"];
    ParseHeadOfLine("POST", "/p", "HTTP/1.1", rest);
  }

  /** A Content-Length line carrying the numeral of `n` declares `n`. */
  lemma UpdateWithNumeral(acc: Declared, n: nat)
    ensures Update(acc, LengthField + DecimalNat(n)) == Declared(n, acc.inRange && FitsInt(n))
  {
    var line := LengthField + DecimalNat(n);
    assert line[..|LengthField|] == LengthField;
    assert line[|LengthField|..] == DecimalNat(n);
    AtoiOfDecimal(n, []);
    assert Decimal(n) + [] == DecimalNat(n);
  }

  /** Digits are neither CR nor LF. */
  lemma NumeralAvoidsCRLF(prefix: string, n: nat)
    requires forall j :: 0 <= j < |prefix| ==> prefix[j] !in CRLF
    ensures forall j :: 0 <= j < |prefix + DecimalNat(n)| ==> (prefix + DecimalNat(n))[j] !in CRLF
  {
    var t := prefix + DecimalNat(n);
    forall j | 0 <= j < |t| ensures t[j] !in CRLF {
      if j >= |prefix| {
        assert t[j] == DecimalNat(n)[j - |prefix|];
      }
    }
  }

  /** A length written on the request line itself, after the path, is the one that counts. */
  lemma LengthOnRequestLine(n: nat)
    ensures ParseHead("GET /x " + LengthField + DecimalNat(n))
         == RequestHead(Some("GET"), Some("/x"), n, FitsInt(n))
  {
    var tail := LengthField + DecimalNat(n);
    assert IsWord("GET") && IsWord("/x");
    assert "GET" + " " + "/x" + " " + tail + "" == "GET /x " + LengthField + DecimalNat(n) by {
      assert "GET" + " " + "/x" + " " == "GET /x ";
      AppendAssoc("GET /x ", LengthField, DecimalNat(n));
    }
    NumeralAvoidsCRLF(LengthField, n);
    UpdateWithNumeral(Declared(0, true), n);
    DeclareCons(tail, [], Declared(0, true));
    assert [tail] + [] == [tail];
    ParseHeadOfLine("GET", "/x", tail, "");
  }

  // ---- the body loop ---------------------------------------------------------

  /** How the body loop ends: the whole body, a read error, or a close before the end. */
  datatype BodyStatus = Complete | Failed | Stalled

  /** The loop's outcome, the bytes it stored in the body buffer, and what the socket still holds. */
  datatype BodyRead = BodyRead(status: BodyStatus, data: string, after: seq<Delivery>)

  /**
   * The body loop of handle_request (main.h:91-111): read(fd, body + total,
   * need - total) until `need` bytes have arrived. A read error ends it; a read
   * of 0 (the peer closed) leaves `total` where it is, so the C loop would spin
   * forever -- modelled as the outcome Stalled.
   */
  function BodySpec(pending: seq<Delivery>, need: nat): BodyRead
    decreases need
  {
    if need == 0 then BodyRead(Complete, [], pending)
    else
      var r := ReadFrom(pending, need);
      if r.count < 0 then BodyRead(Failed, [], pending)
      else if r.count == 0 then BodyRead(Stalled, [], pending)
      else
        var more := BodySpec(r.after, need - r.count);
        BodyRead(more.status, r.data + more.data, more.after)
  }

  /** Cutting `a + s` at a point inside `s`. */
  lemma SplitAfterPrefix(a: string, s: string, k: nat)
    requires |a| <= k <= |a| + |s|
    ensures (a + s)[..k] == a + s[..k - |a|]
    ensures (a + s)[k..] == s[k - |a|..]
  {
  }

  /**
   * How the body loop ends depends only on the stream: it completes exactly
   * when `need` bytes arrive, and otherwise fails or stalls according to
   * whether the connection reports an error.
   */
  lemma {:induction false} BodyStatusFromStream(pending: seq<Delivery>, need: nat)
    requires WellFormed(pending)
    ensures var r := BodySpec(pending, need);
      && (r.status == Complete <==> need <= |Stream(pending)|)
      && (r.status == Failed <==> |Stream(pending)| < need && Fails(pending))
      && (r.status == Stalled <==> |Stream(pending)| < need && !Fails(pending))
    decreases need
  {
    if need > 0 {
      var r := ReadFrom(pending, need);
      if r.count > 0 {
        BodyStatusFromStream(r.after, need - r.count);
      } else if r.count < 0 {
        assert Fails(pending);
      }
    }
  }

  /** A complete body is the first `need` bytes of the stream, and the socket keeps the rest. */
  lemma {:induction false} BodyDataFromStream(pending: seq<Delivery>, need: nat)
    requires WellFormed(pending)
    requires BodySpec(pending, need).status == Complete
    ensures need <= |Stream(pending)|
    ensures var r := BodySpec(pending, need);
      && r.data == Stream(pending)[..need]
      && Stream(r.after) == Stream(pending)[need..]
      && (Fails(r.after) <==> Fails(pending))
      && WellFormed(r.after)
    decreases need
  {
    BodyStatusFromStream(pending, need);
    if need > 0 {
      var r := ReadFrom(pending, need);
      BodyStatusFromStream(r.after, need - r.count);
      BodyDataFromStream(r.after, need - r.count);
      SplitAfterPrefix(r.data, Stream(r.after), need);
    }
  }

  /** Two connections that deliver the same bytes and the same error behaviour give the same body. */
  lemma BodyIgnoresChunking(p: seq<Delivery>, q: seq<Delivery>, need: nat)
    requires WellFormed(p) && WellFormed(q)
    requires Stream(p) == Stream(q) && (Fails(p) <==> Fails(q))
    ensures BodySpec(p, need).status == BodySpec(q, need).status
    ensures BodySpec(p, need).status == Complete ==> BodySpec(p, need).data == BodySpec(q, need).data
  {
    BodyStatusFromStream(p, need);
    BodyStatusFromStream(q, need);
    if BodySpec(p, need).status == Complete {
      BodyDataFromStream(p, need);
      BodyDataFromStream(q, need);
    }
  }

  /**
   * The loop state agrees with the whole loop `goal`: `stored` is in the buffer,
   * and running the loop on for the `rest` of the bytes from `pending` completes it.
   */
  ghost predicate Tracks(goal: BodyRead, pending: seq<Delivery>, stored: string, rest: nat)
  {
    var b := BodySpec(pending, rest);
    goal.status == b.status && goal.data == stored + b.data && goal.after == b.after
  }

  /** One successful read(2) moves its bytes from the socket to the stored prefix. */
  lemma BodyStep(goal: BodyRead, pending: seq<Delivery>, stored: string, rest: nat,
                 after: seq<Delivery>, stored': string, rest': nat)
    requires rest > 0 && ReadFrom(pending, rest).count > 0
    requires Tracks(goal, pending, stored, rest)
    requires var r := ReadFrom(pending, rest);
      after == r.after && stored' == stored + r.data && rest' == rest - r.count
    ensures Tracks(goal, after, stored', rest')
  {
    var r := ReadFrom(pending, rest);
    AppendAssoc(stored, r.data, BodySpec(r.after, rest - r.count).data);
  }

  /**
   * The body loop itself: malloc(need + 1), read until `need` bytes are in, then
   * the terminating NUL at index `need`. A failed or stalled read leaves the
   * buffer to be freed, so nothing is said about its contents.
   */
  method ReadBody(conn: Connection, need: nat) returns (body: array<char>, status: BodyStatus)
    requires conn.Valid()
    modifies conn
    ensures conn.Valid() && fresh(body) && body.Length == need + 1
    ensures status == BodySpec(old(conn.pending), need).status
    ensures conn.pending == BodySpec(old(conn.pending), need).after
    ensures status == Complete ==> body[..need] == BodySpec(old(conn.pending), need).data && body[need] == NUL
  {
    body := new char[need + 1];
    ghost var goal := BodySpec(conn.pending, need);
    ghost var stored: string := [];
    var total: nat := 0;
    assert goal.data == stored + goal.data;
    while total < need
      invariant total <= need && conn.Valid()
      invariant body[..total] == stored
      invariant Tracks(goal, conn.pending, stored, need - total)
      decreases need - total
    {
      ghost var pending := conn.pending;
      ghost var r := ReadFrom(pending, need - total);
      var got := conn.Read(body, total, need - total);
      if got < 0 {
        status := Failed;
        return;
      }
      if got == 0 {
        status := Stalled;
        return;
      }
      BodyStep(goal, pending, stored, need - total, conn.pending, stored + r.data, need - total - got);
      stored := stored + r.data;
      total := total + got;
    }
    body[need] := NUL;
    status := Complete;
  }
}
