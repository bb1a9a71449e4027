/** The builder of HTTP responses. */
module Responses {
  import opened Wrappers
  import opened Strings
  import opened Buffers
  import opened Decimals
  import opened Forms
  import opened Requests
  import opened RequestLaws
  import opened Templates

  datatype StatusCode = OK | BadRequest | Forbidden | NotFound

  function StatusCodeToInteger(code: StatusCode): nat {
    match code
    case OK => 200
    case BadRequest => 400
    case Forbidden => 403
    case NotFound => 404
  }

  function StatusCodeToMessage(code: StatusCode): string {
    match code
    case OK => "OK"
    case BadRequest => "Bad Request"
    case Forbidden => "Forbidden"
    case NotFound => "Not Found"
  }

  // ----- Content types

  // The part of a string after its last separator, or all of it.
  function AfterLast(s: string, c: char): string {
    if s == [] || s[|s| - 1] == c then [] else AfterLast(s[..|s| - 1], c) + [s[|s| - 1]]
  }

  // The extension of a file name, with its dot; a leading dot does not begin one.
  function Extension(path: string): string {
    var name := AfterLast(path, '/');
    var tail := AfterLast(name, '.');
    if |tail| + 1 >= |name| || name == ".." then [] else "." + tail
  }

  function StringToLower(s: string): string {
    seq(|s|, i requires 0 <= i < |s| => if 'A' <= s[i] <= 'Z' then s[i] - 'A' + 'a' else s[i])
  }

  const TEXT_TYPES: map<string, string> := map[
    ".html" := "text/html", ".xml" := "text/xml", ".txt" := "text/plain", ".css" := "text/css", ".js" := "text/javascript"]

  const MEDIA_TYPES: map<string, string> := map[
    ".png" := "image/png", ".gif" := "image/gif", ".jpg" := "image/jpeg", ".jpeg" := "image/jpeg",
    ".au" := "audio/basic", ".mpeg" := "video/mpeg", ".mpg" := "video/mpeg", ".avi" := "video/x-msvideo"]

  const APPLICATION_TYPES: map<string, string> := map[
    ".xhtml" := "application/xhtml+xml", ".rtf" := "application/rtf", ".pdf" := "application/pdf",
    ".word" := "application/nsword", ".gz" := "application/x-gzip", ".tar" := "application/x-tar"]

  const CONTENT_TYPES: map<string, string> := TEXT_TYPES + MEDIA_TYPES + APPLICATION_TYPES

  function ContentTypeByFileName(name: string): string {
    var extension := StringToLower(Extension(name));
    if extension in CONTENT_TYPES then CONTENT_TYPES[extension] else "application/octet-stream"
  }

  lemma {:induction false} AfterLastOf(a: string, c: char, b: string)
    requires c !in b && (a == [] || a[|a| - 1] == c)
    ensures AfterLast(a + b, c) == b
  {
    if b == [] {
      assert a + b == a;
    } else {
      var s := a + b;
      assert s[..|s| - 1] == a + b[..|b| - 1] && s[|s| - 1] == b[|b| - 1];
      AfterLastOf(a, c, b[..|b| - 1]);
      assert b == b[..|b| - 1] + [b[|b| - 1]];
    }
  }

  /** The extension is what follows the last dot of the file's name, whatever its directory is. */
  lemma ExtensionOf(directory: string, base: string, extension: string)
    requires directory == [] || directory[|directory| - 1] == '/'
    requires base != [] && '/' !in base && extension != [] && '/' !in extension && '.' !in extension
    ensures Extension(directory + (base + "." + extension)) == "." + extension
  {
    var name := base + "." + extension;
    AfterLastOf(directory, '/', name);
    AfterLastOf(base + ".", '.', extension);
    assert name[|name| - 1] == extension[|extension| - 1] != '.';
  }

  /** A file name without a dot, or with one at its beginning only, has none. */
  lemma NoExtension(directory: string, base: string)
    requires (directory == [] || directory[|directory| - 1] == '/') && '/' !in base
    requires base == [] || '.' !in base[1..]
    ensures Extension(directory + base) == []
  {
    AfterLastOf(directory, '/', base);
    if base != [] && base[0] == '.' {
      assert base == "." + base[1..];
      AfterLastOf(".", '.', base[1..]);
    } else {
      assert '.' !in base;
      assert [] + base == base;
      AfterLastOf([], '.', base);
    }
  }

  lemma TextTypesHaveNoBreak(k: string)
    requires k in TEXT_TYPES
    ensures NoBreak(TEXT_TYPES[k])
  {
  }

  lemma MediaTypesHaveNoBreak(k: string)
    requires k in MEDIA_TYPES
    ensures NoBreak(MEDIA_TYPES[k])
  {
  }

  lemma ApplicationTypesHaveNoBreak(k: string)
    requires k in APPLICATION_TYPES
    ensures NoBreak(APPLICATION_TYPES[k])
  {
  }

  lemma ContentTypeHasNoBreak(name: string)
    ensures NoBreak(ContentTypeByFileName(name))
  {
    var k := StringToLower(Extension(name));
    if k in APPLICATION_TYPES {
      ApplicationTypesHaveNoBreak(k);
    } else if k in MEDIA_TYPES {
      MediaTypesHaveNoBreak(k);
    } else if k in TEXT_TYPES {
      TextTypesHaveNoBreak(k);
    }
  }

  // ----- Lines of a template

  function StripReturns(s: string): string {
    if s != [] && s[|s| - 1] == '\r' then StripReturns(s[..|s| - 1]) else s
  }

  // What is between the line breaks, each with all carriage returns before it; an empty end is left out.
  function Tokens(s: string): seq<string>
    decreases |s|
  {
    var i := Find(s, "\n");
    if i.None? then (if s == [] then [] else [s])
    else [StripReturns(s[..i.value])] + Tokens(s[i.value + 1..])
  }

  // A text without a line break is one line, even when it is empty.
  function SplitStringToLines(s: string): (r: seq<string>)
    ensures r != []
  {
    if Find(s, "\n").None? then [s] else Tokens(s)
  }

  function Returns(k: nat): string {
    if k == 0 then [] else Returns(k - 1) + ['\r']
  }

  // Lines with line breaks between them, each with some carriage returns.
  function Broken(lines: seq<string>, crs: seq<nat>): string
    requires |lines| == |crs| + 1
  {
    if crs == [] then lines[0]
    else (lines[0] + Returns(crs[0])) + ("\n" + Broken(lines[1..], crs[1..]))
  }

  lemma {:induction false} ReturnsAreStripped(line: string, k: nat)
    requires line != [] ==> line[|line| - 1] != '\r'
    ensures StripReturns(line + Returns(k)) == line && ('\n' !in line ==> '\n' !in line + Returns(k))
  {
    if k == 0 {
      assert line + [] == line;
    } else {
      ReturnsAreStripped(line, k - 1);
      var s := line + Returns(k);
      assert s[..|s| - 1] == line + Returns(k - 1);
    }
  }

  lemma FirstToken(head: string, rest: string)
    requires '\n' !in head
    ensures Tokens(head + ("\n" + rest)) == [StripReturns(head)] + Tokens(rest)
  {
    FindAfter(head, "\n", rest);
  }

  lemma {:induction false} TokensOfBroken(lines: seq<string>, crs: seq<nat>)
    requires |lines| == |crs| + 1 && lines[|lines| - 1] != []
    requires forall i :: 0 <= i < |lines| ==> '\n' !in lines[i]
    requires forall i :: 0 <= i < |crs| && lines[i] != [] ==> lines[i][|lines[i]| - 1] != '\r'
    ensures Tokens(Broken(lines, crs)) == lines
    decreases |lines|
  {
    if crs == [] {
      FindNothing(lines[0], "\n");
    } else {
      ReturnsAreStripped(lines[0], crs[0]);
      FirstToken(lines[0] + Returns(crs[0]), Broken(lines[1..], crs[1..]));
      TokensOfBroken(lines[1..], crs[1..]);
    }
  }

  /** A text of several lines is split into exactly them, whatever carriage returns are before its line breaks, unless
      it ends with a line break; so a template's line breaks all become the same. */
  lemma LinesAreFound(lines: seq<string>, crs: seq<nat>)
    requires |lines| == |crs| + 1 && (|lines| > 1 ==> lines[|lines| - 1] != [])
    requires forall i :: 0 <= i < |lines| ==> '\n' !in lines[i]
    requires forall i :: 0 <= i < |crs| && lines[i] != [] ==> lines[i][|lines[i]| - 1] != '\r'
    ensures SplitStringToLines(Broken(lines, crs)) == lines
  {
    if crs == [] {
      FindNothing(lines[0], "\n");
      assert lines == [lines[0]];
    } else {
      TokensOfBroken(lines, crs);
      ReturnsAreStripped(lines[0], crs[0]);
      FindAfter(lines[0] + Returns(crs[0]), "\n", Broken(lines[1..], crs[1..]));
    }
  }

  // Each line with some carriage returns and a line break after it.
  function Ended(lines: seq<string>, crs: seq<nat>): string
    requires |lines| == |crs|
  {
    if lines == [] then []
    else (lines[0] + Returns(crs[0])) + ("\n" + Ended(lines[1..], crs[1..]))
  }

  lemma {:induction false} TokensOfEnded(lines: seq<string>, crs: seq<nat>)
    requires |lines| == |crs|
    requires forall i :: 0 <= i < |lines| ==> '\n' !in lines[i] && (lines[i] != [] ==> lines[i][|lines[i]| - 1] != '\r')
    ensures Tokens(Ended(lines, crs)) == lines
    decreases |lines|
  {
    if lines == [] {
      FindNothing("", "\n");
    } else {
      ReturnsAreStripped(lines[0], crs[0]);
      FirstToken(lines[0] + Returns(crs[0]), Ended(lines[1..], crs[1..]));
      TokensOfEnded(lines[1..], crs[1..]);
    }
  }

  /** A text that ends with a line break has no further line after it. */
  lemma EndedLinesAreFound(lines: seq<string>, crs: seq<nat>)
    requires |lines| == |crs| > 0
    requires forall i :: 0 <= i < |lines| ==> '\n' !in lines[i] && (lines[i] != [] ==> lines[i][|lines[i]| - 1] != '\r')
    ensures SplitStringToLines(Ended(lines, crs)) == lines
  {
    ReturnsAreStripped(lines[0], crs[0]);
    FindAfter(lines[0] + Returns(crs[0]), "\n", Ended(lines[1..], crs[1..]));
    TokensOfEnded(lines, crs);
  }

  function TotalLength(lines: seq<string>): nat {
    if lines == [] then 0 else TotalLength(lines[..|lines| - 1]) + |lines[|lines| - 1]|
  }

  function JoinLines(lines: seq<string>): string {
    if lines == [] then []
    else if |lines| == 1 then lines[0]
    else JoinLines(lines[..|lines| - 1]) + CRLF + lines[|lines| - 1]
  }

  lemma {:induction false} JoinLinesFirst(line: string, lines: seq<string>)
    requires lines != []
    ensures JoinLines([line] + lines) == (line + "\r") + ("\n" + JoinLines(lines))
    decreases |lines|
  {
    var all := [line] + lines;
    assert all[..|all| - 1] == [line] + lines[..|lines| - 1];
    if |lines| == 1 {
      assert all[..1] == [line];
      assert line + CRLF + lines[0] == (line + "\r") + ("\n" + lines[0]);
    } else {
      JoinLinesFirst(line, lines[..|lines| - 1]);
      var front, last := JoinLines(lines[..|lines| - 1]), lines[|lines| - 1];
      assert (line + "\r") + ("\n" + front) + CRLF + last == (line + "\r") + ("\n" + (front + CRLF + last));
    }
  }

  lemma {:induction false} JoinedIsBroken(lines: seq<string>, crs: seq<nat>)
    requires |lines| == |crs| + 1 && forall i :: 0 <= i < |crs| ==> crs[i] == 1
    ensures JoinLines(lines) == Broken(lines, crs)
    decreases |lines|
  {
    if crs == [] {
      assert lines == [lines[0]];
    } else {
      JoinedIsBroken(lines[1..], crs[1..]);
      JoinLinesFirst(lines[0], lines[1..]);
      assert lines == [lines[0]] + lines[1..];
      assert Returns(0) == [] && Returns(1) == "\r";
    }
  }

  /** The lines of a page are the lines of the filled template. */
  lemma PageKeepsLines(lines: seq<string>)
    requires lines != [] && (|lines| > 1 ==> lines[|lines| - 1] != [])
    requires forall i :: 0 <= i < |lines| ==> '\n' !in lines[i]
    requires forall i :: 0 <= i < |lines| - 1 && lines[i] != [] ==> lines[i][|lines[i]| - 1] != '\r'
    ensures SplitStringToLines(JoinLines(lines)) == lines
  {
    var crs: seq<nat> := seq(|lines| - 1, i => 1);
    JoinedIsBroken(lines, crs);
    LinesAreFound(lines, crs);
  }

  // ----- What a response is

  // A response: the number it announces, the bytes after its header.
  datatype Response = Response(code: StatusCode, keepAlive: bool, contentType: string, length: nat, body: string)

  function ConnectionFields(keepAlive: bool): seq<HeaderField> {
    if keepAlive
    then [HeaderField("Connection", "keep-alive"), HeaderField("keep-alive", "max=6, timeout=120")]
    else [HeaderField("Connection", "close")]
  }

  function ContentFields(contentType: string, length: nat): seq<HeaderField> {
    [HeaderField("Content-type", contentType), HeaderField("Content-length", ToDecimal(length))]
  }

  function HeaderFields(r: Response): seq<HeaderField> {
    ConnectionFields(r.keepAlive) + ContentFields(r.contentType, r.length)
  }

  function ResponseLine(code: StatusCode): string {
    "HTTP/1.1 " + (ToDecimal(StatusCodeToInteger(code)) + (" " + StatusCodeToMessage(code)))
  }

  function ResponseText(r: Response): string {
    LineText(ResponseLine(r.code), HeadersText(HeaderFields(r), LineText("", r.body)))
  }

  // ----- How a client reads it

  // Read headers up to the blank line, with the parser that requests are read with; the rest is the body.
  function ReadHeaders(f: Fields, s: string): (Fields, string)
    decreases |s|
  {
    if s == [] then (f, [])
    else
      var r := HeaderLine(f, FirstLine(s));
      if r.error.Some? then (r.fields, s)
      else if r.fields.state.Body? then (r.fields, AfterFirstLine(s))
      else ReadHeaders(r.fields, AfterFirstLine(s))
  }

  lemma {:induction false} ReadHeadersOf(f: Fields, hs: seq<HeaderField>, body: string)
    requires f.state.Header?
    requires forall i :: 0 <= i < |hs| ==> Readable(hs[i])
    ensures ReadHeaders(f, HeadersText(hs, LineText("", body)))
            == (f.(headers := HeaderMap(f.headers, hs), state := Body), body)
    decreases |hs|
  {
    if hs == [] {
      FirstLineOf("", body);
      assert Find("", ":").None?;
    } else {
      HeaderParses(f, hs[0]);
      FirstLineOf(HeaderText(hs[0]), HeadersText(hs[1..], LineText("", body)));
      ReadHeadersOf(f.(headers := Emplace(f.headers, hs[0].name, hs[0].value)), hs[1..], body);
    }
  }

  lemma DecimalHasNoBreak(n: nat)
    ensures NoBreak(ToDecimal(n))
  {
  }

  lemma ResponseLineHasNoBreak(code: StatusCode)
    ensures NoBreak(ResponseLine(code))
  {
    DecimalHasNoBreak(StatusCodeToInteger(code));
    NoBreakConcat(" ", StatusCodeToMessage(code));
    NoBreakConcat(ToDecimal(StatusCodeToInteger(code)), " " + StatusCodeToMessage(code));
    NoBreakConcat("HTTP/1.1 ", ToDecimal(StatusCodeToInteger(code)) + (" " + StatusCodeToMessage(code)));
  }

  lemma ConnectionFieldsAreReadable()
    ensures Readable(HeaderField("Connection", "keep-alive"))
    ensures Readable(HeaderField("Connection", "close"))
  {
    assert NoBreak("Connection") && ':' !in "Connection";
    assert NoBreak("keep-alive");
    assert NoBreak("close");
  }

  lemma KeepAliveFieldIsReadable()
    ensures Readable(HeaderField("keep-alive", "max=6, timeout=120"))
  {
    NoBreakConcat("max=6, ", "timeout=120");
    assert "max=6, " + "timeout=120" == "max=6, timeout=120";
  }

  lemma ContentFieldsAreReadable(r: Response)
    requires NoBreak(r.contentType)
    ensures Readable(HeaderField("Content-type", r.contentType))
    ensures Readable(HeaderField("Content-length", ToDecimal(r.length)))
  {
    DecimalHasNoBreak(r.length);
  }

  lemma ReadableConcat(a: seq<HeaderField>, b: seq<HeaderField>)
    requires (forall h :: h in a ==> Readable(h)) && (forall h :: h in b ==> Readable(h))
    ensures forall i :: 0 <= i < |a + b| ==> Readable((a + b)[i])
  {
  }

  lemma FieldsAreReadable(r: Response)
    requires NoBreak(r.contentType)
    ensures forall i :: 0 <= i < |HeaderFields(r)| ==> Readable(HeaderFields(r)[i])
  {
    ConnectionFieldsAreReadable();
    KeepAliveFieldIsReadable();
    ContentFieldsAreReadable(r);
    var kind, length := HeaderField("Content-type", r.contentType), HeaderField("Content-length", ToDecimal(r.length));
    if r.keepAlive {
      ReadableConcat([HeaderField("Connection", "keep-alive"), HeaderField("keep-alive", "max=6, timeout=120")],
                     [kind, length]);
    } else {
      ReadableConcat([HeaderField("Connection", "close")], [kind, length]);
    }
  }

  lemma LengthIsLookedUp(r: Response)
    ensures var headers := HeaderMap(map[], HeaderFields(r));
            "Content-length" in headers && headers["Content-length"] == ToDecimal(r.length)
  {
    var hs := HeaderFields(r);
    DistinctNames(r);
    assert hs[|hs| - 1] == HeaderField("Content-length", ToDecimal(r.length));
    FirstHeaderWins(map[], hs, "Content-length");
  }

  /** A client that reads the lines of a response up to the first blank one finds the announced number under
      "Content-length" and exactly the body after it. */
  lemma ResponseIsReadBack(r: Response)
    requires NoBreak(r.contentType)
    ensures FirstLine(ResponseText(r)) == ResponseLine(r.code)
    ensures var (f, body) := ReadHeaders(INITIAL.(state := Header), AfterFirstLine(ResponseText(r)));
            && f.state.Body? && body == r.body
            && "Content-length" in f.headers && ParseDecimal(f.headers["Content-length"]) == Some(r.length)
  {
    ResponseLineHasNoBreak(r.code);
    FirstLineOf(ResponseLine(r.code), HeadersText(HeaderFields(r), LineText("", r.body)));
    FieldsAreReadable(r);
    ReadHeadersOf(INITIAL.(state := Header), HeaderFields(r), r.body);
    LengthIsLookedUp(r);
    DecimalRoundTrip(r.length);
  }

  /** It also finds under "Connection" and "keep-alive" whether the connection is kept, and under "Content-type" the
      type of the content. */
  lemma HeadersAreReadBack(r: Response)
    requires NoBreak(r.contentType)
    ensures var headers := ReadHeaders(INITIAL.(state := Header), AfterFirstLine(ResponseText(r))).0.headers;
            && "Connection" in headers && headers["Connection"] == (if r.keepAlive then "keep-alive" else "close")
            && ("keep-alive" in headers <==> r.keepAlive)
            && (r.keepAlive ==> headers["keep-alive"] == "max=6, timeout=120")
            && "Content-type" in headers && headers["Content-type"] == r.contentType
  {
    ResponseLineHasNoBreak(r.code);
    FirstLineOf(ResponseLine(r.code), HeadersText(HeaderFields(r), LineText("", r.body)));
    FieldsAreReadable(r);
    ReadHeadersOf(INITIAL.(state := Header), HeaderFields(r), r.body);
    FieldsAreLookedUp(r);
  }

  lemma FieldsAreLookedUp(r: Response)
    ensures var headers := HeaderMap(map[], HeaderFields(r));
            && "Connection" in headers && headers["Connection"] == (if r.keepAlive then "keep-alive" else "close")
            && ("keep-alive" in headers <==> r.keepAlive)
            && (r.keepAlive ==> headers["keep-alive"] == "max=6, timeout=120")
            && "Content-type" in headers && headers["Content-type"] == r.contentType
  {
    var hs := HeaderFields(r);
    DistinctNames(r);
    FirstHeaderWins(map[], hs, "Connection");
    FirstHeaderWins(map[], hs, "keep-alive");
    FirstHeaderWins(map[], hs, "Content-type");
    assert hs[0] == HeaderField("Connection", if r.keepAlive then "keep-alive" else "close");
    assert hs[|hs| - 2] == HeaderField("Content-type", r.contentType);
    assert r.keepAlive ==> hs[1] == HeaderField("keep-alive", "max=6, timeout=120");
    assert |"Content-length"| != |"keep-alive"|;
  }

  // The text of a line, from its parts.
  lemma LineOf(code: StatusCode, digits: string, rest: string, text: string)
    requires ToDecimal(StatusCodeToInteger(code)) == digits && " " + StatusCodeToMessage(code) == rest
    requires text == "HTTP/1.1 " + (digits + rest)
    ensures ResponseLine(code) == text
  {
  }

  lemma OkLine()
    ensures ResponseLine(OK) == "HTTP/1.1 200 OK"
  {
    ThreeDigits(2, 0, 0);
    LineOf(OK, "200", " OK", "HTTP/1.1 200 OK");
  }

  lemma BadRequestLine()
    ensures ResponseLine(BadRequest) == "HTTP/1.1 400 Bad Request"
  {
    ThreeDigits(4, 0, 0);
    LineOf(BadRequest, "400", " Bad Request", "HTTP/1.1 400 Bad Request");
  }

  lemma ForbiddenLine()
    ensures ResponseLine(Forbidden) == "HTTP/1.1 403 Forbidden"
  {
    ThreeDigits(4, 0, 3);
    LineOf(Forbidden, "403", " Forbidden", "HTTP/1.1 403 Forbidden");
  }

  lemma NotFoundLine()
    ensures ResponseLine(NotFound) == "HTTP/1.1 404 Not Found"
  {
    ThreeDigits(4, 0, 4);
    LineOf(NotFound, "404", " Not Found", "HTTP/1.1 404 Not Found");
  }

  /** The status lines. */
  lemma StatusLines()
    ensures ResponseLine(OK) == "HTTP/1.1 200 OK"
    ensures ResponseLine(BadRequest) == "HTTP/1.1 400 Bad Request"
    ensures ResponseLine(Forbidden) == "HTTP/1.1 403 Forbidden"
    ensures ResponseLine(NotFound) == "HTTP/1.1 404 Not Found"
  {
    OkLine();
    BadRequestLine();
    ForbiddenLine();
    NotFoundLine();
  }

  lemma ThreeDigits(a: nat, b: nat, c: nat)
    requires 0 < a < 10 && b < 10 && c < 10
    ensures ToDecimal(100 * a + 10 * b + c) == [DIGITS[a], DIGITS[b], DIGITS[c]]
  {
    DecimalOf(a);
    OneMoreDigit(a, b);
    OneMoreDigit(10 * a + b, c);
    assert 10 * (10 * a + b) + c == 100 * a + 10 * b + c;
  }

  lemma DistinctNames(r: Response)
    ensures var hs := HeaderFields(r); forall i, j :: 0 <= i < j < |hs| ==> hs[i].name != hs[j].name
  {
    assert "Connection"[2] != "keep-alive"[2] && "Connection"[2] == 'n' && "Content-type"[3] != "Connection"[3];
    assert |"Content-length"| != |"Content-type"| && |"Content-length"| != |"keep-alive"|;
    assert |"Content-type"| != |"keep-alive"| && |"Content-length"| != |"Connection"| && |"Content-type"| != |"Connection"|;
  }

  // ----- Building

  lemma {:induction false} HeadersTextAppends(a: seq<HeaderField>, b: seq<HeaderField>, x: string, y: string)
    ensures HeadersText(a + b, x) == HeadersText(a, HeadersText(b, x))
    ensures HeadersText(a, x + y) == HeadersText(a, x) + y
    decreases |a|
  {
    if a == [] {
      assert a + b == b;
    } else {
      assert (a + b)[1..] == a[1..] + b;
      HeadersTextAppends(a[1..], b, x, y);
      var line := HeaderText(a[0]);
      assert line + (CRLF + (HeadersText(a[1..], x) + y)) == line + (CRLF + HeadersText(a[1..], x)) + y;
    }
  }

  /** A response is what the builders append one after the other. */
  lemma ResponseTextSplits(r: Response)
    ensures ResponseText(r)
            == LineText(ResponseLine(r.code), []) + HeadersText(ConnectionFields(r.keepAlive), [])
               + HeadersText(ContentFields(r.contentType, r.length), []) + CRLF + r.body
  {
    var a, b := ConnectionFields(r.keepAlive), ContentFields(r.contentType, r.length);
    var end := LineText("", r.body);
    HeadersTextAppends(a, b, end, []);
    HeadersTextAppends(a, [], [], HeadersText(b, end));
    HeadersTextAppends(b, [], [], end);
    assert [] + HeadersText(b, end) == HeadersText(b, end) && [] + end == end;
    assert end == CRLF + r.body;
    SplitParts(ResponseLine(r.code), HeadersText(a, []), HeadersText(b, []), r.body);
  }

  lemma SplitParts(line: string, a: string, b: string, body: string)
    ensures LineText(line, a + (b + (CRLF + body))) == LineText(line, []) + a + b + CRLF + body
  {
    var tail := b + (CRLF + body);
    assert LineText(line, a + tail) == LineText(line, []) + a + tail;
    assert LineText(line, []) + a + (b + (CRLF + body)) == LineText(line, []) + a + b + CRLF + body;
  }

  lemma {:induction false} JoinedLength(lines: seq<string>)
    requires lines != []
    ensures |JoinLines(lines)| == |CRLF| * (|lines| - 1) + TotalLength(lines)
    decreases |lines|
  {
    if |lines| == 1 {
      assert lines[..0] == [];
    } else {
      JoinedLength(lines[..|lines| - 1]);
    }
  }

  lemma NextField(fields: seq<HeaderField>, i: nat)
    requires i < |fields|
    ensures HeadersText(fields[..i + 1], []) == HeadersText(fields[..i], []) + HeaderText(fields[i]) + CRLF
  {
    var line := LineText(HeaderText(fields[i]), []);
    assert fields[..i + 1] == fields[..i] + [fields[i]];
    HeadersTextAppends(fields[..i], [fields[i]], [], []);
    assert HeadersText([fields[i]], []) == line == HeaderText(fields[i]) + CRLF;
    HeadersTextAppends(fields[..i], [], [], line);
    assert [] + line == line;
  }

  // The lines written so far, all but the last one with a line break.
  function Written(lines: seq<string>, i: nat): string
    requires i <= |lines|
  {
    JoinLines(lines[..i]) + if 0 < i < |lines| then CRLF else []
  }

  lemma WrittenNext(lines: seq<string>, i: nat)
    requires i < |lines|
    ensures Written(lines, i + 1) == Written(lines, i) + lines[i] + if i + 1 < |lines| then CRLF else []
  {
    assert lines[..i + 1][..i] == lines[..i];
  }

  // The files that can be mapped, by path; mapping an empty file fails. Failures have a message.
  datatype Disk = Disk(files: map<string, string>, message: string -> string) {
    function Map(path: string): Result<string, string> {
      if path in files && files[path] != [] then Ok(files[path]) else Err(message(path))
    }
  }

  // The text is the template, filled in some order of the parameters, with every line break written as CRLF.
  ghost predicate IsPage(template: string, params: map<string, string>, text: string) {
    exists order :: IsOrder(order, params) && text == JoinLines(SplitStringToLines(PutInOrder(template, order, params)))
  }

  const HTTP_STATUS_PAGE := "/http-status.html"

  function ErrorPage(code: StatusCode, message: string): string {
    "<html>" + CRLF + "<title>ERROR</title>" + CRLF + "<body>" + CRLF
    + "<p>" + ToDecimal(StatusCodeToInteger(code)) + " : " + StatusCodeToMessage(code) + "</p>" + CRLF
    + (if message != [] then "<p>" + message + "</p>" + CRLF else [])
    + "</body>" + CRLF + "</html>"
  }

  // What a response has to be for a file, which is mapped or not, and parameters, if there are any.
  ghost predicate Fits(r: Response, path: string, mapped: Result<string, string>, params: Option<map<string, string>>) {
    match mapped
    case Ok(data) =>
      && r.contentType == ContentTypeByFileName(path)
      && (if params.Some? then IsPage(data, params.value, r.body) && r.length == |r.body|
          else r.body == [] && r.length == |data|)
    case Err(message) =>
      r.contentType == "text/html" && r.body == ErrorPage(r.code, message) && r.length == |r.body|
  }

  lemma FitsHasNoBreak(r: Response, path: string, mapped: Result<string, string>,
                       params: Option<map<string, string>>)
    requires Fits(r, path, mapped, params)
    ensures NoBreak(r.contentType)
  {
    assert NoBreak("text/html");
    ContentTypeHasNoBreak(path);
  }

  class Builder {
    const disk: Disk
    var filePath: string
    var file: Option<string>
    var keepAlive: bool
    var statusCode: StatusCode

    constructor (disk: Disk, keepAlive: bool)
      ensures this.disk == disk && this.keepAlive == keepAlive
    {
      this.disk, this.keepAlive := disk, keepAlive;
      filePath, file, statusCode := "", None, OK;
    }

    method AddStatusLine(buffer: Buffer)
      requires buffer.Valid()
      modifies buffer, buffer.buf
      ensures buffer.Valid() && (buffer.buf == old(buffer.buf) || fresh(buffer.buf))
      ensures buffer.Contents() == old(buffer.Contents()) + LineText(ResponseLine(statusCode), [])
    {
      buffer.AppendLine(ResponseLine(statusCode));
      assert LineText(ResponseLine(statusCode), []) == ResponseLine(statusCode) + CRLF;
    }

    method AddHeaders(buffer: Buffer)
      requires buffer.Valid()
      modifies buffer, buffer.buf
      ensures buffer.Valid() && (buffer.buf == old(buffer.buf) || fresh(buffer.buf))
      ensures buffer.Contents() == old(buffer.Contents()) + HeadersText(ConnectionFields(keepAlive), [])
    {
      AppendFields(buffer, ConnectionFields(keepAlive));
    }

    // Each field on a line of its own.
    method AppendFields(buffer: Buffer, fields: seq<HeaderField>)
      requires buffer.Valid()
      modifies buffer, buffer.buf
      ensures buffer.Valid() && (buffer.buf == old(buffer.buf) || fresh(buffer.buf))
      ensures buffer.Contents() == old(buffer.Contents()) + HeadersText(fields, [])
    {
      for i := 0 to |fields|
        invariant buffer.Valid() && (buffer.buf == old(buffer.buf) || fresh(buffer.buf))
        invariant buffer.Contents() == old(buffer.Contents()) + HeadersText(fields[..i], [])
      {
        NextField(fields, i);
        assert old(buffer.Contents()) + HeadersText(fields[..i], []) + HeaderText(fields[i]) + CRLF
            == old(buffer.Contents()) + (HeadersText(fields[..i], []) + HeaderText(fields[i]) + CRLF);
        buffer.AppendLine(HeaderText(fields[i]));
      }
      assert fields[..|fields|] == fields;
    }

    // The headers of a file whose bytes are sent after the buffer.
    method AddMappedContent(buffer: Buffer)
      requires buffer.Valid() && file.Some?
      modifies buffer, buffer.buf
      ensures buffer.Valid() && (buffer.buf == old(buffer.buf) || fresh(buffer.buf))
      ensures buffer.Contents()
              == old(buffer.Contents())
                 + HeadersText(ContentFields(ContentTypeByFileName(filePath), |file.value|), []) + CRLF + []
    {
      AppendFields(buffer, ContentFields(ContentTypeByFileName(filePath), |file.value|));
      buffer.Append(CRLF);
    }

    method TextLength(lines: seq<string>) returns (length: nat)
      requires lines != []
      ensures length == |JoinLines(lines)|
    {
      length := |CRLF| * (|lines| - 1);
      for i := 0 to |lines|
        invariant length == |CRLF| * (|lines| - 1) + TotalLength(lines[..i])
      {
        assert lines[..i + 1][..i] == lines[..i];
        length := length + |lines[i]|;
      }
      assert lines[..|lines|] == lines;
      JoinedLength(lines);
    }

    method AppendLines(buffer: Buffer, lines: seq<string>)
      requires buffer.Valid()
      modifies buffer, buffer.buf
      ensures buffer.Valid() && (buffer.buf == old(buffer.buf) || fresh(buffer.buf))
      ensures buffer.Contents() == old(buffer.Contents()) + JoinLines(lines)
    {
      ghost var before := buffer.Contents();
      for i := 0 to |lines|
        invariant buffer.Valid() && (buffer.buf == old(buffer.buf) || fresh(buffer.buf))
        invariant buffer.Contents() == before + Written(lines, i)
      {
        WrittenNext(lines, i);
        if i != |lines| - 1 {
          assert before + Written(lines, i) + lines[i] + CRLF == before + (Written(lines, i) + lines[i] + CRLF);
          buffer.AppendLine(lines[i]);
        } else {
          assert before + Written(lines, i) + lines[i] == before + (Written(lines, i) + lines[i] + []);
          buffer.Append(lines[i]);
        }
      }
      assert lines[..|lines|] == lines && Written(lines, |lines|) == JoinLines(lines);
    }

    // The filled template, with every line break written as CRLF; the length is computed before the text is.
    method AddParamContent(buffer: Buffer, params: map<string, string>) returns (ghost body: string)
      requires buffer.Valid() && file.Some?
      modifies buffer, buffer.buf
      ensures buffer.Valid() && (buffer.buf == old(buffer.buf) || fresh(buffer.buf))
      ensures IsPage(file.value, params, body)
      ensures buffer.Contents()
              == old(buffer.Contents())
                 + HeadersText(ContentFields(ContentTypeByFileName(filePath), |body|), []) + CRLF + body
    {
      var content := PutParamIntoHTML(file.value, params);
      var lines := SplitStringToLines(content);
      body := JoinLines(lines);
      assert IsPage(file.value, params, body);
      var length := TextLength(lines);
      AppendFields(buffer, ContentFields(ContentTypeByFileName(filePath), length));
      buffer.Append(CRLF);
      AppendLines(buffer, lines);
    }

    method AddPredefinedErrorContent(buffer: Buffer, message: string)
      requires buffer.Valid()
      modifies buffer, buffer.buf
      ensures buffer.Valid() && (buffer.buf == old(buffer.buf) || fresh(buffer.buf))
      ensures var page := ErrorPage(statusCode, message);
              buffer.Contents()
              == old(buffer.Contents()) + HeadersText(ContentFields("text/html", |page|), []) + CRLF + page
    {
      var page := ErrorPage(statusCode, message);
      AppendFields(buffer, ContentFields("text/html", |page|));
      buffer.Append(CRLF);
      buffer.Append(page);
    }

    // The part of the response that depends on the file; an error is there when it could not be mapped.
    method AddContent(buffer: Buffer, params: Option<map<string, string>>, error: string) returns (ghost r: Response)
      requires buffer.Valid()
      modifies buffer, buffer.buf
      ensures buffer.Valid() && (buffer.buf == old(buffer.buf) || fresh(buffer.buf))
      ensures buffer.Contents()
              == old(buffer.Contents()) + HeadersText(ContentFields(r.contentType, r.length), []) + CRLF + r.body
      ensures r.code == statusCode && r.keepAlive == keepAlive
      ensures Fits(r, filePath, if file.Some? then Ok(file.value) else Err(error), params)
    {
      if file.Some? {
        if params.Some? {
          ghost var body := AddParamContent(buffer, params.value);
          r := Response(statusCode, keepAlive, ContentTypeByFileName(filePath), |body|, body);
        } else {
          AddMappedContent(buffer);
          r := Response(statusCode, keepAlive, ContentTypeByFileName(filePath), |file.value|, []);
        }
      } else {
        ghost var page := ErrorPage(statusCode, error);
        AddPredefinedErrorContent(buffer, error);
        r := Response(statusCode, keepAlive, "text/html", |page|, page);
      }
    }

    // The whole response, once the file is mapped.
    method AppendResponse(buffer: Buffer, params: Option<map<string, string>>, error: string)
      returns (ghost r: Response)
      requires buffer.Valid()
      modifies buffer, buffer.buf
      ensures buffer.Valid() && (buffer.buf == old(buffer.buf) || fresh(buffer.buf))
      ensures buffer.Contents() == old(buffer.Contents()) + ResponseText(r)
      ensures r.code == statusCode && r.keepAlive == keepAlive
      ensures Fits(r, filePath, if file.Some? then Ok(file.value) else Err(error), params)
    {
      ghost var before := buffer.Contents();
      AddHead(buffer);
      r := AddContent(buffer, params, error);
      Composed(before, buffer.Contents(), r);
    }

    // The part that does not depend on the file.
    method AddHead(buffer: Buffer)
      requires buffer.Valid()
      modifies buffer, buffer.buf
      ensures buffer.Valid() && (buffer.buf == old(buffer.buf) || fresh(buffer.buf))
      ensures buffer.Contents()
              == old(buffer.Contents()) + LineText(ResponseLine(statusCode), [])
                 + HeadersText(ConnectionFields(keepAlive), [])
    {
      AddStatusLine(buffer);
      AddHeaders(buffer);
    }

    /** Map the file and append a whole response: the filled template, the headers of a file that is to be sent after
        the buffer, or the page that reports why the file could not be mapped, each with its length. */
    method Build(buffer: Buffer, params: Option<map<string, string>>) returns (ghost r: Response)
      requires buffer.Valid()
      modifies this, buffer, buffer.buf
      ensures buffer.Valid() && (buffer.buf == old(buffer.buf) || fresh(buffer.buf))
      ensures keepAlive == old(keepAlive) && filePath == old(filePath)
      ensures statusCode == if disk.Map(filePath).Ok? then old(statusCode) else BadRequest
      ensures file == if disk.Map(filePath).Ok? then Some(disk.Map(filePath).value) else None
      ensures buffer.Contents() == old(buffer.Contents()) + ResponseText(r)
      ensures r.code == statusCode && r.keepAlive == keepAlive
      ensures Fits(r, filePath, disk.Map(filePath), params)
    {
      var mapped := disk.Map(filePath);
      if mapped.Ok? {
        file := Some(mapped.value);
        r := AppendResponse(buffer, params, "");
      } else {
        file, statusCode := None, BadRequest;
        r := AppendResponse(buffer, params, mapped.error);
      }
    }
  }

  lemma Composed(before: string, contents: string, r: Response)
    requires contents
             == before + LineText(ResponseLine(r.code), []) + HeadersText(ConnectionFields(r.keepAlive), [])
                + HeadersText(ContentFields(r.contentType, r.length), []) + CRLF + r.body
    ensures contents == before + ResponseText(r)
  {
    ResponseTextSplits(r);
    Regroup(before, LineText(ResponseLine(r.code), []), HeadersText(ConnectionFields(r.keepAlive), []),
            HeadersText(ContentFields(r.contentType, r.length), []), r.body);
  }

  lemma Regroup(before: string, line: string, a: string, b: string, body: string)
    ensures before + line + a + b + CRLF + body == before + (line + a + b + CRLF + body)
  {
  }
}
