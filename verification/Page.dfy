/** Which page answers a request, from the bytes of the request to the text of the page. */
module Pages {
  import opened Wrappers
  import opened Buffers
  import opened Forms
  import opened Requests
  import opened RequestLaws
  import opened RequestShapes
  import opened Decimals
  import opened Responses
  import opened Servers
  import opened Conversations

  // The outcome and the reply that the bytes of a request lead to.
  ghost predicate Replied(s: string, o: Outcome, r: Reply, disk: Disk, describe: ParseError -> string) {
    s != [] && o == ParseFrom(INITIAL, s) && IsReply(r, o, disk, describe)
  }

  // The file is there and is not empty.
  predicate Mapped(disk: Disk, path: string) {
    path in disk.files && disk.files[path] != ""
  }

  // The page of a file, filled with parameters, and its headers.
  ghost predicate FilledPage(r: Response, disk: Disk, path: string, params: Params) {
    Mapped(disk, path) && r.contentType == "text/html" && r.length == |r.body| && IsPage(disk.files[path], params, r.body)
  }

  // The page that reports why a file could not be mapped.
  predicate FailurePage(r: Response, disk: Disk, path: string) {
    && !Mapped(disk, path) && r.code == BadRequest && r.contentType == "text/html" && r.length == |r.body|
    && r.body == ErrorPage(BadRequest, disk.message(path))
  }

  // What the user has posted, for the index page.
  function Posted(post: Params): Params {
    if "user" in post && post["user"] != "" then
      map["user" := post["user"], "msg" := if "msg" in post then post["msg"] else "", "hide-msg" := "false"]
    else map["hide-msg" := "true"]
  }

  /** An accepted request for the root or for "/index.html" is answered with the index page, filled with what the user
      has posted; the message is hidden if and only if no user is posted. */
  lemma IndexIsAnswered(s: string, o: Outcome, r: Reply, disk: Disk, describe: ParseError -> string)
    requires Replied(s, o, r, disk, describe) && o.error.None? && o.fields.path in {"", "/", "/index.html"}
    ensures r.file == []
    ensures if Mapped(disk, "/index.html") then
              r.head.code == OK && FilledPage(r.head, disk, "/index.html", Posted(o.fields.post))
            else FailurePage(r.head, disk, "/index.html")
  {
    IndexIsHtml("/index.html");
    IndexPage(o.fields, o.error, describe);
  }

  lemma IndexPage(f: Fields, error: Option<ParseError>, describe: ParseError -> string)
    requires error.None? && f.path in {"", "/", "/index.html"}
    ensures PageOf(f, error, describe) == ("/index.html", Some(Posted(f.post)))
  {
    assert IndexParams(f.post) == Posted(f.post);
  }

  /** An accepted request for another path is answered with that file as it is. */
  lemma FileIsAnswered(s: string, o: Outcome, r: Reply, disk: Disk, describe: ParseError -> string)
    requires Replied(s, o, r, disk, describe) && o.error.None? && o.fields.path !in {"", "/", "/index.html"}
    ensures var path := o.fields.path;
            if Mapped(disk, path) then
              && r.head.code == OK && r.head.body == [] && r.file == disk.files[path] && r.head.length == |r.file|
              && r.head.contentType == ContentTypeByFileName(path)
            else r.file == [] && FailurePage(r.head, disk, path)
  {
  }

  /** A rejected request is answered with the status page, filled with the reason. */
  lemma RejectionIsAnswered(s: string, o: Outcome, r: Reply, disk: Disk, describe: ParseError -> string)
    requires Replied(s, o, r, disk, describe) && o.error.Some?
    ensures r.file == [] && r.head.code == BadRequest
    ensures var params := map["status-code" := "400", "status" := "Bad Request", "msg" := describe(o.error.value)];
            if Mapped(disk, "/http-status.html") then FilledPage(r.head, disk, "/http-status.html", params)
            else FailurePage(r.head, disk, "/http-status.html")
  {
    StatusIsHtml("/http-status.html");
    RejectionParams(describe(o.error.value));
  }

  lemma RejectionParams(reason: string)
    ensures StatusParams(BadRequest, reason) == map["status-code" := "400", "status" := "Bad Request", "msg" := reason]
  {
    ThreeDigits(4, 0, 0);
    assert ToDecimal(400) == "400";
  }

  ghost predicate SameButCapitals(s: string, name: string) {
    |s| == |name| && forall i :: 0 <= i < |s| ==> SameOrCapital(s[i], name[i])
  }

  lemma LowerIsName(s: string, name: string)
    requires SameButCapitals(s, name) && forall i :: 0 <= i < |name| ==> !('A' <= name[i] <= 'Z')
    ensures StringToLower(s) == name
  {
    forall i | 0 <= i < |s|
      ensures StringToLower(s)[i] == name[i]
    {
      CapitalLetter(s[i], name[i]);
    }
  }

  /** The content type goes by the extension, whatever the directory and the case of its letters are; files with an
      unknown extension are plain bytes. */
  lemma ContentTypeOf(directory: string, base: string, extension: string, name: string)
    requires directory == [] || directory[|directory| - 1] == '/'
    requires base != [] && '/' !in base && extension != [] && '/' !in extension && '.' !in extension
    requires SameButCapitals(extension, name) && forall i :: 0 <= i < |name| ==> !('A' <= name[i] <= 'Z')
    ensures ContentTypeByFileName(directory + (base + "." + extension))
            == if "." + name in CONTENT_TYPES then CONTENT_TYPES["." + name] else "application/octet-stream"
  {
    ExtensionOf(directory, base, extension);
    LowerIsName(extension, name);
    assert StringToLower("." + extension) == "." + StringToLower(extension);
  }

  lemma HtmlType()
    ensures StringToLower(".html") == ".html" && ".html" in CONTENT_TYPES && CONTENT_TYPES[".html"] == "text/html"
  {
    assert |".html"| == 5;
    assert ".html" !in MEDIA_TYPES && ".html" !in APPLICATION_TYPES;
  }

  lemma HtmlPage(directory: string, base: string)
    requires directory == [] || directory[|directory| - 1] == '/'
    requires base != [] && '/' !in base
    ensures ContentTypeByFileName(directory + (base + "." + "html")) == "text/html"
  {
    HtmlType();
    assert '/' !in "html" && '.' !in "html";
    ExtensionOf(directory, base, "html");
    assert "." + "html" == ".html";
  }

  lemma IndexIsHtml(path: string)
    requires path == "/index.html"
    ensures ContentTypeByFileName(path) == "text/html"
  {
    var base := "index";
    assert '/' !in base;
    HtmlPage("/", base);
    assert "/" + (base + "." + "html") == path;
  }

  lemma StatusIsHtml(path: string)
    requires path == "/http-status.html"
    ensures ContentTypeByFileName(path) == "text/html"
  {
    var base := "http-status";
    StatusName(base, path);
    HtmlPage("/", base);
  }

  lemma StatusName(base: string, path: string)
    requires base == "http-status" && path == "/http-status.html"
    ensures base != [] && '/' !in base && "/" + (base + "." + "html") == path
  {
  }

  lemma FailureHead()
    ensures "<html>" + CRLF + "<title>ERROR</title>" + CRLF + "<body>" + CRLF
            == "<html>\r\n<title>ERROR</title>\r\n<body>\r\n"
  {
  }

  lemma FailureCode()
    ensures "<p>" + ToDecimal(StatusCodeToInteger(BadRequest)) + " : " + StatusCodeToMessage(BadRequest) + "</p>" + CRLF
            == "<p>400 : Bad Request</p>\r\n"
  {
    ThreeDigits(4, 0, 0);
    assert ToDecimal(400) == "400";
  }

  lemma FailureEnd(message: string)
    ensures "</body>" + CRLF + "</html>" == "</body>\r\n</html>"
    ensures "<p>" + message + "</p>" + CRLF == "<p>" + message + "</p>\r\n"
  {
    assert "<p>" + message + "</p>" + CRLF == "<p>" + message + ("</p>" + CRLF);
  }

  lemma Regroup(head: string, a: string, b: string, c: string, d: string, e: string, f: string, more: string, x: string,
                y: string, z: string)
    ensures head + a + b + c + d + e + f + more + x + y + z
            == head + (a + b + c + d + e + f) + more + (x + y + z)
  {
    assert head + a + b + c + d + e + f == head + (a + b + c + d + e + f);
    var before := head + (a + b + c + d + e + f) + more;
    assert before + x + y + z == before + (x + y + z);
  }

  /** The page that reports a failure. */
  lemma FailureText(message: string)
    ensures ErrorPage(BadRequest, message)
            == "<html>\r\n<title>ERROR</title>\r\n<body>\r\n" + "<p>400 : Bad Request</p>\r\n"
               + (if message == "" then "" else "<p>" + message + "</p>\r\n") + "</body>\r\n</html>"
  {
    FailureHead();
    FailureCode();
    FailureEnd(message);
    Regroup("<html>" + CRLF + "<title>ERROR</title>" + CRLF + "<body>" + CRLF,
            "<p>", ToDecimal(StatusCodeToInteger(BadRequest)), " : ", StatusCodeToMessage(BadRequest), "</p>", CRLF,
            if message != [] then "<p>" + message + "</p>" + CRLF else [], "</body>", CRLF, "</html>");
  }

  // ----- When the connection is kept

  // The first header of the name has the value.
  ghost predicate FirstSays(hs: seq<HeaderField>, name: string, value: string) {
    exists i :: 0 <= i < |hs| && hs[i] == HeaderField(name, value) && forall j :: 0 <= j < i ==> hs[j].name != name
  }

  lemma LookedUpExactly(hs: seq<HeaderField>, name: string, value: string)
    ensures var headers := HeaderMap(map[], hs);
            name in headers && headers[name] == value <==> FirstSays(hs, name, value)
  {
    FirstHeaderWins(map[], hs, name);
    if exists i :: 0 <= i < |hs| && hs[i].name == name {
      var i := FirstNamed(hs, name);
      assert hs[i] == HeaderField(name, hs[i].value);
    }
  }

  /** A printed request keeps its connection if and only if it is of version 1.1 and the first "Connection" header says
      "keep-alive". */
  lemma KeptExactly(m: Message)
    requires WellFormed(m)
    ensures Kept(ParseFrom(INITIAL, Print(m))) <==>
            m.version == "1.1" && FirstSays(m.headers, "Connection", "keep-alive")
  {
    RequestRoundTrip(m);
    LookedUpExactly(m.headers, "Connection", "keep-alive");
  }

  lemma FirstNamed(hs: seq<HeaderField>, name: string) returns (i: nat)
    requires exists k :: 0 <= k < |hs| && hs[k].name == name
    ensures i < |hs| && hs[i].name == name && forall j :: 0 <= j < i ==> hs[j].name != name
  {
    var k :| 0 <= k < |hs| && hs[k].name == name;
    i := 0;
    while hs[i].name != name
      invariant i <= k && forall j :: 0 <= j < i ==> hs[j].name != name
      decreases k - i
    {
      i := i + 1;
    }
  }

  /** A form may follow if and only if the first "Content-Type" header is that of forms. */
  lemma FormHeaderExactly(hs: seq<HeaderField>)
    ensures SaysForm(HeaderMap(map[], hs)) <==> FirstSays(hs, "Content-Type", "application/x-www-form-urlencoded")
  {
    LookedUpExactly(hs, "Content-Type", "application/x-www-form-urlencoded");
  }

  // ----- Requests in full

  /** A printed post of a form to the root gets the index page with the user and the message of the form. */
  lemma PostedIsShown(m: Message, r: Reply, disk: Disk, describe: ParseError -> string)
    requires WellFormed(m) && m.path == "/" && IsReply(r, ParseFrom(INITIAL, Print(m)), disk, describe)
    requires Mapped(disk, "/index.html")
    ensures r.file == [] && r.head.code == OK && FilledPage(r.head, disk, "/index.html", Posted(MapOf(m.form)))
  {
    var s, o := Print(m), ParseFrom(INITIAL, Print(m));
    RequestRoundTrip(m);
    assert s != [];
    IndexIsAnswered(s, o, r, disk, describe);
  }

  /** The simplest request. */
  lemma SimpleRequest(s: string)
    requires s == "GET / HTTP/1.1\r\n\r\n"
    ensures ParseFrom(INITIAL, s) == Outcome(Fields(Body, Get, "1.1", "/", map[], map[]), None, [])
  {
    var m := Message(Get, "/", "1.1", [], []);
    SimpleText(m);
    RequestRoundTrip(m);
  }

  lemma SimpleText(m: Message)
    requires m == Message(Get, "/", "1.1", [], [])
    ensures WellFormed(m) && Print(m) == "GET / HTTP/1.1\r\n\r\n"
  {
    assert StatusText(m) == "GET / HTTP/1.1";
    assert LineText("", "") == "\r\n";
    assert LineText("GET / HTTP/1.1", "\r\n") == "GET / HTTP/1.1\r\n\r\n";
  }
}
