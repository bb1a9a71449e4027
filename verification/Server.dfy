/** The processing of one connection: from received bytes to a framed reply. */
module Servers {
  import opened Wrappers
  import opened Sockets
  import opened Decimals
  import opened Forms
  import opened Requests
  import opened RequestLaws
  import opened Responses

  const INDEX_PAGE := "/index.html"

  function GetOrEmpty(params: Params, key: string): string {
    if key in params then params[key] else ""
  }

  // A user's input; the test for its message repeats the test for the user.
  function ExtractUserMessage(post: Params): Option<Params> {
    var user, msg := GetOrEmpty(post, "user"), GetOrEmpty(post, "msg");
    if user != [] then Some(map["user" := user, "msg" := msg]) else None
  }

  // The parameters of the index page; the message is hidden when there is no input.
  function IndexParams(post: Params): Params {
    var input := ExtractUserMessage(post);
    if input.Some? then input.value["hide-msg" := "false"] else map["hide-msg" := "true"]
  }

  function StatusParams(code: StatusCode, msg: string): Params {
    map["status-code" := ToDecimal(StatusCodeToInteger(code)), "status" := StatusCodeToMessage(code), "msg" := msg]
  }

  function RequestedPath(f: Fields): string {
    if f.path == [] || f.path == "/" then INDEX_PAGE else f.path
  }

  // Which page a parsed request leads to, and the parameters it is filled with (none for a file sent as it is).
  function PageOf(f: Fields, error: Option<ParseError>, describe: ParseError -> string): (string, Option<Params>) {
    if error.Some? then (HTTP_STATUS_PAGE, Some(StatusParams(BadRequest, describe(error.value))))
    else if RequestedPath(f) == INDEX_PAGE then (INDEX_PAGE, Some(IndexParams(f.post)))
    else (RequestedPath(f), None)
  }

  // The reply, and the file after it, that a parsed request must get from a disk.
  ghost predicate Answers(r: Response, file: string, f: Fields, error: Option<ParseError>, disk: Disk,
                          describe: ParseError -> string)
  {
    var page := PageOf(f, error, describe);
    var path, params, mapped := page.0, page.1, disk.Map(page.0);
    && r.keepAlive == KeepsAlive(f.version, f.headers)
    && r.code == (if error.Some? || mapped.Err? then BadRequest else OK)
    && Fits(r, path, mapped, params)
    && file == (if params.None? && mapped.Ok? then mapped.value else [])
  }

  /** Parse what has been received and append the reply to the writing buffer. Nothing happens when nothing has been
      received; after a rejected request, its rejected line is still there. */
  method Process(conn: Connection, disk: Disk, describe: ParseError -> string) returns (ready: bool, ghost r: Response)
    requires conn.Valid()
    modifies conn, conn.readBuf, conn.writeBuf, conn.writeBuf.buf
    ensures conn.Valid() && conn.readBuf.buf == old(conn.readBuf.buf)
    ensures conn.writeBuf.buf == old(conn.writeBuf.buf) || fresh(conn.writeBuf.buf)
    ensures ready == (old(conn.readBuf.Contents()) != [])
    ensures !ready ==>
              && conn.file == [] && conn.readBuf.Contents() == []
              && conn.writeBuf.Contents() == old(conn.writeBuf.Contents())
    ensures ready ==>
              var o := ParseFrom(INITIAL, old(conn.readBuf.Contents()));
              && conn.readBuf.Contents() == o.rest && conn.keepAlive == KeepsAlive(o.fields.version, o.fields.headers)
              && conn.writeBuf.Contents() == old(conn.writeBuf.Contents()) + ResponseText(r)
              && Answers(r, conn.file, o.fields, o.error, disk, describe)
  {
    conn.file := [];
    if conn.readBuf.ReadableSize() == 0 {
      r := Response(OK, false, "", 0, "");
      return false, r;
    }

    var request := new Request();
    var error := request.Parse(conn.readBuf);
    conn.keepAlive := request.KeepAlive();
    r := Reply(conn, request, error, disk, describe);
    ready := true;
  }

  // The part of `Process` that decides what to reply with.
  method ChoosePage(request: Request, error: Option<ParseError>, describe: ParseError -> string)
    returns (path: string, params: Option<Params>, code: StatusCode)
    ensures (path, params) == PageOf(request.View(), error, describe)
    ensures code == if error.Some? then BadRequest else OK
  {
    if error.Some? {
      return HTTP_STATUS_PAGE, Some(StatusParams(BadRequest, describe(error.value))), BadRequest;
    }
    path := request.path;
    if path == [] || path == "/" {
      path := INDEX_PAGE;
    }
    params := if path == INDEX_PAGE then Some(IndexParams(request.post)) else None;
    code := OK;
  }

  // The part of `Process` after parsing: build the reply and keep the file that has to follow it.
  method Reply(conn: Connection, request: Request, error: Option<ParseError>, disk: Disk,
               describe: ParseError -> string)
    returns (ghost r: Response)
    requires conn.Valid() && conn.file == [] && conn.keepAlive == KeepsAlive(request.version, request.headers)
    modifies conn`file, conn.writeBuf, conn.writeBuf.buf
    ensures conn.Valid() && (conn.writeBuf.buf == old(conn.writeBuf.buf) || fresh(conn.writeBuf.buf))
    ensures conn.writeBuf.Contents() == old(conn.writeBuf.Contents()) + ResponseText(r)
    ensures Answers(r, conn.file, old(request.View()), error, disk, describe)
  {
    var path, params, code := ChoosePage(request, error, describe);
    r := BuildReply(conn, path, params, code, disk);
  }

  // The reply with a page, or with a file that has to follow it.
  method BuildReply(conn: Connection, path: string, params: Option<Params>, code: StatusCode, disk: Disk)
    returns (ghost r: Response)
    requires conn.Valid() && conn.file == []
    modifies conn`file, conn.writeBuf, conn.writeBuf.buf
    ensures conn.Valid() && (conn.writeBuf.buf == old(conn.writeBuf.buf) || fresh(conn.writeBuf.buf))
    ensures conn.writeBuf.Contents() == old(conn.writeBuf.Contents()) + ResponseText(r)
    ensures r.keepAlive == conn.keepAlive && r.code == (if disk.Map(path).Err? then BadRequest else code)
    ensures Fits(r, path, disk.Map(path), params)
    ensures conn.file == if params.None? && disk.Map(path).Ok? then disk.Map(path).value else []
  {
    var builder := new Builder(disk, conn.keepAlive);
    builder.filePath, builder.statusCode := path, code;
    r := builder.Build(conn.writeBuf, params);
    if params.None? && builder.file.Some? {
      conn.file := builder.file.value;
    }
  }

  lemma BodyAppends(r: Response, file: string)
    ensures ResponseText(r) + file == ResponseText(r.(body := r.body + file))
  {
    var hs := HeaderFields(r);
    var r' := r.(body := r.body + file);
    assert LineText("", r'.body) == LineText("", r.body) + file;
    HeadersTextAppends(hs, [], LineText("", r.body), file);
    assert HeaderFields(r') == hs;
    var line, text := ResponseLine(r.code), HeadersText(hs, LineText("", r.body));
    assert LineText(line, text + file) == LineText(line, text) + file;
  }

  /** Whatever request was received: in the bytes of the reply, header and file together, the number under
      "Content-length" is the number of bytes after the first blank line. */
  lemma ReplyIsFramed(r: Response, file: string, f: Fields, error: Option<ParseError>, disk: Disk,
                      describe: ParseError -> string)
    requires Answers(r, file, f, error, disk, describe)
    ensures FirstLine(ResponseText(r) + file) == ResponseLine(r.code)
    ensures var (read, body) := ReadHeaders(INITIAL.(state := Header), AfterFirstLine(ResponseText(r) + file));
            && body == r.body + file && read.state.Body?
            && "Content-length" in read.headers && ParseDecimal(read.headers["Content-length"]) == Some(|body|)
  {
    var page := PageOf(f, error, describe);
    FitsHasNoBreak(r, page.0, disk.Map(page.0), page.1);
    BodyAppends(r, file);
    ResponseIsReadBack(r.(body := r.body + file));
  }

  // What was sent: the whole reply, or the beginning of it that got out before a write failed.
  ghost predicate Sent(sent: Option<nat>, before: string, outgoing: string, header: string, file: string,
                       quotas: seq<int>)
  {
    var n := SentBytes(quotas, |header|, |file|);
    && outgoing == before + (header + file)[..n]
    && sent == if n == |header| + |file| then Some(n) else None
  }

  // The part after receiving: process what is in the reading buffer and send the reply.
  method Respond(conn: Connection, disk: Disk, describe: ParseError -> string)
    returns (sent: Option<nat>, ghost r: Response)
    requires conn.Valid() && conn.writeBuf.Contents() == []
    modifies conn, conn.socket`quotas, conn.socket`outgoing, conn.readBuf, conn.writeBuf, conn.writeBuf.buf
    ensures conn.Valid()
    ensures old(conn.readBuf.Contents()) == [] ==>
              sent.None? && conn.socket.outgoing == old(conn.socket.outgoing) && conn.readBuf.Contents() == []
    ensures old(conn.readBuf.Contents()) != [] ==>
              var o := ParseFrom(INITIAL, old(conn.readBuf.Contents()));
              && Answers(r, conn.file, o.fields, o.error, disk, describe) && conn.readBuf.Contents() == o.rest
              && Sent(sent, old(conn.socket.outgoing), conn.socket.outgoing, ResponseText(r), conn.file,
                      old(conn.socket.quotas))
  {
    var ready;
    ready, r := Process(conn, disk, describe);
    if !ready {
      return None, r;
    }
    assert [] + ResponseText(r) == ResponseText(r);
    var size := conn.SendAll();
    sent := if size.Ok? then Some(size.value) else None;
  }

  /** Receiving, processing and sending: the reply to the bytes that were waiting in the reading buffer and on the
      socket, however they were cut, is sent, or a beginning of it when a write fails; nothing is sent when receiving
      fails or there are no such bytes. */
  method Serve(conn: Connection, disk: Disk, describe: ParseError -> string) returns (sent: Option<nat>, ghost r: Response)
    requires conn.Valid() && conn.writeBuf.Contents() == [] && NoneEmpty(conn.socket.incoming)
    modifies conn, conn.socket, conn.readBuf, conn.readBuf.buf, conn.writeBuf, conn.writeBuf.buf
    ensures conn.Valid()
    ensures var received := old(conn.readBuf.Contents()) + Flatten(old(conn.socket.incoming));
            if old(conn.socket.ending).Broken? || received == [] then
              sent.None? && conn.socket.outgoing == old(conn.socket.outgoing) && conn.readBuf.Contents() == received
            else
              var o := ParseFrom(INITIAL, received);
              && Answers(r, conn.file, o.fields, o.error, disk, describe) && conn.readBuf.Contents() == o.rest
              && Sent(sent, old(conn.socket.outgoing), conn.socket.outgoing, ResponseText(r), conn.file,
                      old(conn.socket.quotas))
  {
    var received := conn.ReceiveAll();
    if received.Err? {
      return None, Response(OK, false, "", 0, "");
    }
    sent, r := Respond(conn, disk, describe);
  }
}
