/** The parser of HTTP requests: a state machine that is fed the lines of a buffer one by one. */
module Requests {
  import opened Wrappers
  import opened Strings
  import opened Buffers
  import opened Forms

  datatype Method = Get | Post | Put | Patch | Delete

  function MethodToString(m: Method): string {
    match m
    case Get => "GET"
    case Post => "POST"
    case Put => "PUT"
    case Patch => "PATCH"
    case Delete => "DELETE"
  }

  function StringToUpper(s: string): string {
    seq(|s|, i requires 0 <= i < |s| => if 'a' <= s[i] <= 'z' then s[i] - 'a' + 'A' else s[i])
  }

  function StringToMethod(s: string): Option<Method> {
    var upper := StringToUpper(s);
    if upper == "GET" then Some(Get)
    else if upper == "PATCH" then Some(Patch)
    else if upper == "POST" then Some(Post)
    else if upper == "DELETE" then Some(Delete)
    else if upper == "PUT" then Some(Put)
    else None
  }

  datatype State = NotStarted | Header | Body | Finished

  datatype ParseError =
    | EmptyBuffer | BadStatusLine | BadMethod | NoEmptyLine
    | UnsupportedMethod | UnsupportedContentType | BadForm | AlreadyFinished

  // The fields of a request.
  datatype Fields = Fields(state: State, verb: Method, version: string, path: string, headers: Params, post: Params)

  // The fields after a step, and the exception that ended it, if any.
  datatype Stepped = Stepped(fields: Fields, error: Option<ParseError>)

  const INITIAL := Fields(NotStarted, Get, "", "", map[], map[])
  const FORM_TYPE := "application/x-www-form-urlencoded"
  const CONTENT_TYPE := "Content-Type"

  // "method path HTTP/version", with exactly two spaces.
  function StatusLine(f: Fields, line: string): Stepped {
    var i := Find(line, " ");
    if i.None? then Stepped(f, Some(BadStatusLine)) else
    var rest := line[i.value + 1..];
    var j := Find(rest, " ");
    if j.None? then Stepped(f, Some(BadStatusLine)) else
    var tail := rest[j.value + 1..];
    if !("HTTP/" <= tail) || ' ' in tail then Stepped(f, Some(BadStatusLine)) else
    var verb := StringToMethod(line[..i.value]);
    if verb.None? then Stepped(f, Some(BadMethod)) else
    Stepped(f.(verb := verb.value, path := rest[..j.value], version := tail[5..], state := Header), None)
  }

  // "name:value", with one optional space before the value, which must not contain line breaks.
  function HeaderLine(f: Fields, line: string): Stepped {
    var i := Find(line, ":");
    var value := if i.Some? then DropSpace(line[i.value + 1..]) else [];
    if i.Some? && '\r' !in value && '\n' !in value then
      Stepped(f.(headers := Emplace(f.headers, line[..i.value], value)), None)
    else if line == [] then Stepped(f.(state := Body), None)
    else Stepped(f, Some(NoEmptyLine))
  }

  function DropSpace(s: string): string {
    if s != [] && s[0] == ' ' then s[1..] else s
  }

  function BodyLine(f: Fields, line: string): Stepped {
    if f.verb != Post then Stepped(f, Some(UnsupportedMethod))
    else if CONTENT_TYPE !in f.headers || f.headers[CONTENT_TYPE] != FORM_TYPE then
      Stepped(f, Some(UnsupportedContentType))
    else
      var r := Parsed(line, f.post);
      if r.ok then Stepped(f.(post := r.post, state := Finished), None)
      else Stepped(f.(post := r.post), Some(BadForm))
  }

  function Step(f: Fields, line: string): Stepped {
    match f.state
    case NotStarted => StatusLine(f, line)
    case Header => HeaderLine(f, line)
    case Body => BodyLine(f, line)
    case Finished => Stepped(f, Some(AlreadyFinished))
  }

  function FirstLine(s: string): string {
    var i := Find(s, CRLF);
    if i.None? then s else s[..i.value]
  }

  function AfterFirstLine(s: string): (r: string)
    ensures s != [] ==> |r| < |s|
  {
    var i := Find(s, CRLF);
    if i.None? then [] else s[i.value + |CRLF|..]
  }

  // What the parser consumes: the line, then the line break after it.
  lemma ConsumedLine(s: string)
    ensures |FirstLine(s)| <= |s|
    ensures match Find(s, CRLF)
            case None => s[|FirstLine(s)|..] == [] == AfterFirstLine(s)
            case Some(i) => |FirstLine(s)| == i && i + |CRLF| <= |s| && s[i..][|CRLF|..] == AfterFirstLine(s)
  {
  }

  // The client asked to keep the connection, in the one version that allows it.
  predicate KeepsAlive(version: string, headers: Params) {
    "Connection" in headers && version == "1.1" && headers["Connection"] == "keep-alive"
  }

  // How parsing ends: the fields, the exception, if any, and the bytes left in the buffer.
  datatype Outcome = Outcome(fields: Fields, error: Option<ParseError>, rest: string)

  function ParseFrom(f: Fields, s: string): Outcome
    decreases |s|
  {
    if s == [] then Outcome(f, None, [])
    else
      var r := Step(f, FirstLine(s));
      if r.error.Some? then Outcome(r.fields, r.error, s) else ParseFrom(r.fields, AfterFirstLine(s))
  }

  class Request {
    var state: State
    var verb: Method
    var version: string
    var path: string
    var headers: Params
    var post: Params

    ghost function View(): Fields
      reads this
    {
      Fields(state, verb, version, path, headers, post)
    }

    constructor ()
      ensures View() == INITIAL
    {
      state, verb, version, path, headers, post := NotStarted, Get, "", "", map[], map[];
    }

    method Clear()
      modifies this
      ensures View() == INITIAL
    {
      state, verb, version, path, headers, post := NotStarted, Get, "", "", map[], map[];
    }

    method ParseStatusLine(line: string) returns (error: Option<ParseError>)
      modifies this
      ensures Stepped(View(), error) == StatusLine(old(View()), line)
    {
      var i := Find(line, " ");
      if i.None? {
        return Some(BadStatusLine);
      }
      var rest := line[i.value + 1..];
      var j := Find(rest, " ");
      if j.None? || !("HTTP/" <= rest[j.value + 1..]) || ' ' in rest[j.value + 1..] {
        return Some(BadStatusLine);
      }
      var m := StringToMethod(line[..i.value]);
      if m.None? {
        return Some(BadMethod);
      }
      verb := m.value;
      path := rest[..j.value];
      version := rest[j.value + 1..][5..];
      state := Header;
      return None;
    }

    method ParseHeader(line: string) returns (error: Option<ParseError>)
      modifies this
      ensures Stepped(View(), error) == HeaderLine(old(View()), line)
    {
      var i := Find(line, ":");
      if i.Some? {
        var value := DropSpace(line[i.value + 1..]);
        if '\r' !in value && '\n' !in value {
          headers := Emplace(headers, line[..i.value], value);
          return None;
        }
      }
      if line == [] {
        state := Body;
        return None;
      }
      return Some(NoEmptyLine);
    }

    method ParseBody(body: string) returns (error: Option<ParseError>)
      modifies this
      ensures Stepped(View(), error) == BodyLine(old(View()), body)
    {
      if verb != Post {
        return Some(UnsupportedMethod);
      }
      if CONTENT_TYPE !in headers || headers[CONTENT_TYPE] != FORM_TYPE {
        return Some(UnsupportedContentType);
      }
      var ok;
      post, ok := ParseURLEncoded(body, post);
      if !ok {
        return Some(BadForm);
      }
      state := Finished;
      return None;
    }

    method ParseLine(line: string) returns (error: Option<ParseError>)
      modifies this
      ensures Stepped(View(), error) == Step(old(View()), line)
    {
      match state {
        case NotStarted => error := ParseStatusLine(line);
        case Header => error := ParseHeader(line);
        case Body => error := ParseBody(line);
        case Finished => error := Some(AlreadyFinished);
      }
    }

    /** Parse the buffer line by line. `content` always equals the readable bytes; a rejected line stays at the
        beginning of the buffer. */
    method Parse(buffer: Buffer) returns (error: Option<ParseError>)
      requires buffer.Valid()
      modifies this, buffer
      ensures buffer.Valid() && buffer.buf == old(buffer.buf)
      ensures old(buffer.Contents()) == [] ==>
                error == Some(EmptyBuffer) && View() == INITIAL && buffer.Contents() == []
      ensures old(buffer.Contents()) != [] ==>
                Outcome(View(), error, buffer.Contents()) == ParseFrom(INITIAL, old(buffer.Contents()))
    {
      Clear();
      if buffer.Empty() {
        return Some(EmptyBuffer);
      }
      var content := buffer.ReadableString();
      while content != []
        invariant buffer.Valid() && buffer.buf == old(buffer.buf) && content == buffer.Contents()
        invariant ParseFrom(View(), content) == ParseFrom(INITIAL, old(buffer.Contents()))
        decreases |content|
      {
        var lineEnd := Find(content, CRLF);
        var line := if lineEnd.Some? then content[..lineEnd.value] else content;
        error := ParseLine(line);
        if error.Some? {
          return;
        }
        content := Consume(buffer, content, line, lineEnd.Some?);
      }
      return None;
    }

    // The line and the line break after it, if there is one, leave the buffer and `content`.
    method Consume(buffer: Buffer, content: string, line: string, ended: bool) returns (rest: string)
      requires buffer.Valid() && content == buffer.Contents()
      requires line == FirstLine(content) && ended == Find(content, CRLF).Some?
      modifies buffer
      ensures buffer.Valid() && buffer.buf == old(buffer.buf)
      ensures rest == AfterFirstLine(content) == buffer.Contents()
    {
      ConsumedLine(content);
      buffer.Retrieve(|line|);
      rest := content[|line|..];
      if ended {
        rest := rest[|CRLF|..];
        buffer.Retrieve(|CRLF|);
      }
    }

    predicate KeepAlive()
      reads this
    {
      KeepsAlive(version, headers)
    }
  }
}
