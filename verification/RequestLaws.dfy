/** What the request parser guarantees for every input, and its round trip with a printer of requests. */
module RequestLaws {
  import opened Wrappers
  import opened Strings
  import opened Buffers
  import opened UrlCodings
  import opened Forms
  import opened Requests

  // ----- Parsing is a fold over lines

  function LineText(line: string, rest: string): string {
    line + (CRLF + rest)
  }

  // The lines between line breaks; a trailing line break does not begin another line.
  function Lines(s: string): seq<string>
    decreases |s|
  {
    if s == [] then [] else [FirstLine(s)] + Lines(AfterFirstLine(s))
  }

  function Unlines(lines: seq<string>): string {
    if lines == [] then [] else LineText(lines[0], Unlines(lines[1..]))
  }

  function FoldLines(f: Fields, lines: seq<string>): Stepped
    decreases |lines|
  {
    if lines == [] then Stepped(f, None)
    else
      var r := Step(f, lines[0]);
      if r.error.Some? then r else FoldLines(r.fields, lines[1..])
  }

  lemma FirstLineHasNoBreak(s: string, j: nat)
    ensures !MatchesAt(FirstLine(s), CRLF, j)
  {
    var i := Find(s, CRLF);
    if i.Some? && j + |CRLF| <= i.value {
      assert s[j..j + |CRLF|] == FirstLine(s)[j..j + |CRLF|];
      assert !MatchesAt(s, CRLF, j);
    }
  }

  lemma FirstLineSplit(s: string)
    requires Find(s, CRLF).Some?
    ensures s == LineText(FirstLine(s), AfterFirstLine(s))
  {
    var i := Find(s, CRLF).value;
    assert s[i..i + |CRLF|] == CRLF;
    assert s == s[..i] + (s[i..i + |CRLF|] + s[i + |CRLF|..]);
  }

  /** No line contains a line break. */
  lemma {:induction false} LinesHaveNoBreak(s: string)
    ensures forall i, j: nat :: 0 <= i < |Lines(s)| ==> !MatchesAt(Lines(s)[i], CRLF, j)
    decreases |s|
  {
    if s != [] {
      forall j: nat ensures !MatchesAt(FirstLine(s), CRLF, j) {
        FirstLineHasNoBreak(s, j);
      }
      LinesHaveNoBreak(AfterFirstLine(s));
    }
  }

  /** Putting a line break after each line gives the text back, with the one at the end added if it was missing. */
  lemma {:induction false} LinesSplit(s: string)
    ensures Unlines(Lines(s)) == s || Unlines(Lines(s)) == s + CRLF
    decreases |s|
  {
    if s != [] {
      var line, rest := FirstLine(s), AfterFirstLine(s);
      if Find(s, CRLF).Some? {
        FirstLineSplit(s);
      }
      LinesSplit(rest);
      assert Lines(s)[1..] == Lines(rest);
      LineTextAppend(line, rest, CRLF);
      LineTextAppend(line, [], []);
    }
  }

  lemma LineTextAppend(line: string, rest: string, more: string)
    ensures LineText(line, rest + more) == LineText(line, rest) + more
    ensures LineText(line, []) == line + CRLF
  {
  }

  // The lines that are parsed without an exception.
  function Accepted(f: Fields, s: string): seq<string>
    decreases |s|
  {
    if s == [] || Step(f, FirstLine(s)).error.Some? then []
    else [FirstLine(s)] + Accepted(Step(f, FirstLine(s)).fields, AfterFirstLine(s))
  }

  /** Parsing equals folding the state step over the lines, up to the first exception. */
  lemma {:induction false} ParseIsFold(f: Fields, s: string)
    ensures FoldLines(f, Lines(s)) == Stepped(ParseFrom(f, s).fields, ParseFrom(f, s).error)
    decreases |s|
  {
    if s != [] {
      assert Lines(s)[1..] == Lines(AfterFirstLine(s));
      ParseIsFold(Step(f, FirstLine(s)).fields, AfterFirstLine(s));
    }
  }

  lemma FoldMore(f: Fields, line: string, lines: seq<string>)
    requires Step(f, line).error.None?
    ensures FoldLines(f, [line] + lines) == FoldLines(Step(f, line).fields, lines)
  {
    assert ([line] + lines)[1..] == lines;
  }

  lemma OneMore(line: string, a: seq<string>, b: seq<string>)
    ensures [line] + (a + b) == [line] + a + b
  {
  }

  lemma {:induction false} AcceptedThenRest(f: Fields, s: string)
    ensures Lines(s) == Accepted(f, s) + Lines(ParseFrom(f, s).rest)
    decreases |s|
  {
    if s != [] && Step(f, FirstLine(s)).error.None? {
      var f', rest := Step(f, FirstLine(s)).fields, AfterFirstLine(s);
      AcceptedThenRest(f', rest);
      OneMore(FirstLine(s), Accepted(f', rest), Lines(ParseFrom(f', rest).rest));
    }
  }

  lemma {:induction false} AcceptedThenRejected(f: Fields, s: string)
    ensures FoldLines(f, Accepted(f, s)).error.None?
    ensures var r := ParseFrom(f, s);
            if r.error.None? then r.rest == []
            else r.rest != []
                 && Step(FoldLines(f, Accepted(f, s)).fields, FirstLine(r.rest)) == Stepped(r.fields, r.error)
    decreases |s|
  {
    if s != [] && Step(f, FirstLine(s)).error.None? {
      var f', rest := Step(f, FirstLine(s)).fields, AfterFirstLine(s);
      AcceptedThenRejected(f', rest);
      FoldMore(f, FirstLine(s), Accepted(f', rest));
    }
  }

  /** On success the buffer is empty; on failure it starts at the rejected line: the lines before it were accepted,
      and this one fails with the reported error. */
  lemma RestStartsAtRejectedLine(f: Fields, s: string)
    ensures Lines(s) == Accepted(f, s) + Lines(ParseFrom(f, s).rest)
    ensures FoldLines(f, Accepted(f, s)).error.None?
    ensures var r := ParseFrom(f, s);
            if r.error.None? then r.rest == []
            else r.rest != []
                 && Step(FoldLines(f, Accepted(f, s)).fields, FirstLine(r.rest)) == Stepped(r.fields, r.error)
  {
    AcceptedThenRest(f, s);
    AcceptedThenRejected(f, s);
  }

  // ----- What holds in every state

  function Rank(s: State): nat {
    match s
    case NotStarted => 0
    case Header => 1
    case Body => 2
    case Finished => 3
  }

  // Parameters come from an accepted form body only.
  ghost predicate Sound(f: Fields) {
    f.post != map[] ==>
      f.state.Finished? && f.verb.Post? && CONTENT_TYPE in f.headers && f.headers[CONTENT_TYPE] == FORM_TYPE
  }

  /** States only advance; and a request that is accepted with parameters is a finished form post. */
  lemma {:induction false} ParsingAdvances(f: Fields, s: string)
    requires Sound(f)
    ensures Rank(f.state) <= Rank(ParseFrom(f, s).fields.state)
    ensures ParseFrom(f, s).error.None? ==> Sound(ParseFrom(f, s).fields)
    ensures ParseFrom(f, s).error.None? && s != [] ==> !ParseFrom(f, s).fields.state.NotStarted?
    decreases |s|
  {
    if s != [] {
      var r := Step(f, FirstLine(s));
      StepAdvances(f, FirstLine(s));
      if r.error.None? {
        ParsingAdvances(r.fields, AfterFirstLine(s));
      }
    }
  }

  lemma StepAdvances(f: Fields, line: string)
    requires Sound(f)
    ensures Rank(f.state) <= Rank(Step(f, line).fields.state)
    ensures Step(f, line).error.None? ==> Sound(Step(f, line).fields) && !Step(f, line).fields.state.NotStarted?
  {
  }

  // ----- Round trip

  datatype HeaderField = HeaderField(name: string, value: string)

  // A request; an empty form stands for a request without a body.
  datatype Message = Message(verb: Method, path: string, version: string, headers: seq<HeaderField>, form: seq<Field>)

  predicate NoBreak(s: string) {
    '\r' !in s && '\n' !in s
  }

  predicate Readable(h: HeaderField) {
    NoBreak(h.name) && ':' !in h.name && NoBreak(h.value)
  }

  predicate SaysForm(headers: Params) {
    CONTENT_TYPE in headers && headers[CONTENT_TYPE] == FORM_TYPE
  }

  // Several headers with one name, and several pairs with one key, are allowed: the first one counts.
  ghost predicate WellFormed(m: Message) {
    && NoBreak(m.path) && ' ' !in m.path && NoBreak(m.version) && ' ' !in m.version
    && (forall i :: 0 <= i < |m.headers| ==> Readable(m.headers[i]))
    && (m.form != [] ==> m.verb.Post? && SaysForm(HeaderMap(map[], m.headers)))
    && (m.form != [] ==> CleanForm(m.form) && LastIsNew(m.form, map[]))
  }

  function HeaderText(h: HeaderField): string {
    h.name + ([':'] + ([' '] + h.value))
  }

  function HeadersText(hs: seq<HeaderField>, rest: string): string {
    if hs == [] then rest else LineText(HeaderText(hs[0]), HeadersText(hs[1..], rest))
  }

  function StatusText(m: Message): string {
    MethodToString(m.verb) + ([' '] + (m.path + ([' '] + ("HTTP/" + m.version))))
  }

  function Print(m: Message): string {
    LineText(StatusText(m), HeadersText(m.headers, LineText("", FormText(m.form))))
  }

  function HeaderMap(headers: Params, hs: seq<HeaderField>): Params
    decreases |hs|
  {
    if hs == [] then headers else HeaderMap(Emplace(headers, hs[0].name, hs[0].value), hs[1..])
  }

  lemma FirstLineOf(line: string, rest: string)
    requires '\r' !in line
    ensures FirstLine(LineText(line, rest)) == line && AfterFirstLine(LineText(line, rest)) == rest
  {
    FindAfter(line, CRLF, rest);
  }

  lemma MethodRoundTrip(m: Method)
    ensures StringToMethod(MethodToString(m)) == Some(m)
    ensures ' ' !in MethodToString(m) && NoBreak(MethodToString(m))
  {
    assert StringToUpper(MethodToString(m)) == MethodToString(m);
  }

  // Where the two spaces of a status line are found.
  lemma StatusSplits(verb: string, path: string, tail: string)
    requires ' ' !in verb && ' ' !in path
    ensures var rest := path + ([' '] + tail);
            var line := verb + ([' '] + rest);
            && Find(line, " ") == Some(|verb|) && line[..|verb|] == verb && line[|verb| + 1..] == rest
            && Find(rest, " ") == Some(|path|) && rest[..|path|] == path && rest[|path| + 1..] == tail
  {
    FindAfter(verb, " ", path + ([' '] + tail));
    FindAfter(path, " ", tail);
  }

  lemma VersionTail(version: string)
    requires ' ' !in version && NoBreak(version)
    ensures var tail := "HTTP/" + version;
            "HTTP/" <= tail && ' ' !in tail && tail[5..] == version && NoBreak(tail)
  {
  }

  lemma NoBreakConcat(a: string, b: string)
    requires NoBreak(a) && NoBreak(b)
    ensures NoBreak(a + b)
  {
  }

  lemma StatusHasNoBreak(m: Message)
    requires WellFormed(m)
    ensures NoBreak(StatusText(m))
  {
    MethodRoundTrip(m.verb);
    VersionTail(m.version);
    var tail := "HTTP/" + m.version;
    NoBreakConcat([' '], tail);
    NoBreakConcat(m.path, [' '] + tail);
    NoBreakConcat([' '], m.path + ([' '] + tail));
    NoBreakConcat(MethodToString(m.verb), [' '] + (m.path + ([' '] + tail)));
  }

  lemma StatusLineOf(f: Fields, verb: string, path: string, tail: string)
    requires ' ' !in verb && ' ' !in path && ' ' !in tail && "HTTP/" <= tail
    requires StringToMethod(verb).Some?
    ensures StatusLine(f, verb + ([' '] + (path + ([' '] + tail))))
            == Stepped(f.(verb := StringToMethod(verb).value, path := path, version := tail[5..], state := Header), None)
  {
    StatusSplits(verb, path, tail);
  }

  lemma StatusParses(f: Fields, m: Message)
    requires WellFormed(m)
    ensures StatusLine(f, StatusText(m))
            == Stepped(f.(verb := m.verb, path := m.path, version := m.version, state := Header), None)
  {
    MethodRoundTrip(m.verb);
    VersionTail(m.version);
    StatusLineOf(f, MethodToString(m.verb), m.path, "HTTP/" + m.version);
  }

  lemma HeaderParses(f: Fields, h: HeaderField)
    requires Readable(h)
    ensures HeaderLine(f, HeaderText(h)) == Stepped(f.(headers := Emplace(f.headers, h.name, h.value)), None)
    ensures NoBreak(HeaderText(h))
  {
    FindAfter(h.name, ":", [' '] + h.value);
    assert ([' '] + h.value)[1..] == h.value;
  }

  lemma {:induction false} HeadersParse(f: Fields, hs: seq<HeaderField>, rest: string)
    requires f.state.Header?
    requires forall i :: 0 <= i < |hs| ==> Readable(hs[i])
    ensures ParseFrom(f, HeadersText(hs, rest)) == ParseFrom(f.(headers := HeaderMap(f.headers, hs)), rest)
    decreases |hs|
  {
    if hs != [] {
      HeaderParses(f, hs[0]);
      FirstLineOf(HeaderText(hs[0]), HeadersText(hs[1..], rest));
      HeadersParse(f.(headers := Emplace(f.headers, hs[0].name, hs[0].value)), hs[1..], rest);
    }
  }

  lemma {:induction false} HeaderMapKeeps(headers: Params, hs: seq<HeaderField>, name: string)
    requires name in headers
    ensures name in HeaderMap(headers, hs) && HeaderMap(headers, hs)[name] == headers[name]
    decreases |hs|
  {
    if hs != [] {
      HeaderMapKeeps(Emplace(headers, hs[0].name, hs[0].value), hs[1..], name);
    }
  }

  /** A header has the value of the first line with its name, and is there only if there is one. */
  lemma {:induction false} FirstHeaderWins(headers: Params, hs: seq<HeaderField>, name: string)
    requires name !in headers
    ensures name in HeaderMap(headers, hs) <==> exists i :: 0 <= i < |hs| && hs[i].name == name
    ensures forall i :: 0 <= i < |hs| && hs[i].name == name && (forall j :: 0 <= j < i ==> hs[j].name != name) ==>
              name in HeaderMap(headers, hs) && HeaderMap(headers, hs)[name] == hs[i].value
    decreases |hs|
  {
    if hs != [] {
      var next := Emplace(headers, hs[0].name, hs[0].value);
      if hs[0].name == name {
        HeaderMapKeeps(next, hs[1..], name);
      } else {
        FirstHeaderWins(next, hs[1..], name);
        assert forall i :: 0 < i < |hs| ==> hs[1..][i - 1] == hs[i];
        forall i | 0 <= i < |hs| && hs[i].name == name && (forall j :: 0 <= j < i ==> hs[j].name != name)
          ensures name in HeaderMap(headers, hs) && HeaderMap(headers, hs)[name] == hs[i].value
        {
          assert hs[1..][i - 1] == hs[i];
          assert forall j :: 0 <= j < i - 1 ==> hs[1..][j] == hs[j + 1];
        }
      }
    }
  }

  lemma {:induction false} FormTextNoBreak(fs: seq<Field>)
    requires forall i :: 0 <= i < |fs| ==> WellEncoded(fs[i])
    ensures '\r' !in FormText(fs)
  {
    if fs != [] {
      var _ := DecodedEncoding(fs[0].key, fs[0].rawKey, []);
      var _ := DecodedEncoding(fs[0].value, fs[0].rawValue, []);
      FormTextNoBreak(fs[1..]);
    }
  }

  /** Parsing a printed request recovers its method, path, version, headers and parameters and consumes it all. */
  lemma RequestRoundTrip(m: Message)
    requires WellFormed(m)
    ensures ParseFrom(INITIAL, Print(m))
            == Outcome(Fields(if m.form == [] then Body else Finished, m.verb, m.version, m.path,
                              HeaderMap(map[], m.headers), MapOf(m.form)), None, [])
  {
    var body := FormText(m.form);
    var afterHeaders := LineText("", body);
    var f1 := INITIAL.(verb := m.verb, path := m.path, version := m.version, state := Header);
    StatusParses(INITIAL, m);
    StatusHasNoBreak(m);
    FirstLineOf(StatusText(m), HeadersText(m.headers, afterHeaders));
    assert ParseFrom(INITIAL, Print(m)) == ParseFrom(f1, HeadersText(m.headers, afterHeaders));

    HeadersParse(f1, m.headers, afterHeaders);
    var f2 := f1.(headers := HeaderMap(map[], m.headers));
    FirstLineOf("", body);
    assert Find("", ":").None?;
    var f3 := f2.(state := Body);
    assert ParseFrom(f2, afterHeaders) == ParseFrom(f3, body);

    BodyParses(f3, m);
  }

  lemma BodyParses(f: Fields, m: Message)
    requires WellFormed(m) && f.state.Body? && f.verb == m.verb && f.post == map[]
    requires f.headers == HeaderMap(map[], m.headers)
    ensures ParseFrom(f, FormText(m.form))
            == Outcome(f.(state := if m.form == [] then Body else Finished, post := MapOf(m.form)), None, [])
  {
    if m.form != [] {
      var body := FormText(m.form);
      FormTextNoBreak(m.form);
      FindNothing(body, CRLF);
      CleanFormScans(m.form, map[]);
      assert body != [] by {
        assert body[|m.form[0].rawKey|] == '=';
      }
    }
  }
}
