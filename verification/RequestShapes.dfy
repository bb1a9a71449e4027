/** Which requests the parser accepts: their shape, in both directions. */
module RequestShapes {
  import opened Wrappers
  import opened Strings
  import opened Forms
  import opened Requests
  import opened RequestLaws

  // A request may stop after any header line, after the blank line, or with one line of a form.
  datatype Ending = Open | Blank | Form(body: string)

  // The method is still in its own spelling, and each header value is all of the text after the colon.
  datatype Shape = Shape(verb: string, path: string, version: string, headers: seq<HeaderField>, ending: Ending)

  // ----- Status lines

  function StatusOf(verb: string, path: string, version: string): string {
    verb + ([' '] + (path + ([' '] + ("HTTP/" + version))))
  }

  predicate StatusOk(verb: string, path: string, version: string) {
    ' ' !in verb && ' ' !in path && ' ' !in version && StringToMethod(verb).Some?
  }

  lemma StatusOfParses(f: Fields, verb: string, path: string, version: string)
    requires StatusOk(verb, path, version)
    ensures StatusLine(f, StatusOf(verb, path, version))
            == Stepped(f.(verb := StringToMethod(verb).value, path := path, version := version, state := Header), None)
  {
    var tail := "HTTP/" + version;
    assert "HTTP/" <= tail && tail[5..] == version;
    StatusLineOf(f, verb, path, tail);
  }

  // The line is of the form of a status line.
  predicate WellSpaced(verb: string, path: string, version: string) {
    ' ' !in verb && ' ' !in path && ' ' !in version
  }

  lemma StatusRest(f: Fields, verb: string, rest: string)
    requires ' ' !in verb && StatusLine(f, verb + ([' '] + rest)).error != Some(BadStatusLine)
    ensures Find(rest, " ").Some?
  {
    FindAfter(verb, " ", rest);
  }

  lemma StatusTail(f: Fields, verb: string, path: string, tail: string)
    requires ' ' !in verb && ' ' !in path
    requires StatusLine(f, verb + ([' '] + (path + ([' '] + tail)))).error != Some(BadStatusLine)
    ensures "HTTP/" <= tail && ' ' !in tail
  {
    StatusSplits(verb, path, tail);
  }

  lemma StatusSplit(f: Fields, line: string) returns (verb: string, path: string, version: string)
    requires StatusLine(f, line).error != Some(BadStatusLine)
    ensures WellSpaced(verb, path, version) && line == StatusOf(verb, path, version)
  {
    var rest, tail;
    verb, rest := CharFound(line, ' ');
    StatusRest(f, verb, rest);
    path, tail := CharFound(rest, ' ');
    StatusTail(f, verb, path, tail);
    version := tail[|"HTTP/"|..];
    assert tail == "HTTP/" + version;
  }

  lemma StatusOutcome(f: Fields, verb: string, path: string, version: string)
    requires WellSpaced(verb, path, version)
    ensures StatusLine(f, StatusOf(verb, path, version)).error
            == if StringToMethod(verb).Some? then None else Some(BadMethod)
  {
    var tail := "HTTP/" + version;
    assert "HTTP/" <= tail && tail[5..] == version && ' ' !in tail;
    StatusSplits(verb, path, tail);
  }

  /** A status line is accepted if and only if it has exactly two spaces, a known method before the first and "HTTP/"
      after the second. */
  lemma StatusAccepted(f: Fields, line: string)
    ensures StatusLine(f, line).error.None? <==>
            exists verb, path, version :: StatusOk(verb, path, version) && line == StatusOf(verb, path, version)
  {
    if StatusLine(f, line).error.None? {
      var verb, path, version := StatusSplit(f, line);
      StatusOutcome(f, verb, path, version);
    }
    if verb, path, version :| StatusOk(verb, path, version) && line == StatusOf(verb, path, version) {
      StatusOfParses(f, verb, path, version);
    }
  }

  // ----- Methods

  const UPPER_LETTERS := "ABCDEFGHIJKLMNOPQRSTUVWXYZ"
  const LOWER_LETTERS := "abcdefghijklmnopqrstuvwxyz"

  // The same character, or the small letter for a capital one.
  ghost predicate SameOrSmall(c: char, capital: char) {
    c == capital || exists k :: 0 <= k < 26 && capital == UPPER_LETTERS[k] && c == LOWER_LETTERS[k]
  }

  ghost predicate SameButCase(s: string, name: string) {
    |s| == |name| && forall i :: 0 <= i < |s| ==> SameOrSmall(s[i], name[i])
  }

  lemma LettersInOrder(k: nat)
    requires k < 26
    ensures UPPER_LETTERS[k] == 'A' + k as char && LOWER_LETTERS[k] == 'a' + k as char
  {
  }

  // The same character, or the capital letter for a small one.
  ghost predicate SameOrCapital(c: char, small: char) {
    c == small || exists k :: 0 <= k < 26 && small == LOWER_LETTERS[k] && c == UPPER_LETTERS[k]
  }

  lemma CapitalLetter(c: char, small: char)
    requires SameOrCapital(c, small) && !('A' <= small <= 'Z')
    ensures (if 'A' <= c <= 'Z' then c - 'A' + 'a' else c) == small
  {
    if c != small {
      var k :| 0 <= k < 26 && small == LOWER_LETTERS[k] && c == UPPER_LETTERS[k];
      LettersInOrder(k);
    }
  }

  lemma SmallLetter(c: char, capital: char, k: nat)
    requires k < 26 && capital == 'A' + k as char
    ensures (exists n :: 0 <= n < 26 && capital == UPPER_LETTERS[n] && c == LOWER_LETTERS[n]) <==> c == 'a' + k as char
  {
    LettersInOrder(k);
    if n :| 0 <= n < 26 && capital == UPPER_LETTERS[n] && c == LOWER_LETTERS[n] {
      LettersInOrder(n);
      assert n == k;
    }
  }

  lemma UpperExactly(c: char, capital: char)
    requires 'A' <= capital <= 'Z'
    ensures SameOrSmall(c, capital) <==> (if 'a' <= c <= 'z' then c - 'a' + 'A' else c) == capital
  {
    SmallLetter(c, capital, capital as nat - 'A' as nat);
  }

  lemma UpperIsName(s: string, name: string)
    requires forall i :: 0 <= i < |name| ==> 'A' <= name[i] <= 'Z'
    ensures StringToUpper(s) == name <==> SameButCase(s, name)
  {
    forall i | 0 <= i < |name| && i < |s|
      ensures StringToUpper(s)[i] == name[i] <==> SameOrSmall(s[i], name[i])
    {
      UpperExactly(s[i], name[i]);
    }
  }

  /** The methods are known by their names, in any mixture of capital and small letters. */
  lemma MethodsExactly(s: string)
    ensures StringToMethod(s) == Some(Get) <==> SameButCase(s, "GET")
    ensures StringToMethod(s) == Some(Post) <==> SameButCase(s, "POST")
    ensures StringToMethod(s) == Some(Put) <==> SameButCase(s, "PUT")
    ensures StringToMethod(s) == Some(Patch) <==> SameButCase(s, "PATCH")
    ensures StringToMethod(s) == Some(Delete) <==> SameButCase(s, "DELETE")
  {
    UpperIsName(s, "GET");
    UpperIsName(s, "POST");
    UpperIsName(s, "PUT");
    UpperIsName(s, "PATCH");
    UpperIsName(s, "DELETE");
    assert "PUT"[0] != "GET"[0] && |"POST"| != |"GET"| && |"PATCH"| != |"DELETE"|;
  }

  /** A rejected status line has the right spaces but an unknown method, or it is not of that form at all. */
  lemma StatusErrors(f: Fields, line: string)
    ensures StatusLine(f, line).error == Some(BadMethod) <==>
            exists verb, path, version :: WellSpaced(verb, path, version) && StringToMethod(verb).None?
                                          && line == StatusOf(verb, path, version)
    ensures StatusLine(f, line).error.Some? ==>
              StatusLine(f, line).error.value in {BadMethod, BadStatusLine} && StatusLine(f, line).fields == f
  {
    if StatusLine(f, line).error == Some(BadMethod) {
      var verb, path, version := StatusSplit(f, line);
      StatusOutcome(f, verb, path, version);
    }
    if verb, path, version :| WellSpaced(verb, path, version) && StringToMethod(verb).None?
                              && line == StatusOf(verb, path, version) {
      StatusOutcome(f, verb, path, version);
    }
  }

  // ----- Header lines

  predicate RawOk(h: HeaderField) {
    ':' !in h.name && NoBreak(h.value)
  }

  function RawText(h: HeaderField): string {
    h.name + ([':'] + h.value)
  }

  function Trimmed(h: HeaderField): HeaderField {
    h.(value := DropSpace(h.value))
  }

  lemma RawHeaderParses(f: Fields, h: HeaderField)
    requires RawOk(h)
    ensures RawText(h) != []
    ensures HeaderLine(f, RawText(h)) == Stepped(f.(headers := Emplace(f.headers, h.name, Trimmed(h).value)), None)
  {
    FindAfter(h.name, ":", h.value);
  }

  lemma HeaderRest(f: Fields, name: string, text: string)
    requires ':' !in name && HeaderLine(f, name + ([':'] + text)).error.None?
    ensures NoBreak(text)
  {
    FindAfter(name, ":", text);
    assert (name + ([':'] + text))[|name|] == ':';
    assert text != [] && text[0] == ' ' ==> text == [' '] + DropSpace(text);
  }

  lemma HeaderSplit(f: Fields, line: string) returns (h: HeaderField)
    requires line != [] && HeaderLine(f, line).error.None?
    ensures RawOk(h) && line == RawText(h)
  {
    var name, text := CharFound(line, ':');
    HeaderRest(f, name, text);
    h := HeaderField(name, text);
  }

  /** One space before the value belongs to the line, not to the value; it may be missing. */
  lemma SpaceBeforeValue(f: Fields, name: string, value: string)
    requires ':' !in name && NoBreak(value)
    ensures HeaderLine(f, name + ([':'] + ([' '] + value)))
            == Stepped(f.(headers := Emplace(f.headers, name, value)), None)
    ensures value == [] || value[0] != ' ' ==>
              HeaderLine(f, name + ([':'] + value)) == Stepped(f.(headers := Emplace(f.headers, name, value)), None)
  {
    RawHeaderParses(f, HeaderField(name, [' '] + value));
    RawHeaderParses(f, HeaderField(name, value));
    assert ([' '] + value)[1..] == value;
  }

  /** A line among the headers is accepted if and only if it is empty or has a colon and no line break after the first. */
  lemma HeaderAccepted(f: Fields, line: string)
    ensures HeaderLine(f, line).error.None? <==> line == [] || exists h :: RawOk(h) && line == RawText(h)
  {
    if line == [] {
      assert Find([], ":").None?;
    } else if HeaderLine(f, line).error.None? {
      var h := HeaderSplit(f, line);
    }
    if h :| RawOk(h) && line == RawText(h) {
      RawHeaderParses(f, h);
    }
  }

  /** Why a body is rejected: the request is no post, it does not announce a form, or the form is not acceptable. */
  lemma BodyErrors(f: Fields, line: string)
    ensures BodyLine(f, line).error == Some(UnsupportedMethod) <==> !f.verb.Post?
    ensures BodyLine(f, line).error == Some(UnsupportedContentType) <==> f.verb.Post? && !SaysForm(f.headers)
    ensures BodyLine(f, line).error == Some(BadForm) <==>
            f.verb.Post? && SaysForm(f.headers) && !Parsed(line, f.post).ok
    ensures BodyLine(f, line).error.None? <==> f.verb.Post? && SaysForm(f.headers) && Parsed(line, f.post).ok
  {
  }

  /** What is rejected among the headers lacks the empty line before a body; and nothing may follow a body. */
  lemma OtherErrors(f: Fields, line: string)
    ensures HeaderLine(f, line).error.Some? ==> HeaderLine(f, line) == Stepped(f, Some(NoEmptyLine))
    ensures f.state.Finished? ==> Step(f, line) == Stepped(f, Some(AlreadyFinished))
  {
  }

  // ----- Whole requests

  function HeaderLines(hs: seq<HeaderField>): seq<string> {
    if hs == [] then [] else [RawText(hs[0])] + HeaderLines(hs[1..])
  }

  function AllTrimmed(hs: seq<HeaderField>): seq<HeaderField> {
    if hs == [] then [] else [Trimmed(hs[0])] + AllTrimmed(hs[1..])
  }

  // The headers that the lines stand for.
  function RawMap(headers: Params, hs: seq<HeaderField>): Params {
    HeaderMap(headers, AllTrimmed(hs))
  }

  lemma RawMapMore(headers: Params, h: HeaderField, hs: seq<HeaderField>)
    ensures RawMap(headers, [h] + hs) == RawMap(Emplace(headers, h.name, Trimmed(h).value), hs)
  {
    assert ([h] + hs)[1..] == hs;
    assert AllTrimmed([h] + hs)[1..] == AllTrimmed(hs);
  }

  function EndLines(ending: Ending): seq<string> {
    match ending
    case Open => []
    case Blank => [""]
    case Form(body) => ["", body]
  }

  predicate EndOk(f: Fields, ending: Ending) {
    ending.Form? ==> f.verb.Post? && SaysForm(f.headers) && Parsed(ending.body, f.post).ok
  }

  function EndFields(f: Fields, ending: Ending): Fields {
    match ending
    case Open => f
    case Blank => f.(state := Body)
    case Form(body) => f.(state := Finished, post := Parsed(body, f.post).post)
  }

  predicate AllRaw(hs: seq<HeaderField>) {
    forall h :: h in hs ==> RawOk(h)
  }

  lemma BlankLine(f: Fields)
    ensures HeaderLine(f, "") == Stepped(f.(state := Body), None)
  {
    FindNothing("", ":");
  }

  lemma EndFold(f: Fields, ending: Ending)
    requires f.state.Header? && EndOk(f, ending)
    ensures FoldLines(f, EndLines(ending)) == Stepped(EndFields(f, ending), None)
  {
    if !ending.Open? {
      BlankLine(f);
      var rest := if ending.Form? then [ending.body] else [];
      assert EndLines(ending) == [""] + rest;
      FoldMore(f, "", rest);
      if ending.Form? {
        FoldMore(f.(state := Body), ending.body, []);
        assert [ending.body] + [] == [ending.body];
      }
    }
  }

  lemma {:induction false} HeadersFold(f: Fields, hs: seq<HeaderField>, ending: Ending)
    requires f.state.Header? && AllRaw(hs) && EndOk(f.(headers := RawMap(f.headers, hs)), ending)
    ensures FoldLines(f, HeaderLines(hs) + EndLines(ending))
            == Stepped(EndFields(f.(headers := RawMap(f.headers, hs)), ending), None)
    decreases |hs|
  {
    if hs == [] {
      assert HeaderLines(hs) + EndLines(ending) == EndLines(ending);
      EndFold(f, ending);
    } else {
      var rest := HeaderLines(hs[1..]) + EndLines(ending);
      assert hs == [hs[0]] + hs[1..];
      RawMapMore(f.headers, hs[0], hs[1..]);
      RawHeaderParses(f, hs[0]);
      HeadersFold(f.(headers := Emplace(f.headers, hs[0].name, Trimmed(hs[0]).value)), hs[1..], ending);
      FoldMore(f, RawText(hs[0]), rest);
      assert HeaderLines(hs) + EndLines(ending) == [RawText(hs[0])] + rest;
    }
  }

  lemma MoreHeaders(f: Fields, h: HeaderField, hs: seq<HeaderField>, ending: Ending)
    requires RawOk(h) && AllRaw(hs)
    requires EndOk(f.(headers := RawMap(Emplace(f.headers, h.name, Trimmed(h).value), hs)), ending)
    ensures AllRaw([h] + hs) && EndOk(f.(headers := RawMap(f.headers, [h] + hs)), ending)
    ensures HeaderLines([h] + hs) + EndLines(ending) == [RawText(h)] + (HeaderLines(hs) + EndLines(ending))
  {
    RawMapMore(f.headers, h, hs);
    assert ([h] + hs)[1..] == hs;
  }

  lemma BodySplit(f: Fields, lines: seq<string>) returns (ending: Ending)
    requires f.state.Body? && FoldLines(f, lines).error.None?
    ensures [""] + lines == EndLines(ending) && EndOk(f, ending)
  {
    ending := if lines == [] then Blank else Form(lines[0]);
    if lines != [] {
      assert lines == [lines[0]] + lines[1..];
      assert Step(f, lines[0]).fields.state.Finished?;
      assert lines[1..] == [];
    }
  }

  lemma {:induction false} HeadersSplit(f: Fields, lines: seq<string>) returns (hs: seq<HeaderField>, ending: Ending)
    requires f.state.Header? && FoldLines(f, lines).error.None?
    ensures lines == HeaderLines(hs) + EndLines(ending) && AllRaw(hs)
    ensures EndOk(f.(headers := RawMap(f.headers, hs)), ending)
    decreases |lines|
  {
    if lines == [] {
      return [], Open;
    }
    var line, rest := lines[0], lines[1..];
    assert lines == [line] + rest;
    assert FoldLines(f, lines) == FoldLines(Step(f, line).fields, rest);
    if line == [] {
      BlankLine(f);
      hs := [];
      ending := BodySplit(f.(state := Body), rest);
    } else {
      var h := HeaderSplit(f, line);
      RawHeaderParses(f, h);
      hs, ending := HeadersSplit(f.(headers := Emplace(f.headers, h.name, Trimmed(h).value)), rest);
      MoreHeaders(f, h, hs, ending);
      hs := [h] + hs;
    }
  }

  ghost predicate ShapeOk(r: Shape) {
    StatusOk(r.verb, r.path, r.version) && AllRaw(r.headers) && EndOk(Headed(r), r.ending)
  }

  // The fields after the headers of the request.
  function Headed(r: Shape): Fields
    requires StringToMethod(r.verb).Some?
  {
    Fields(Header, StringToMethod(r.verb).value, r.version, r.path, RawMap(map[], r.headers), map[])
  }

  function ShapeLines(r: Shape): seq<string> {
    [StatusOf(r.verb, r.path, r.version)] + (HeaderLines(r.headers) + EndLines(r.ending))
  }

  /** A request of such a shape is accepted and read as what the shape says. */
  lemma ShapeParses(s: string, r: Shape)
    requires ShapeOk(r) && Lines(s) == ShapeLines(r)
    ensures ParseFrom(INITIAL, s) == Outcome(EndFields(Headed(r), r.ending), None, [])
  {
    var status := StatusOf(r.verb, r.path, r.version);
    StatusOfParses(INITIAL, r.verb, r.path, r.version);
    FoldMore(INITIAL, status, HeaderLines(r.headers) + EndLines(r.ending));
    HeadersFold(Headed(r).(headers := map[]), r.headers, r.ending);
    ParseIsFold(INITIAL, s);
    RestStartsAtRejectedLine(INITIAL, s);
  }

  lemma AcceptedHasShape(s: string) returns (r: Shape)
    requires s != [] && ParseFrom(INITIAL, s).error.None?
    ensures ShapeOk(r) && Lines(s) == ShapeLines(r)
  {
    ParseIsFold(INITIAL, s);
    var lines := Lines(s);
    assert lines == [lines[0]] + lines[1..];
    var verb, path, version := StatusSplit(INITIAL, lines[0]);
    StatusOutcome(INITIAL, verb, path, version);
    StatusOfParses(INITIAL, verb, path, version);
    var next := Step(INITIAL, lines[0]).fields;
    var hs, ending := HeadersSplit(next, lines[1..]);
    r := Shape(verb, path, version, hs, ending);
  }

  /** A request is accepted if and only if its lines are a status line, any number of header lines, and perhaps a blank
      line and, for a form post, a form; it need not be complete. */
  lemma AcceptedExactly(s: string)
    requires s != []
    ensures ParseFrom(INITIAL, s).error.None? <==> exists r :: ShapeOk(r) && Lines(s) == ShapeLines(r)
  {
    if ParseFrom(INITIAL, s).error.None? {
      var r := AcceptedHasShape(s);
    }
    if r :| ShapeOk(r) && Lines(s) == ShapeLines(r) {
      ShapeParses(s, r);
    }
  }
}
