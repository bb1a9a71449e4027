/** The parser of log format patterns: raw strings and fields "%tag" or "%tag{format}". */
module LogPatterns {
  import opened Wrappers

  datatype RawField = RawField(rawStr: bool, content: string, format: string)

  function Text(content: string): RawField {
    RawField(true, content, "")
  }

  function Tag(content: string, format: string): RawField {
    RawField(false, content, format)
  }

  predicate IsAlpha(c: char) {
    'a' <= c <= 'z' || 'A' <= c <= 'Z'
  }

  const SMALL_LETTERS := "abcdefghijklmnopqrstuvwxyz"
  const CAPITAL_LETTERS := "ABCDEFGHIJKLMNOPQRSTUVWXYZ"

  lemma LetterAt(k: nat)
    requires k < 26
    ensures SMALL_LETTERS[k] == 'a' + k as char && CAPITAL_LETTERS[k] == 'A' + k as char
  {
  }

  // The character is in one of the two tables.
  ghost predicate IsLetter(c: char) {
    exists k :: 0 <= k < 26 && (c == SMALL_LETTERS[k] || c == CAPITAL_LETTERS[k])
  }

  /** The characters of a tag are the letters. */
  lemma LettersExactly(c: char)
    ensures IsAlpha(c) <==> IsLetter(c)
  {
    if 'a' <= c <= 'z' {
      LetterAt(c as nat - 'a' as nat);
    } else if 'A' <= c <= 'Z' {
      LetterAt(c as nat - 'A' as nat);
    }
    if k :| 0 <= k < 26 && (c == SMALL_LETTERS[k] || c == CAPITAL_LETTERS[k]) {
      LetterAt(k);
    }
  }

  // What follows '%': the tag, its format and the rest; none when the format is not closed.
  datatype Parsed = Parsed(tag: string, format: string, rest: string)

  // The length of the tag: letters, and stray closing braces.
  function TagEnd(s: string): (n: nat)
    ensures n <= |s|
    ensures forall i :: 0 <= i < n ==> IsAlpha(s[i]) || s[i] == '}'
    ensures n < |s| ==> !IsAlpha(s[n]) && s[n] != '}'
  {
    if s == [] || !(IsAlpha(s[0]) || s[0] == '}') then 0 else 1 + TagEnd(s[1..])
  }

  // The position of the first closing brace, or the length.
  function FormatEnd(s: string): (n: nat)
    ensures n <= |s|
    ensures forall i :: 0 <= i < n ==> s[i] != '}'
    ensures n < |s| ==> s[n] == '}'
  {
    if s == [] || s[0] == '}' then 0 else 1 + FormatEnd(s[1..])
  }

  function ParseField(s: string): (r: Option<Parsed>)
    ensures r.Some? ==> |r.value.rest| <= |s|
  {
    var n := TagEnd(s);
    if n < |s| && s[n] == '{' then
      var m := FormatEnd(s[n + 1..]);
      if n + 1 + m < |s| then Some(Parsed(s[..n], s[n + 1..n + 1 + m], s[n + 2 + m..])) else None
    else Some(Parsed(s[..n], "", s[n..]))
  }

  function Flushed(raw: string): seq<RawField> {
    if raw == [] then [] else [Text(raw)]
  }

  predicate StartsField(s: string) {
    s != [] && s[0] == '%' && !(|s| > 1 && s[1] == '%')
  }

  // The fields of the rest `s` of a pattern, `raw` being the raw string read so far; none for an exception.
  function Fields(raw: string, s: string): Option<seq<RawField>>
    decreases |s|
  {
    if s == [] then Some(Flushed(raw))
    else if !StartsField(s) then Fields(raw + [s[0]], s[1..])
    else
      var f := ParseField(s[1..]);
      if f.None? then None
      else Prepend(Flushed(raw) + [Tag(f.value.tag, f.value.format)], Fields([], f.value.rest))
  }

  lemma FieldsOfTag(raw: string, s: string, f: RawField, rest: string)
    requires StartsField(s) && !f.rawStr && ParseField(s[1..]) == Some(Parsed(f.content, f.format, rest))
    ensures Fields(raw, s) == Prepend(Flushed(raw) + [f], Fields([], rest))
  {
    assert f == Tag(f.content, f.format);
  }

  lemma NextChar(raw: string, s: string)
    requires s != [] && !StartsField(s)
    ensures Fields(raw, s) == Fields(raw + [s[0]], s[1..])
  {
  }

  lemma UnclosedTag(raw: string, s: string)
    requires StartsField(s) && ParseField(s[1..]).None?
    ensures Fields(raw, s).None?
  {
  }

  // The fields before a tag, the pending raw string and the tag are complete.
  lemma NextTag(found: seq<RawField>, raw: string, s: string, f: RawField, rest: string)
    requires StartsField(s) && !f.rawStr && ParseField(s[1..]) == Some(Parsed(f.content, f.format, rest))
    ensures Prepend(found, Fields(raw, s)) == Prepend(found + Flushed(raw) + [f], Fields([], rest))
  {
    FieldsOfTag(raw, s, f, rest);
    PrependTwice(found, Flushed(raw) + [f], Fields([], rest));
    assert found + (Flushed(raw) + [f]) == found + Flushed(raw) + [f];
  }

  /** The inner loop, over the part `s` of the pattern that follows a '%': find the tag, the format and the position
      where they end. */
  method ParseFieldIn(s: string) returns (ok: bool, tag: string, fmt: string, j: nat)
    ensures j <= |s|
    ensures ParseField(s) == if ok then Some(Parsed(tag, fmt, s[j..])) else None
  {
    j := 0;
    tag, fmt := "", "";
    var processing := false;
    var fmtBegin := 0;
    ghost var n := TagEnd(s);
    while j < |s|
      invariant j <= |s| && fmt == ""
      invariant !processing ==> j <= n && tag == if j == |s| then s else ""
      invariant processing ==> fmtBegin == n < j && s[n] == '{' && j <= n + 1 + FormatEnd(s[n + 1..])
      invariant processing && j < |s| ==> tag == s[..n]
      decreases |s| - j
    {
      if !processing && !IsAlpha(s[j]) && s[j] != '{' && s[j] != '}' {
        return true, s[..j], fmt, j;
      }
      if !processing && s[j] == '{' {
        assert j == n;
        tag := s[..j];
        processing := true;
        fmtBegin := j;
        j := j + 1;
      } else if processing && s[j] == '}' {
        assert s[n + 1..][j - n - 1] == '}';
        return true, tag, s[fmtBegin + 1..j], j + 1;
      } else {
        assert processing ==> s[n + 1..][j - n - 1] != '}';
        j := j + 1;
        if j == |s| && tag == [] {
          tag := s;
        }
      }
    }
    ok := !processing;
    assert s[..|s|] == s && s[|s|..] == [];
  }

  lemma Later(s: string, i: nat, j: nat)
    requires i + j <= |s|
    ensures s[i..][j..] == s[i + j..]
  {
  }

  // The tag at a position of the pattern, after the pending raw string, and the position behind it.
  method TakeTag(pattern: string, i: nat, rawStr: string, found: seq<RawField>)
    returns (ok: bool, more: seq<RawField>, j: nat)
    requires i < |pattern| && StartsField(pattern[i..])
    ensures ok ==> i < j <= |pattern|
    ensures if ok then Prepend(found, Fields(rawStr, pattern[i..])) == Prepend(more, Fields([], pattern[j..]))
            else Fields(rawStr, pattern[i..]).None?
  {
    more := found;
    if rawStr != [] {
      more := more + [Text(rawStr)];
    }
    assert more == found + Flushed(rawStr);
    var tag, fmt;
    Later(pattern, i, 1);
    ok, tag, fmt, j := ParseFieldIn(pattern[i + 1..]);
    if !ok {
      UnclosedTag(rawStr, pattern[i..]);
      return;
    }
    Later(pattern, i + 1, j);
    j := i + 1 + j;
    NextTag(found, rawStr, pattern[i..], Tag(tag, fmt), pattern[j..]);
    more := more + [Tag(tag, fmt)];
  }

  method ParsePattern(pattern: string) returns (fields: Option<seq<RawField>>)
    ensures fields == Fields([], pattern)
  {
    var rawStr: string := "";
    var found: seq<RawField> := [];
    var i: nat := 0;
    assert pattern[0..] == pattern;
    assert forall l: seq<RawField> :: [] + l == l;
    while i < |pattern|
      invariant i <= |pattern|
      invariant Fields([], pattern) == Prepend(found, Fields(rawStr, pattern[i..]))
      decreases |pattern| - i
    {
      ghost var s := pattern[i..];
      Later(pattern, i, 1);
      if pattern[i] != '%' || (i + 1 < |pattern| && pattern[i + 1] == '%') {
        NextChar(rawStr, s);
        rawStr := rawStr + [pattern[i]];
        i := i + 1;
        continue;
      }
      assert StartsField(s);
      var ok;
      ok, found, i := TakeTag(pattern, i, rawStr, found);
      if !ok {
        return None;
      }
      rawStr := [];
    }
    if rawStr != [] {
      found := found + [Text(rawStr)];
    }
    assert found == found + [];
    return Some(found);
  }

  // ----- Other patterns

  /** Of two percent signs the first one is text, and the second one may start a field. */
  lemma TwoPercents(raw: string, rest: string)
    ensures Fields(raw, "%" + ("%" + rest)) == Fields(raw + "%", "%" + rest)
  {
    var s := "%" + ("%" + rest);
    assert s[1..] == "%" + rest && s[0] == '%' && s[1] == '%';
  }

  /** Text before a field changes nothing about whether the pattern is correct. */
  lemma {:induction false} TextDoesNotMatter(a: string, b: string, s: string)
    ensures Fields(a, s).None? <==> Fields(b, s).None?
    decreases |s|
  {
    if s != [] && !StartsField(s) {
      TextDoesNotMatter(a + [s[0]], b + [s[0]], s[1..]);
    }
  }

  /** A format that is not closed makes the pattern incorrect. */
  lemma UnclosedFormat(raw: string, tag: string, text: string)
    requires (forall c :: c in tag ==> IsAlpha(c)) && '}' !in text
    ensures Fields(raw, "%" + (tag + ("{" + text))).None?
  {
    var rest := tag + ("{" + text);
    var s := "%" + rest;
    assert s[1..] == rest && rest[0] == if tag == [] then '{' else tag[0];
    assert tag != [] ==> tag[0] in tag;
    FormatBegins(tag, text);
    NothingCloses(text);
    assert ParseField(rest).None?;
  }

  lemma {:induction false} NothingCloses(text: string)
    requires '}' !in text
    ensures FormatEnd(text) == |text|
  {
    if text != [] {
      NothingCloses(text[1..]);
    }
  }

  // ----- Round trip

  function PrintField(f: RawField): string {
    if f.rawStr then f.content
    else ['%'] + (f.content + if f.format == [] then [] else ['{'] + (f.format + ['}']))
  }

  function Print(fs: seq<RawField>): string {
    if fs == [] then [] else PrintField(fs[0]) + Print(fs[1..])
  }

  predicate FieldOk(f: RawField) {
    if f.rawStr then f.content != [] && '%' !in f.content && f.format == []
    else f.content != [] && (forall c :: c in f.content ==> IsAlpha(c)) && '}' !in f.format
  }

  ghost predicate AllOk(fs: seq<RawField>) {
    forall i :: 0 <= i < |fs| ==> FieldOk(fs[i])
  }

  // A raw string cannot follow another one, nor follow a tag without a format that it would lengthen or give one.
  predicate MayFollow(f: RawField, g: RawField) {
    g.rawStr ==> !f.rawStr && (f.format == [] && g.content != [] ==>
      !IsAlpha(g.content[0]) && g.content[0] != '{' && g.content[0] != '}')
  }

  predicate Separated(fs: seq<RawField>) {
    |fs| < 2 || (MayFollow(fs[0], fs[1]) && Separated(fs[1..]))
  }

  // A raw string that is pending is continued by the characters of a raw string.
  lemma {:induction false} RawRun(raw: string, s: string, rest: string)
    requires '%' !in s
    ensures Fields(raw, s + rest) == Fields(raw + s, rest)
    decreases |s|
  {
    if s == [] {
      assert s + rest == rest && raw + s == raw;
    } else {
      assert (s + rest)[0] == s[0] && (s + rest)[1..] == s[1..] + rest;
      RawRun(raw + [s[0]], s[1..], rest);
      assert raw + [s[0]] + s[1..] == raw + s;
    }
  }

  lemma {:induction false} TagEndOf(t: string, rest: string)
    requires forall c :: c in t ==> IsAlpha(c)
    ensures TagEnd(t + rest) == |t| + TagEnd(rest)
  {
    if t == [] {
      assert t + rest == rest;
    } else {
      assert t[0] in t && (t + rest)[1..] == t[1..] + rest;
      TagEndOf(t[1..], rest);
    }
  }

  lemma {:induction false} FormatEndOf(f: string, rest: string)
    requires '}' !in f
    ensures FormatEnd(f + (['}'] + rest)) == |f|
  {
    var s := f + (['}'] + rest);
    if f != [] {
      assert s[1..] == f[1..] + (['}'] + rest);
      FormatEndOf(f[1..], rest);
    }
  }

  // How a printed tag is read back.
  lemma TagStarts(f: RawField, rest: string)
    requires FieldOk(f) && !f.rawStr
    ensures StartsField(PrintField(f) + rest)
    ensures (PrintField(f) + rest)[1..]
            == f.content + ((if f.format == [] then [] else ['{'] + (f.format + ['}'])) + rest)
  {
    var format := if f.format == [] then [] else ['{'] + (f.format + ['}']);
    var s := PrintField(f) + rest;
    assert s == ['%'] + (f.content + (format + rest));
    assert s[1] == f.content[0] && f.content[0] in f.content;
  }

  lemma FormatParses(t: string, f: string, rest: string)
    requires (forall c :: c in t ==> IsAlpha(c)) && '}' !in f
    ensures ParseField(t + (['{'] + (f + (['}'] + rest)))) == Some(Parsed(t, f, rest))
  {
    FormatBegins(t, f + (['}'] + rest));
    FormatEndOf(f, rest);
    FormatSlices(t, f, rest);
  }

  // An opening brace ends the tag and begins the format.
  lemma FormatBegins(t: string, inner: string)
    requires forall c :: c in t ==> IsAlpha(c)
    ensures var s := t + (['{'] + inner);
            TagEnd(s) == |t| < |s| && s[|t|] == '{' && s[|t| + 1..] == inner && s[..|t|] == t
  {
    TagEndOf(t, ['{'] + inner);
  }

  lemma FormatSlices(t: string, f: string, rest: string)
    ensures var s := t + (['{'] + (f + (['}'] + rest)));
            s[|t| + 1..|t| + 1 + |f|] == f && s[|t| + 2 + |f|..] == rest && |t| + 1 + |f| < |s|
  {
  }

  lemma FormattedTagParses(f: RawField, rest: string)
    requires FieldOk(f) && !f.rawStr && f.format != []
    ensures ParseField((PrintField(f) + rest)[1..]) == Some(Parsed(f.content, f.format, rest))
  {
    TagStarts(f, rest);
    assert ['{'] + (f.format + ['}']) + rest == ['{'] + (f.format + (['}'] + rest));
    FormatParses(f.content, f.format, rest);
  }

  lemma PlainTagParses(t: string, rest: string)
    requires forall c :: c in t ==> IsAlpha(c)
    requires rest != [] ==> !IsAlpha(rest[0]) && rest[0] != '{' && rest[0] != '}'
    ensures ParseField(t + rest) == Some(Parsed(t, "", rest))
  {
    TagEndOf(t, rest);
    assert (t + rest)[..|t|] == t && (t + rest)[|t|..] == rest;
  }

  // What a printed list starts with.
  lemma PrintHead(fs: seq<RawField>)
    requires AllOk(fs) && fs != []
    ensures Print(fs) != [] && Print(fs)[0] == if fs[0].rawStr then fs[0].content[0] else '%'
  {
    assert FieldOk(fs[0]);
  }

  // The pending raw string and the first field may stand next to each other.
  predicate Fits(raw: string, fs: seq<RawField>) {
    raw != [] && fs != [] ==> !fs[0].rawStr
  }

  // A tag that what follows it does not change.
  lemma TagParses(f: RawField, fs: seq<RawField>)
    requires FieldOk(f) && !f.rawStr && AllOk(fs) && (fs != [] ==> MayFollow(f, fs[0]))
    ensures StartsField(PrintField(f) + Print(fs))
    ensures ParseField((PrintField(f) + Print(fs))[1..]) == Some(Parsed(f.content, f.format, Print(fs)))
  {
    TagStarts(f, Print(fs));
    if f.format != [] {
      FormattedTagParses(f, Print(fs));
    } else {
      assert [] + Print(fs) == Print(fs);
      if fs != [] {
        PrintHead(fs);
        assert FieldOk(fs[0]);
      }
      PlainTagParses(f.content, Print(fs));
    }
  }

  lemma Associates(a: seq<RawField>, f: RawField, b: seq<RawField>)
    ensures a + [f] + b == a + ([f] + b)
    ensures (a + [f] + b)[|a|] == f && (a + [f] + b)[|a| + 1..] == b
  {
  }

  lemma {:induction false} SeparatedParses(raw: string, fs: seq<RawField>)
    requires AllOk(fs) && Separated(fs) && Fits(raw, fs)
    ensures Fields(raw, Print(fs)) == Some(Flushed(raw) + fs)
    decreases |fs|
  {
    if fs == [] {
      assert Flushed(raw) + fs == Flushed(raw);
    } else {
      var f, rest := fs[0], fs[1..];
      assert FieldOk(f) && fs == [f] + rest;
      if f.rawStr {
        assert raw == [] && [] + f.content == f.content && f == Text(f.content);
        RawRun(raw, f.content, Print(rest));
        SeparatedParses(f.content, rest);
        assert Flushed(raw) + fs == fs == Flushed(f.content) + rest;
      } else {
        TagParses(f, rest);
        FieldsOfTag(raw, Print(fs), f, Print(rest));
        SeparatedParses([], rest);
        assert Flushed([]) + rest == rest;
        Associates(Flushed(raw), f, rest);
      }
    }
  }

  // A pending raw string always shows up as the beginning of the first field.
  lemma {:induction false} PendingComesFirst(raw: string, s: string)
    requires raw != []
    ensures match Fields(raw, s)
            case None => true
            case Some(l) => l != [] && l[0].rawStr && raw <= l[0].content
    decreases |s|
  {
    if s != [] && !StartsField(s) {
      PendingComesFirst(raw + [s[0]], s[1..]);
    }
  }

  lemma {:induction false} PrintConcat(a: seq<RawField>, b: seq<RawField>)
    ensures Print(a + b) == Print(a) + Print(b)
  {
    if a == [] {
      assert a + b == b;
    } else {
      assert (a + b)[1..] == a[1..] + b;
      PrintConcat(a[1..], b);
    }
  }

  /** Printing what was read never gives a longer pattern. */
  lemma {:induction false} PrintIsNotLonger(raw: string, s: string)
    ensures match Fields(raw, s)
            case None => true
            case Some(l) => |Print(l)| <= |raw| + |s|
    decreases |s|
  {
    assert forall f: RawField :: [f][1..] == [];
    assert |Print(Flushed(raw))| == |raw|;
    if s == [] {
    } else if !StartsField(s) {
      PrintIsNotLonger(raw + [s[0]], s[1..]);
    } else {
      var f := ParseField(s[1..]);
      if f.Some? {
        PrintIsNotLonger([], f.value.rest);
        var tag := Tag(f.value.tag, f.value.format);
        assert |PrintField(tag)| + |f.value.rest| <= |s|;
        assert Print([tag]) == PrintField(tag) + [];
        PrintConcat(Flushed(raw), [tag]);
        if Fields([], f.value.rest).Some? {
          PrintConcat(Flushed(raw) + [tag], Fields([], f.value.rest).value);
        }
      }
    }
  }

  // A tag that is followed by a letter or a brace is lengthened or gets a format, or loses an empty format.
  lemma TagAbsorbs(t: string, rest: string)
    requires forall c :: c in t ==> IsAlpha(c)
    requires rest != [] && (IsAlpha(rest[0]) || rest[0] == '{' || rest[0] == '}')
    ensures match ParseField(t + rest)
            case None => true
            case Some(p) => p.tag != t || p.format != [] || |p.rest| < |rest|
  {
    TagEndOf(t, rest);
    assert (t + rest)[|t|] == rest[0];
  }

  // A tag without a format followed by a raw string that lengthens it or gives it a format is not read back.
  lemma AbsorbedTag(raw: string, f: RawField, fs: seq<RawField>)
    requires AllOk(fs) && FieldOk(f) && !f.rawStr && fs != [] && !MayFollow(f, fs[0])
    ensures Fields(raw, PrintField(f) + Print(fs)) != Some(Flushed(raw) + ([f] + fs))
  {
    var rest := Print(fs);
    var s := PrintField(f) + rest;
    TagStarts(f, rest);
    assert s[1..] == f.content + rest;
    PrintHead(fs);
    TagAbsorbs(f.content, rest);
    var p := ParseField(s[1..]);
    if p.Some? {
      var got, tail := Tag(p.value.tag, p.value.format), Fields([], p.value.rest);
      FieldsOfTag(raw, s, got, p.value.rest);
      Associates(Flushed(raw), f, fs);
      if tail.Some? {
        Associates(Flushed(raw), got, tail.value);
        PrintIsNotLonger([], p.value.rest);
      }
    }
  }

  // The fields after a tag that was read back were read from what was printed after it.
  lemma AfterTag(raw: string, f: RawField, fs: seq<RawField>)
    requires FieldOk(f) && !f.rawStr && AllOk(fs) && (fs != [] ==> MayFollow(f, fs[0]))
    requires Fields(raw, PrintField(f) + Print(fs)) == Some(Flushed(raw) + ([f] + fs))
    ensures Fields([], Print(fs)) == Some(fs)
  {
    TagParses(f, fs);
    FieldsOfTag(raw, PrintField(f) + Print(fs), f, Print(fs));
    Associates(Flushed(raw), f, fs);
    Associates(Flushed(raw), f, Fields([], Print(fs)).value);
  }

  lemma {:induction false} ParsedIsSeparated(raw: string, fs: seq<RawField>)
    requires AllOk(fs) && Fields(raw, Print(fs)) == Some(Flushed(raw) + fs)
    ensures Separated(fs) && Fits(raw, fs)
    decreases |fs|
  {
    if fs != [] {
      var f, rest := fs[0], fs[1..];
      assert FieldOk(f) && fs == [f] + rest;
      if f.rawStr {
        RawRun(raw, f.content, Print(rest));
        PendingComesFirst(raw + f.content, Print(rest));
        assert raw == [] && [] + f.content == f.content && f == Text(f.content);
        assert Flushed(raw) + fs == fs == Flushed(f.content) + rest;
        ParsedIsSeparated(f.content, rest);
      } else if rest != [] && !MayFollow(f, rest[0]) {
        AbsorbedTag(raw, f, rest);
      } else {
        AfterTag(raw, f, rest);
        assert Flushed([]) + rest == rest;
        ParsedIsSeparated([], rest);
      }
    }
  }

  /** Parsing the printed form of a list of fields returns the list if and only if no two raw strings are adjacent
      and no raw string starts with a letter or a brace right after a tag without a format. */
  lemma PatternRoundTrip(fs: seq<RawField>)
    requires AllOk(fs)
    ensures Fields([], Print(fs)) == Some(fs) <==> Separated(fs)
  {
    assert Flushed([]) + fs == fs;
    if Separated(fs) {
      SeparatedParses([], fs);
    }
    if Fields([], Print(fs)) == Some(fs) {
      ParsedIsSeparated([], fs);
    }
  }
}
