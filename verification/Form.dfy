/** The body of a form: pairs of keys and values, URL-encoded, "=" after each key and "&" between pairs. */
module Forms {
  import opened Wrappers
  import opened UrlCodings

  type Params = map<string, string>

  // The parameters found so far, and whether the whole body was acceptable.
  datatype FormResult = FormResult(post: Params, ok: bool)

  // A key that is already there keeps its value.
  function Emplace(post: Params, key: string, value: string): Params {
    if key in post then post else post[key := value]
  }

  /** What the scanner makes of the rest `s` of a decoded body: `key` is the last key, empty when none is pending,
      and `text` is what has been read since the last delimiter. */
  function Scan(key: string, text: string, post: Params, s: string): FormResult
    decreases |s|
  {
    if s == [] then
      if key != [] && key !in post && text != [] then FormResult(post[key := text], true) else FormResult(post, false)
    else if s[0] == '=' then Scan(text, [], post, s[1..])
    else if s[0] == '+' then Scan(key, text + [' '], post, s[1..])
    else if s[0] == '&' then
      if key != [] then Scan([], [], Emplace(post, key, text), s[1..]) else FormResult(post, false)
    else Scan(key, text + [s[0]], post, s[1..])
  }

  function Parsed(body: string, post: Params): FormResult {
    var decoded := Decoded(body);
    if decoded.None? then FormResult(post, false) else Scan([], [], post, decoded.value)
  }

  // One character of the body.
  lemma ScanNext(key: string, text: string, post: Params, c: char, ahead: string, s: string)
    requires s != [] && s[0] == c && s[1..] == ahead
    ensures Scan(key, text, post, s)
            == if c == '=' then Scan(text, [], post, ahead)
               else if c == '+' then Scan(key, text + [' '], post, ahead)
               else if c != '&' then Scan(key, text + [c], post, ahead)
               else if key == [] then FormResult(post, false)
               else Scan([], [], Emplace(post, key, text), ahead)
  {
  }

  /** The scanner itself: two cursors over the decoded body, in which it replaces '+' while slicing keys and
      values out of it. A key is empty again once it has been moved into the map. */
  method ParseURLEncoded(body: string, post0: Params) returns (post: Params, ok: bool)
    ensures FormResult(post, ok) == Parsed(body, post0)
  {
    post := post0;
    var decoded := DecodeString(body);
    if decoded.None? {
      return post, false;
    }
    var text := decoded.value;
    var view := new char[|text|](i requires 0 <= i < |text| => text[i]);
    var key: string := "";
    var begin := 0;
    var end := 0;
    assert view[0..0] == [] && text[0..] == text;
    while end < view.Length
      invariant 0 <= begin <= end <= view.Length == |text|
      invariant view[end..] == text[end..]
      invariant Scan(key, view[begin..end], post, text[end..]) == Parsed(body, post0)
    {
      ghost var sofar, ahead := view[begin..end], text[end + 1..];
      assert view[end] == text[end..][0];
      ScanNext(key, sofar, post, view[end], ahead, text[end..]);
      if view[end] == '=' {
        key := view[begin..end];
        begin := end + 1;
        assert view[begin..begin] == [] && Scan(key, [], post, ahead) == Parsed(body, post0);
      } else if view[end] == '+' {
        view[end] := ' ';
        assert view[begin..end + 1] == sofar + [' '] && view[end + 1..] == ahead;
        assert Scan(key, sofar + [' '], post, ahead) == Parsed(body, post0);
      } else if view[end] == '&' {
        var val := view[begin..end];
        begin := end + 1;
        if key == [] {
          return post, false;
        }
        post := Emplace(post, key, val);
        key := "";
        assert view[begin..begin] == [] && Scan([], [], post, ahead) == Parsed(body, post0);
      } else {
        assert view[begin..end + 1] == sofar + [view[end]];
        assert Scan(key, sofar + [view[end]], post, ahead) == Parsed(body, post0);
      }
      end := end + 1;
    }

    var val := view[begin..end];
    if key != [] && key !in post && val != [] {
      return post[key := val], true;
    }
    return post, false;
  }

  // ----- Round trip

  // A pair, and one way to write its key and its value.
  datatype Field = Field(key: string, value: string, rawKey: string, rawValue: string)

  predicate WellEncoded(f: Field) {
    Encodes(f.key, f.rawKey) && Encodes(f.value, f.rawValue)
  }

  // One pair and what follows it.
  function FieldText(f: Field, rest: string): string {
    f.rawKey + ("=" + (f.rawValue + rest))
  }

  function FormText(fs: seq<Field>): string {
    if fs == [] then []
    else FieldText(fs[0], if |fs| == 1 then [] else "&" + FormText(fs[1..]))
  }

  // The parameters of a list of pairs: of several pairs with one key, the first one counts.
  function Collected(post: Params, fs: seq<Field>): Params
    decreases |fs|
  {
    if fs == [] then post else Collected(Emplace(post, fs[0].key, fs[0].value), fs[1..])
  }

  function MapOf(fs: seq<Field>): Params {
    Collected(map[], fs)
  }

  ghost predicate DistinctKeys(fs: seq<Field>) {
    forall i, j :: 0 <= i < j < |fs| ==> fs[i].key != fs[j].key
  }

  predicate NoDelimiter(s: string) {
    '=' !in s && '&' !in s && '+' !in s
  }

  predicate Clean(f: Field) {
    f.key != [] && NoDelimiter(f.key) && NoDelimiter(f.value)
  }

  lemma {:induction false} CollectedKeeps(post: Params, fs: seq<Field>, key: string)
    requires key in post
    ensures key in Collected(post, fs) && Collected(post, fs)[key] == post[key]
    decreases |fs|
  {
    if fs != [] {
      CollectedKeeps(Emplace(post, fs[0].key, fs[0].value), fs[1..], key);
    }
  }

  /** The first pair with a key gives its value. */
  lemma {:induction false} FirstPairWins(post: Params, fs: seq<Field>, i: nat)
    requires i < |fs| && fs[i].key !in post && forall j :: 0 <= j < i ==> fs[j].key != fs[i].key
    ensures fs[i].key in Collected(post, fs) && Collected(post, fs)[fs[i].key] == fs[i].value
    decreases |fs|
  {
    var post' := Emplace(post, fs[0].key, fs[0].value);
    if i > 0 {
      FirstPairWins(post', fs[1..], i - 1);
    } else {
      CollectedKeeps(post', fs[1..], fs[0].key);
    }
  }

  lemma {:induction false} CollectedKeys(post: Params, fs: seq<Field>, key: string)
    requires key !in post && forall i :: 0 <= i < |fs| ==> fs[i].key != key
    ensures key !in Collected(post, fs)
    decreases |fs|
  {
    if fs != [] {
      CollectedKeys(Emplace(post, fs[0].key, fs[0].value), fs[1..], key);
    }
  }

  /** The scanner reads a decoded piece without delimiters as the text it stands for. */
  lemma {:induction false} ScanPiece(key: string, text: string, post: Params, plain: string, s: string, rest: string)
    requires SameButPlus(plain, s) && NoDelimiter(plain)
    ensures Scan(key, text, post, s + rest) == Scan(key, text + plain, post, rest)
    decreases |s|
  {
    if s == [] {
      assert s + rest == rest && text + plain == text;
    } else {
      assert (s + rest)[0] == s[0] && (s + rest)[1..] == s[1..] + rest;
      assert plain[0] in plain;
      ScanPiece(key, text + [plain[0]], post, plain[1..], s[1..], rest);
      assert text + [plain[0]] + plain[1..] == text + plain;
    }
  }

  lemma DecodedField(f: Field, rest: string) returns (k: string, v: string)
    requires WellEncoded(f)
    ensures SameButPlus(f.key, k) && SameButPlus(f.value, v)
    ensures Decoded(FieldText(f, rest)) == Prepend(k, Prepend("=", Prepend(v, Decoded(rest))))
  {
    v := DecodedEncoding(f.value, f.rawValue, rest);
    var tail := "=" + (f.rawValue + rest);
    assert tail[1..] == f.rawValue + rest;
    k := DecodedEncoding(f.key, f.rawKey, tail);
  }

  lemma ScanField(post: Params, f: Field, k: string, v: string, rest: string)
    requires SameButPlus(f.key, k) && SameButPlus(f.value, v) && Clean(f)
    ensures Scan([], [], post, k + ("=" + (v + rest))) == Scan(f.key, f.value, post, rest)
  {
    var tail := "=" + (v + rest);
    assert tail[1..] == v + rest;
    ScanPiece([], [], post, f.key, k, tail);
    assert [] + f.key == f.key && [] + f.value == f.value;
    ScanPiece(f.key, [], post, f.value, v, rest);
  }

  // The last pair of a body.
  lemma LastFieldScans(f: Field, post: Params)
    requires WellEncoded(f) && Clean(f)
    ensures Parsed(FieldText(f, []), post)
            == if f.value != [] && f.key !in post then FormResult(post[f.key := f.value], true)
               else FormResult(post, false)
  {
    var k, v := DecodedField(f, []);
    ScanField(post, f, k, v, []);
  }

  // A pair that is followed by others.
  lemma FirstFieldScans(f: Field, post: Params, body: string)
    requires WellEncoded(f) && Clean(f) && Decoded(body).Some?
    ensures Parsed(FieldText(f, "&" + body), post) == Parsed(body, Emplace(post, f.key, f.value))
  {
    var rest := "&" + body;
    assert rest[1..] == body;
    var k, v := DecodedField(f, rest);
    var tail := "&" + Decoded(body).value;
    assert tail[1..] == Decoded(body).value;
    ScanField(post, f, k, v, tail);
  }

  ghost predicate CleanForm(fs: seq<Field>) {
    forall i :: 0 <= i < |fs| ==> WellEncoded(fs[i]) && Clean(fs[i])
  }

  ghost predicate Encoded(fs: seq<Field>) {
    forall i :: 0 <= i < |fs| ==> WellEncoded(fs[i])
  }

  lemma {:induction false} EncodedDecodes(fs: seq<Field>)
    requires Encoded(fs)
    ensures Decoded(FormText(fs)).Some?
  {
    if fs != [] {
      assert WellEncoded(fs[0]);
      EncodedDecodes(fs[1..]);
      var rest := if |fs| == 1 then [] else "&" + FormText(fs[1..]);
      assert |fs| != 1 ==> rest[1..] == FormText(fs[1..]);
      var _, _ := DecodedField(fs[0], rest);
    }
  }

  // The last pair is accepted: its value is not empty and its key is new.
  predicate LastIsNew(fs: seq<Field>, post: Params)
    requires fs != []
  {
    fs[|fs| - 1].value != [] && fs[|fs| - 1].key !in Collected(post, fs[..|fs| - 1])
  }

  // The first pair is collected first.
  lemma CollectedFirst(fs: seq<Field>, post: Params)
    requires |fs| > 1
    ensures var rest, post' := fs[1..], Emplace(post, fs[0].key, fs[0].value);
            && Collected(post, fs) == Collected(post', rest)
            && Collected(post, fs[..|fs| - 1]) == Collected(post', rest[..|rest| - 1])
            && (LastIsNew(fs, post) <==> LastIsNew(rest, post'))
  {
    assert fs[..|fs| - 1][1..] == fs[1..][..|fs[1..]| - 1];
  }

  lemma LastCollected(fs: seq<Field>, post: Params)
    requires |fs| == 1 && WellEncoded(fs[0]) && Clean(fs[0])
    ensures Parsed(FormText(fs), post)
            == if LastIsNew(fs, post) then FormResult(Collected(post, fs), true)
               else FormResult(Collected(post, fs[..|fs| - 1]), false)
  {
    LastFieldScans(fs[0], post);
    assert fs[1..] == [] && fs[..0] == [];
  }

  lemma FirstThenRest(fs: seq<Field>, post: Params)
    requires |fs| > 1 && CleanForm(fs)
    ensures Parsed(FormText(fs), post) == Parsed(FormText(fs[1..]), Emplace(post, fs[0].key, fs[0].value))
  {
    assert WellEncoded(fs[0]) && Clean(fs[0]);
    EncodedDecodes(fs[1..]);
    FirstFieldScans(fs[0], post, FormText(fs[1..]));
  }

  /** What becomes of any encoding of clean pairs: they are collected, the first one with a key counting, and the body
      is accepted exactly when its last pair has a value and a new key. */
  lemma {:induction false} CleanFormScans(fs: seq<Field>, post: Params)
    requires fs != [] && CleanForm(fs)
    ensures Parsed(FormText(fs), post)
            == if LastIsNew(fs, post) then FormResult(Collected(post, fs), true)
               else FormResult(Collected(post, fs[..|fs| - 1]), false)
    decreases |fs|
  {
    assert WellEncoded(fs[0]) && Clean(fs[0]);
    if |fs| == 1 {
      LastCollected(fs, post);
    } else {
      CollectedFirst(fs, post);
      FirstThenRest(fs, post);
      CleanFormScans(fs[1..], Emplace(post, fs[0].key, fs[0].value));
    }
  }

  ghost predicate CleanParams(post: Params) {
    forall k :: k in post ==> k != [] && NoDelimiter(k) && NoDelimiter(post[k])
  }

  // Scanning only ever produces non-empty keys, and keys and values without delimiters.
  lemma {:induction false} ScanIsClean(key: string, text: string, post: Params, s: string)
    requires NoDelimiter(key) && NoDelimiter(text)
    requires CleanParams(post)
    ensures CleanParams(Scan(key, text, post, s).post)
    decreases |s|
  {
    if s == [] {
    } else if s[0] == '=' {
      ScanIsClean(text, [], post, s[1..]);
    } else if s[0] == '+' {
      ScanIsClean(key, text + [' '], post, s[1..]);
    } else if s[0] == '&' {
      if key != [] {
        ScanIsClean([], [], Emplace(post, key, text), s[1..]);
      }
    } else {
      ScanIsClean(key, text + [s[0]], post, s[1..]);
    }
  }

  lemma OnlyCleanForms(fs: seq<Field>)
    requires DistinctKeys(fs) && Encoded(fs) && Parsed(FormText(fs), map[]) == FormResult(MapOf(fs), true)
    ensures CleanForm(fs)
  {
    ScanIsClean([], [], map[], Decoded(FormText(fs)).value);
    forall i | 0 <= i < |fs|
      ensures Clean(fs[i])
    {
      FirstPairWins(map[], fs, i);
    }
  }

  lemma CleanFormParses(fs: seq<Field>)
    requires fs != [] && DistinctKeys(fs) && CleanForm(fs)
    ensures Parsed(FormText(fs), map[]) == FormResult(MapOf(fs), true) <==> fs[|fs| - 1].value != []
  {
    var front, last := fs[..|fs| - 1], fs[|fs| - 1];
    forall i | 0 <= i < |front|
      ensures front[i].key != last.key
    {
      assert front[i] == fs[i];
    }
    CollectedKeys(map[], front, last.key);
    assert LastIsNew(fs, map[]) <==> last.value != [];
    CleanFormScans(fs, map[]);
  }

  /** Parsing any encoding of a list of pairs with distinct keys yields exactly that map if and only if the list is
      not empty, no key is empty, no key or value contains '=', '&' or '+', and the last value is not empty:
      escaped delimiters are decoded before the body is split. */
  lemma FormRoundTrip(fs: seq<Field>)
    requires DistinctKeys(fs) && Encoded(fs)
    ensures Parsed(FormText(fs), map[]) == FormResult(MapOf(fs), true)
            <==> fs != [] && CleanForm(fs) && fs[|fs| - 1].value != []
  {
    if fs == [] {
      assert FormText(fs) == [] && !Parsed([], map[]).ok;
    } else if CleanForm(fs) {
      CleanFormParses(fs);
    } else if Parsed(FormText(fs), map[]) == FormResult(MapOf(fs), true) {
      OnlyCleanForms(fs);
    }
  }

  lemma EncodesMore(c: char, e: string, plain: string, encoded: string)
    requires EncodesChar(c, e) && Encodes(plain, encoded)
    ensures Encodes([c] + plain, e + encoded)
  {
    assert ([c] + plain)[1..] == plain && |e| in {1, 3};
    assert (e + encoded)[..|e|] == e && (e + encoded)[|e|..] == encoded;
  }

  lemma EscapedKey()
    ensures Encodes("a=b", "a%3Db") && Encodes("x", "x")
  {
    EncodesMore('b', "b", "", "");
    EncodesMore('x', "x", "", "");
    EncodesMore('=', "%3D", "b", "b");
    EncodesMore('a', "a", "=b", "%3Db");
    assert ['b'] + "" == "b" && ['x'] + "" == "x" && ['a'] + "=b" == "a=b" && "a" + "%3Db" == "a%3Db";
  }

  lemma EscapedKeyDecodes()
    ensures Decoded("a%3Db" + "=x") == Some("a=b" + "=x")
  {
    EscapedKey();
    var s := DecodedEncoding("a=b", "a%3Db", "=x");
    assert s == "a=b";
    assert "=x"[1..] == "x" && "x"[1..] == "";
    assert ['x'] + "" == "x" && ['='] + "x" == "=x";
  }

  lemma EscapedKeyScans()
    ensures Scan([], [], map[], "a=b" + "=x") == FormResult(map["b" := "x"], true)
  {
    assert "a=b" + "=x" == "a" + "=b=x" && "=b=x"[1..] == "b" + "=x" && "=x"[1..] == "x" + "" && [] + "a" == "a";
    ScanPiece([], [], map[], "a", "a", "=b=x");
    assert [] + "b" == "b" && [] + "x" == "x";
    ScanPiece("a", [], map[], "b", "b", "=x");
    ScanPiece("b", [], map[], "x", "x", "");
  }

  /** An escaped delimiter is not recovered: the key "a=b", written "a%3Db", becomes the key "b". */
  lemma EscapedDelimiterIsLost()
    ensures var fs := [Field("a=b", "x", "a%3Db", "x")];
            && DistinctKeys(fs) && Encoded(fs) && MapOf(fs) == map["a=b" := "x"]
            && Parsed(FormText(fs), map[]) == FormResult(map["b" := "x"], true)
  {
    EscapedKey();
    EscapedKeyDecodes();
    EscapedKeyScans();
    var f := Field("a=b", "x", "a%3Db", "x");
    assert FormText([f]) == "a%3Db" + "=x";
    assert [f][1..] == [];
  }
}
