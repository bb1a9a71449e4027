/** What the scanner of form bodies does with any body, clean or not: it splits it twice. */
module FormShapes {
  import opened UrlCodings
  import opened Forms

  // The texts between the separators; there is one more of them than separators.
  function Split(s: string, separator: char): (r: seq<string>)
    ensures r != []
  {
    if s == [] then [""]
    else
      var rest := Split(s[1..], separator);
      if s[0] == separator then [""] + rest else [[s[0]] + rest[0]] + rest[1..]
  }

  function PlusToSpace(s: string): string {
    if s == [] then [] else [if s[0] == '+' then ' ' else s[0]] + PlusToSpace(s[1..])
  }

  // A pair's value is what follows the last '=', and its key is what is before that, back to the '=' before.
  function KeyOf(pair: string): string {
    var parts := Split(pair, '=');
    if |parts| == 1 then [] else PlusToSpace(parts[|parts| - 2])
  }

  function ValueOf(pair: string): string {
    var parts := Split(pair, '=');
    PlusToSpace(parts[|parts| - 1])
  }

  /** The pairs are taken one after the other, up to one without a key. The last one also needs a value and a new key. */
  function TakePairs(post: Params, pairs: seq<string>): FormResult
    requires pairs != []
    decreases |pairs|
  {
    var key, value := KeyOf(pairs[0]), ValueOf(pairs[0]);
    if |pairs| == 1 then
      if key != [] && key !in post && value != [] then FormResult(post[key := value], true) else FormResult(post, false)
    else if key == [] then FormResult(post, false)
    else TakePairs(Emplace(post, key, value), pairs[1..])
  }

  // The pair that a piece completes when a key and a text have been read before it.
  function Completed(key: string, text: string, piece: string): (string, string) {
    var parts := Split(piece, '=');
    if |parts| == 1 then (key, text + PlusToSpace(parts[0]))
    else (if |parts| == 2 then text + PlusToSpace(parts[0]) else PlusToSpace(parts[|parts| - 2]),
          PlusToSpace(parts[|parts| - 1]))
  }

  function TakeFrom(key: string, text: string, post: Params, pieces: seq<string>): FormResult
    requires pieces != []
  {
    var (k, v) := Completed(key, text, pieces[0]);
    if |pieces| == 1 then if k != [] && k !in post && v != [] then FormResult(post[k := v], true) else FormResult(post, false)
    else if k == [] then FormResult(post, false)
    else TakePairs(Emplace(post, k, v), pieces[1..])
  }

  lemma CompletedEquals(key: string, text: string, rest: string)
    ensures Completed(key, text, "=" + rest) == Completed(text, [], rest)
  {
    SplitFirst(rest);
    var parts := Split(rest, '=');
    assert PlusToSpace([""][0]) == [] && text + [] == text;
    assert [] + PlusToSpace(parts[0]) == PlusToSpace(parts[0]);
  }

  lemma SplitFirst(rest: string)
    ensures Split("=" + rest, '=') == [""] + Split(rest, '=')
  {
    assert ("=" + rest)[1..] == rest;
  }

  lemma CompletedOther(key: string, text: string, c: char, rest: string)
    requires c != '='
    ensures Completed(key, text, [c] + rest) == Completed(key, text + [if c == '+' then ' ' else c], rest)
  {
    var parts, d := Split(rest, '='), [if c == '+' then ' ' else c];
    assert ([c] + rest)[1..] == rest;
    assert Split([c] + rest, '=') == [[c] + parts[0]] + parts[1..];
    assert ([c] + parts[0])[1..] == parts[0];
    assert PlusToSpace([c] + parts[0]) == d + PlusToSpace(parts[0]);
    assert text + (d + PlusToSpace(parts[0])) == text + d + PlusToSpace(parts[0]);
  }

  lemma CompletedNothing(key: string, text: string)
    ensures Completed(key, text, "") == (key, text)
  {
    assert text + [] == text;
  }

  lemma FreshStart(post: Params, pieces: seq<string>)
    requires pieces != []
    ensures TakeFrom([], [], post, pieces) == TakePairs(post, pieces)
  {
    var parts := Split(pieces[0], '=');
    assert [] + PlusToSpace(parts[0]) == PlusToSpace(parts[0]);
    assert |parts| > 1 ==> Completed([], [], pieces[0]) == (KeyOf(pieces[0]), ValueOf(pieces[0]));
  }

  lemma {:induction false} ScanTakes(key: string, text: string, post: Params, s: string)
    ensures Scan(key, text, post, s) == TakeFrom(key, text, post, Split(s, '&'))
    decreases |s|
  {
    if s == [] {
      CompletedNothing(key, text);
    } else {
      var c, rest := s[0], Split(s[1..], '&');
      if c == '&' {
        CompletedNothing(key, text);
        assert ([""] + rest)[1..] == rest;
        if key != [] {
          ScanTakes([], [], Emplace(post, key, text), s[1..]);
          FreshStart(Emplace(post, key, text), rest);
        }
      } else {
        assert ([[c] + rest[0]] + rest[1..])[1..] == rest[1..];
        if c == '=' {
          ScanTakes(text, [], post, s[1..]);
          CompletedEquals(key, text, rest[0]);
        } else {
          ScanTakes(key, text + [if c == '+' then ' ' else c], post, s[1..]);
          CompletedOther(key, text, c, rest[0]);
        }
      }
    }
  }

  /** The scanner, with its two cursors over the string it rewrites, does the same as splitting the decoded body at the
      '&' and each pair at the '='. */
  lemma ScannerSplits(body: string, post: Params)
    ensures Parsed(body, post) == match Decoded(body)
                                  case None => FormResult(post, false)
                                  case Some(text) => TakePairs(post, Split(text, '&'))
  {
    if Decoded(body).Some? {
      var text := Decoded(body).value;
      ScanTakes([], [], post, text);
      FreshStart(post, Split(text, '&'));
    }
  }
}
