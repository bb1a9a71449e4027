/** Replacing substrings, and the filling of HTML templates built on it. */
module Templates {
  import opened Strings

  // ----- Replacing all occurrences of a substring

  // Reading from the left, each occurrence is replaced and skipped; every other character is kept.
  function Replaced(s: string, from: string, to: string): string
    requires from != []
    decreases |s|
  {
    if s == [] then []
    else if MatchesAt(s, from, 0) then to + Replaced(s[|from|..], from, to)
    else [s[0]] + Replaced(s[1..], from, to)
  }

  // How many occurrences that is.
  function Occurrences(s: string, from: string): nat
    requires from != []
    decreases |s|
  {
    if s == [] then 0
    else if MatchesAt(s, from, 0) then 1 + Occurrences(s[|from|..], from)
    else Occurrences(s[1..], from)
  }

  // What is between the leftmost non-overlapping occurrences.
  function Pieces(s: string, from: string): (r: seq<string>)
    requires from != []
    ensures r != []
    decreases |s|
  {
    var i := Find(s, from);
    if i.None? then [s] else [s[..i.value]] + Pieces(s[i.value + |from|..], from)
  }

  function Join(pieces: seq<string>, glue: string): string {
    if pieces == [] then []
    else if |pieces| == 1 then pieces[0]
    else pieces[0] + (glue + Join(pieces[1..], glue))
  }

  lemma JoinMore(head: string, tail: seq<string>, glue: string)
    requires tail != []
    ensures Join([head] + tail, glue) == head + (glue + Join(tail, glue))
  {
    assert ([head] + tail)[1..] == tail;
  }

  lemma JoinFirst(s: string, from: string, glue: string)
    requires from != [] && Find(s, from).Some?
    ensures var i := Find(s, from).value;
            Join(Pieces(s, from), glue) == s[..i] + (glue + Join(Pieces(s[i + |from|..], from), glue))
  {
    var i := Find(s, from).value;
    JoinMore(s[..i], Pieces(s[i + |from|..], from), glue);
  }

  // An occurrence does not lie across the border of two texts.
  ghost predicate CleanBorder(a: string, b: string, from: string) {
    forall i: nat :: i < |a| < i + |from| ==> !MatchesAt(a + b, from, i)
  }

  // Texts with a clean border are replaced one by one.
  lemma {:induction false} ReplacedConcat(a: string, b: string, from: string, to: string)
    requires from != [] && CleanBorder(a, b, from)
    ensures Replaced(a + b, from, to) == Replaced(a, from, to) + Replaced(b, from, to)
    ensures Occurrences(a + b, from) == Occurrences(a, from) + Occurrences(b, from)
    decreases |a|
  {
    if a == [] {
      assert a + b == b;
    } else {
      var n := if MatchesAt(a + b, from, 0) then |from| else 1;
      assert MatchesAt(a + b, from, 0) <==> MatchesAt(a, from, 0) by {
        assert n <= |a| && |from| <= |a| ==> (a + b)[..|from|] == a[..|from|];
      }
      assert (a + b)[n..] == a[n..] + b && (a + b)[0] == a[0];
      forall i: nat | i < |a[n..]| < i + |from|
        ensures !MatchesAt(a[n..] + b, from, i)
      {
        MatchShifts(a + b, from, n, i);
        assert !MatchesAt(a + b, from, n + i);
      }
      ReplacedConcat(a[n..], b, from, to);
    }
  }

  // A beginning in which no occurrence starts is kept.
  lemma {:induction false} SkipPrefix(a: string, b: string, from: string, to: string)
    requires from != [] && forall i: nat :: i < |a| ==> !MatchesAt(a + b, from, i)
    ensures Replaced(a + b, from, to) == a + Replaced(b, from, to)
    ensures Occurrences(a + b, from) == Occurrences(b, from)
  {
    if a == [] {
      assert a + b == b;
    } else {
      assert !MatchesAt(a + b, from, 0);
      assert (a + b)[1..] == a[1..] + b && (a + b)[0] == a[0];
      forall i: nat | i < |a[1..]|
        ensures !MatchesAt(a[1..] + b, from, i)
      {
        MatchShifts(a + b, from, 1, i);
        assert !MatchesAt(a + b, from, i + 1);
      }
      SkipPrefix(a[1..], b, from, to);
      assert [a[0]] + (a[1..] + Replaced(b, from, to)) == a + Replaced(b, from, to);
    }
  }

  lemma ReplacedHead(from: string, rest: string, to: string)
    requires from != []
    ensures Replaced(from + rest, from, to) == to + Replaced(rest, from, to)
  {
    assert (from + rest)[..|from|] == from && (from + rest)[|from|..] == rest;
  }

  lemma CutAt(s: string, from: string, i: nat)
    requires MatchesAt(s, from, i)
    ensures s == s[..i] + (from + s[i + |from|..])
  {
    assert s == s[..i] + (s[i..i + |from|] + s[i + |from|..]);
  }

  lemma ReplacedAtCut(a: string, b: string, from: string, to: string)
    requires from != [] && forall i: nat :: i < |a| ==> !MatchesAt(a + (from + b), from, i)
    ensures Replaced(a + (from + b), from, to) == a + (to + Replaced(b, from, to))
  {
    SkipPrefix(a, from + b, from, to);
    ReplacedHead(from, b, to);
  }

  lemma ReplacedNowhere(s: string, from: string, to: string)
    requires from != [] && Find(s, from).None?
    ensures Replaced(s, from, to) == s
  {
    assert s + [] == s;
    SkipPrefix(s, [], from, to);
  }

  lemma ReplacedFirst(s: string, from: string, to: string)
    requires from != [] && Find(s, from).Some?
    ensures var i := Find(s, from).value;
            Replaced(s, from, to) == s[..i] + (to + Replaced(s[i + |from|..], from, to))
  {
    var i := Find(s, from).value;
    CutAt(s, from, i);
    ReplacedAtCut(s[..i], s[i + |from|..], from, to);
  }

  lemma Associate(a: string, b: string, c: string, d: string)
    ensures a + (b + (c + d)) == a + b + c + d
  {
  }

  method ReplaceAllSubstring(s: string, from: string, to: string) returns (r: string)
    requires from != []
    ensures r == Replaced(s, from, to)
  {
    r := "";
    var str := s;
    while str != []
      invariant r + Replaced(str, from, to) == Replaced(s, from, to)
      decreases |str|
    {
      var begin := Find(str, from);
      if begin.None? {
        ReplacedNowhere(str, from, to);
        r := r + str;
        return;
      }
      ReplacedFirst(str, from, to);
      var rest := str[begin.value + |from|..];
      Associate(r, str[..begin.value], to, Replaced(rest, from, to));
      r := r + str[..begin.value] + to;
      str := rest;
    }
    assert r + [] == r;
  }

  /** Replacing equals splitting at the leftmost non-overlapping occurrences and joining with the replacement. */
  lemma {:induction false} ReplacedJoinsPieces(s: string, from: string, to: string)
    requires from != []
    ensures Join(Pieces(s, from), to) == Replaced(s, from, to)
    decreases |s|
  {
    match Find(s, from)
    case None =>
      ReplacedNowhere(s, from, to);
    case Some(i) =>
      var rest := s[i + |from|..];
      JoinFirst(s, from, to);
      ReplacedJoinsPieces(rest, from, to);
      ReplacedFirst(s, from, to);
  }

  lemma BeginningHasNoOccurrence(s: string, from: string, n: nat, j: nat)
    requires n <= |s| && from != [] && forall k: nat :: k < n ==> !MatchesAt(s, from, k)
    ensures !MatchesAt(s[..n], from, j)
  {
    if j + |from| <= n {
      assert s[j..j + |from|] == s[..n][j..j + |from|];
      assert !MatchesAt(s, from, j);
    }
  }

  /** The pieces contain no occurrence. */
  lemma {:induction false} PiecesHaveNoOccurrence(s: string, from: string)
    requires from != []
    ensures forall i, j: nat :: 0 <= i < |Pieces(s, from)| ==> !MatchesAt(Pieces(s, from)[i], from, j)
    decreases |s|
  {
    var i := Find(s, from);
    if i.Some? {
      var head, tail := s[..i.value], s[i.value + |from|..];
      PiecesHaveNoOccurrence(tail, from);
      forall j: nat ensures !MatchesAt(head, from, j) {
        BeginningHasNoOccurrence(s, from, i.value, j);
      }
      assert Pieces(s, from) == [head] + Pieces(tail, from);
    }
  }

  lemma {:induction false} ReplacedByItself(s: string, from: string)
    requires from != []
    ensures Replaced(s, from, from) == s
    decreases |s|
  {
    if MatchesAt(s, from, 0) {
      ReplacedByItself(s[|from|..], from);
    } else if s != [] {
      ReplacedByItself(s[1..], from);
    }
  }

  /** The pieces joined with the occurrence are the text again. */
  lemma PiecesJoin(s: string, from: string)
    requires from != []
    ensures Join(Pieces(s, from), from) == s
  {
    ReplacedJoinsPieces(s, from, from);
    ReplacedByItself(s, from);
  }

  // ----- When replacing cuts a text at given places only

  // No occurrence of such a text can begin inside another one.
  predicate NoOverlap(from: string) {
    from != [] && from[0] !in from[1..]
  }

  lemma BorderIsClean(a: string, b: string, from: string)
    requires NoOverlap(from) && (b != [] ==> b[0] == from[0])
    ensures CleanBorder(a, b, from)
  {
    forall i: nat | i < |a| < i + |from|
      ensures !MatchesAt(a + b, from, i)
    {
      if b != [] {
        assert (a + b)[i + (|a| - i)] == b[0];
        assert from[|a| - i] == from[1..][|a| - i - 1];
        DifferenceAt(a + b, from, i, |a| - i);
      }
    }
  }

  lemma OccurrencesHead(from: string, rest: string)
    requires from != []
    ensures Occurrences(from + rest, from) == 1 + Occurrences(rest, from)
  {
    assert (from + rest)[..|from|] == from && (from + rest)[|from|..] == rest;
  }

  lemma ReplacedJoinMore(head: string, rest: string, from: string, to: string)
    requires NoOverlap(from)
    ensures var s := head + (from + rest);
            && Replaced(s, from, to) == Replaced(head, from, to) + (to + Replaced(rest, from, to))
            && Occurrences(s, from) == Occurrences(head, from) + 1 + Occurrences(rest, from)
  {
    BorderIsClean(head, from + rest, from);
    ReplacedConcat(head, from + rest, from, to);
    ReplacedHead(from, rest, to);
    OccurrencesHead(from, rest);
  }

  lemma {:induction false} JoinHasOccurrences(parts: seq<string>, from: string)
    requires NoOverlap(from) && parts != []
    ensures Occurrences(Join(parts, from), from) >= |parts| - 1
  {
    if |parts| > 1 {
      JoinHasOccurrences(parts[1..], from);
      ReplacedJoinMore(parts[0], Join(parts[1..], from), from, from);
    }
  }

  lemma Distribute(n: nat, d: int)
    ensures (1 + n) * d == d + n * d
  {
  }

  lemma {:induction false} ReplacedLength(s: string, from: string, to: string)
    requires from != []
    ensures |Replaced(s, from, to)| == |s| + Occurrences(s, from) * (|to| - |from|)
    decreases |s|
  {
    var d := |to| - |from|;
    if s != [] {
      if MatchesAt(s, from, 0) {
        ReplacedLength(s[|from|..], from, to);
        Distribute(Occurrences(s[|from|..], from), d);
      } else {
        ReplacedLength(s[1..], from, to);
      }
    }
  }

  lemma {:induction false} JoinLength(parts: seq<string>, from: string, to: string)
    requires parts != []
    ensures |Join(parts, to)| == |Join(parts, from)| + (|parts| - 1) * (|to| - |from|)
  {
    if |parts| > 1 {
      JoinLength(parts[1..], from, to);
    }
  }

  // Without an occurrence nothing is replaced; a text of the same length does not replace one unnoticed.
  lemma {:induction false} ReplacedChanges(s: string, from: string, to: string)
    requires from != []
    ensures Occurrences(s, from) == 0 ==> Replaced(s, from, to) == s
    ensures |to| == |from| && to != from && Replaced(s, from, to) == s ==> Occurrences(s, from) == 0
    decreases |s|
  {
    if s != [] {
      if MatchesAt(s, from, 0) {
        assert s[..|from|] == from;
        assert Replaced(s, from, to)[..|to|] == to;
      } else {
        ReplacedChanges(s[1..], from, to);
        assert Replaced(s, from, to)[1..] == Replaced(s[1..], from, to);
      }
    }
  }

  lemma {:induction false} ReplacedIsJoined(parts: seq<string>, from: string, to: string)
    requires NoOverlap(from) && parts != [] && Occurrences(Join(parts, from), from) == |parts| - 1
    ensures Replaced(Join(parts, from), from, to) == Join(parts, to)
  {
    ReplacedChanges(parts[0], from, to);
    if |parts| > 1 {
      ReplacedJoinMore(parts[0], Join(parts[1..], from), from, to);
      JoinHasOccurrences(parts[1..], from);
      ReplacedIsJoined(parts[1..], from, to);
    }
  }

  lemma SameEnds(a: string, b: string, c: string, d: string, e: string)
    requires a + (b + c) == d + (b + e) && |a| == |d|
    ensures a == d && c == e
  {
    assert a == (a + (b + c))[..|a|] && c == (a + (b + c))[|a| + |b|..];
    assert d == (d + (b + e))[..|a|] && e == (d + (b + e))[|a| + |b|..];
  }

  lemma {:induction false} JoinedIsReplaced(parts: seq<string>, from: string, to: string)
    requires NoOverlap(from) && parts != [] && |to| == |from| && to != from
    requires Replaced(Join(parts, from), from, to) == Join(parts, to)
    ensures Occurrences(Join(parts, from), from) == |parts| - 1
  {
    ReplacedChanges(parts[0], from, to);
    if |parts| > 1 {
      var rest := Join(parts[1..], from);
      ReplacedJoinMore(parts[0], rest, from, to);
      ReplacedLength(parts[0], from, to);
      SameEnds(Replaced(parts[0], from, to), to, Replaced(rest, from, to), parts[0], Join(parts[1..], to));
      JoinedIsReplaced(parts[1..], from, to);
    }
  }

  lemma Cancel(m: int, n: int, d: int)
    requires d != 0 && m * d == n * d
    ensures m == n
  {
  }

  /** Replacing cuts a joined text at the joints and nowhere else exactly when it has no more occurrences than joints,
      unless the replacement changes nothing. */
  lemma ReplacedExactly(parts: seq<string>, from: string, to: string)
    requires NoOverlap(from) && parts != []
    ensures Replaced(Join(parts, from), from, to) == Join(parts, to)
            <==> to == from || Occurrences(Join(parts, from), from) == |parts| - 1
  {
    var s := Join(parts, from);
    if to == from {
      ReplacedByItself(s, from);
    } else if Occurrences(s, from) == |parts| - 1 {
      ReplacedIsJoined(parts, from, to);
    } else if Replaced(s, from, to) == Join(parts, to) {
      ReplacedLength(s, from, to);
      JoinLength(parts, from, to);
      if |to| == |from| {
        JoinedIsReplaced(parts, from, to);
      } else {
        Cancel(Occurrences(s, from), |parts| - 1, |to| - |from|);
      }
    }
  }

  // ----- Templates

  datatype Token = Lit(text: string) | Hole(key: string)

  function Placeholder(key: string): string {
    "<$" + (key + "$>")
  }

  function TokenText(t: Token): string {
    match t
    case Lit(text) => text
    case Hole(key) => Placeholder(key)
  }

  function Render(ts: seq<Token>): string {
    if ts == [] then [] else TokenText(ts[0]) + Render(ts[1..])
  }

  predicate TokenOk(t: Token) {
    match t
    case Lit(text) => '$' !in text
    case Hole(key) => '$' !in key && '<' !in key
  }

  ghost predicate TemplateOk(ts: seq<Token>) {
    forall i :: 0 <= i < |ts| ==> TokenOk(ts[i])
  }

  // Every placeholder of the key becomes the value.
  function Filled(ts: seq<Token>, key: string, value: string): (r: seq<Token>)
    ensures |r| == |ts|
    ensures forall i :: 0 <= i < |ts| ==> r[i] == if ts[i] == Hole(key) then Lit(value) else ts[i]
  {
    seq(|ts|, i requires 0 <= i < |ts| => if ts[i] == Hole(key) then Lit(value) else ts[i])
  }

  // All placeholders that have a parameter become its value at once.
  function FilledAll(ts: seq<Token>, params: map<string, string>): (r: seq<Token>)
    ensures |r| == |ts|
    ensures forall i :: 0 <= i < |ts| ==>
              r[i] == if ts[i].Hole? && ts[i].key in params then Lit(params[ts[i].key]) else ts[i]
  {
    seq(|ts|, i requires 0 <= i < |ts| =>
      if ts[i].Hole? && ts[i].key in params then Lit(params[ts[i].key]) else ts[i])
  }

  lemma {:induction false} RenderHead(ts: seq<Token>)
    requires TemplateOk(ts)
    ensures Render(ts) != [] ==> Render(ts)[0] != '$'
  {
    if ts != [] {
      assert TokenOk(ts[0]);
      RenderHead(ts[1..]);
      if TokenText(ts[0]) != [] {
        assert Render(ts)[0] == TokenText(ts[0])[0];
      }
    }
  }

  // A placeholder starts only where a placeholder of the same key was put.
  lemma NoStrayPlaceholder(t: Token, rest: string, key: string, i: nat)
    requires TokenOk(t) && '$' !in key && t != Hole(key) && (t.Lit? && rest != [] ==> rest[0] != '$')
    requires i < |TokenText(t)|
    ensures !MatchesAt(TokenText(t) + rest, Placeholder(key), i)
  {
    var s, p := TokenText(t) + rest, Placeholder(key);
    match t {
      case Lit(text) =>
        assert i + 1 < |s| ==> s[i + 1] == if i + 1 < |text| then text[i + 1] else rest[0];
        DifferenceAt(s, p, i, 1);
      case Hole(other) =>
        assert s[i] == Placeholder(other)[i];
        assert i != 0 ==> s[i] != '<' by {
          if 2 <= i < 2 + |other| {
            assert Placeholder(other)[i] == other[i - 2];
          }
        }
        if i == 0 {
          DifferentKeys(other, rest, key);
        } else {
          DifferenceAt(s, p, i, 0);
        }
    }
  }

  lemma DifferentKeys(other: string, rest: string, key: string)
    requires '$' !in other && '$' !in key && other != key
    ensures !MatchesAt(Placeholder(other) + rest, Placeholder(key), 0)
  {
    var s, p := Placeholder(other) + rest, Placeholder(key);
    var j := if |other| < |key| then |other| else if |key| < |other| then |key| else
      var k :| 0 <= k < |key| && key[k] != other[k]; k;
    assert s[2 + j] == if j < |other| then other[j] else '$';
    assert p[2 + j] == if j < |key| then key[j] else '$';
    DifferenceAt(s, p, 0, 2 + j);
  }

  /** Replacing the placeholder text of a key fills exactly the placeholders of that key. */
  lemma {:induction false} ReplaceFills(ts: seq<Token>, key: string, value: string)
    requires TemplateOk(ts) && '$' !in key
    ensures Replaced(Render(ts), Placeholder(key), value) == Render(Filled(ts, key, value))
  {
    if ts != [] {
      var t, rest, p := ts[0], Render(ts[1..]), Placeholder(key);
      assert TokenOk(t);
      ReplaceFills(ts[1..], key, value);
      assert Filled(ts, key, value)[1..] == Filled(ts[1..], key, value);
      RenderHead(ts[1..]);
      if t == Hole(key) {
        assert (p + rest)[0..|p|] == p && (p + rest)[|p|..] == rest;
      } else {
        forall i: nat | i < |TokenText(t)|
          ensures !MatchesAt(TokenText(t) + rest, p, i)
        {
          NoStrayPlaceholder(t, rest, key, i);
        }
        SkipPrefix(TokenText(t), rest, p, value);
      }
    }
  }

  // The parameters are visited in the order of `keys`.
  function PutInOrder(html: string, keys: seq<string>, params: map<string, string>): string
    requires forall i :: 0 <= i < |keys| ==> keys[i] in params
  {
    if keys == [] then html
    else Replaced(PutInOrder(html, keys[..|keys| - 1], params),
                  Placeholder(keys[|keys| - 1]), params[keys[|keys| - 1]])
  }

  function Restricted(params: map<string, string>, keys: seq<string>): map<string, string> {
    map k | k in params && k in keys :: params[k]
  }

  ghost predicate ParamsOk(params: map<string, string>) {
    forall k :: k in params ==> '$' !in k && '$' !in params[k]
  }

  /** Visiting some parameters, in any order, fills exactly their placeholders. */
  lemma {:induction false} PutInOrderFills(ts: seq<Token>, keys: seq<string>, params: map<string, string>)
    requires TemplateOk(ts) && ParamsOk(params)
    requires forall i :: 0 <= i < |keys| ==> keys[i] in params
    ensures PutInOrder(Render(ts), keys, params) == Render(FilledAll(ts, Restricted(params, keys)))
    decreases |keys|
  {
    if keys == [] {
      assert FilledAll(ts, Restricted(params, keys)) == ts;
    } else {
      var front, last := keys[..|keys| - 1], keys[|keys| - 1];
      PutInOrderFills(ts, front, params);
      var filled := FilledAll(ts, Restricted(params, front));
      assert TemplateOk(filled);
      ReplaceFills(filled, last, params[last]);
      assert forall k :: k in keys <==> k in front || k == last;
      assert Filled(filled, last, params[last]) == FilledAll(ts, Restricted(params, keys));
    }
  }

  // The order in which a hash map is traversed is unspecified.
  ghost predicate IsOrder(keys: seq<string>, params: map<string, string>) {
    && (forall k :: k in keys <==> k in params)
    && (forall i, j :: 0 <= i < j < |keys| ==> keys[i] != keys[j])
  }

  method PutParamIntoHTML(html: string, params: map<string, string>) returns (r: string)
    ensures exists order :: IsOrder(order, params) && r == PutInOrder(html, order, params)
  {
    r := html;
    ghost var order: seq<string> := [];
    var left := params.Keys;
    while left != {}
      invariant left <= params.Keys
      invariant forall k :: k in order <==> k in params && k !in left
      invariant forall i, j :: 0 <= i < j < |order| ==> order[i] != order[j]
      invariant r == PutInOrder(html, order, params)
      decreases |left|
    {
      var key :| key in left;
      left := left - {key};
      r := ReplaceAllSubstring(r, Placeholder(key), params[key]);
      assert (order + [key])[..|order|] == order;
      order := order + [key];
    }
  }

  /** For a template of texts without '$' and placeholders, and values without '$', the order of the parameters does
      not matter: the result is the simultaneous substitution, with unmatched placeholders left as they are. */
  lemma SubstitutionIsOrderFree(ts: seq<Token>, keys: seq<string>, params: map<string, string>)
    requires TemplateOk(ts) && ParamsOk(params) && IsOrder(keys, params)
    ensures PutInOrder(Render(ts), keys, params) == Render(FilledAll(ts, params))
  {
    forall i | 0 <= i < |keys|
      ensures keys[i] in params
    {
      assert keys[i] in keys;
    }
    PutInOrderFills(ts, keys, params);
    assert Restricted(params, keys) == params;
  }

  // ----- When the order does not matter

  function HoleCount(ts: seq<Token>, key: string): nat {
    if ts == [] then 0 else (if ts[0] == Hole(key) then 1 else 0) + HoleCount(ts[1..], key)
  }

  // The texts between the placeholders of a key.
  function Segments(ts: seq<Token>, key: string): (r: seq<string>)
    ensures r != []
  {
    if ts == [] then [""]
    else
      var rest := Segments(ts[1..], key);
      if ts[0] == Hole(key) then [""] + rest else [TokenText(ts[0]) + rest[0]] + rest[1..]
  }

  lemma JoinGrows(text: string, parts: seq<string>, glue: string)
    requires parts != []
    ensures Join([text + parts[0]] + parts[1..], glue) == text + Join(parts, glue)
  {
    var grown := [text + parts[0]] + parts[1..];
    assert grown[1..] == parts[1..];
    if |parts| > 1 {
      var tail := glue + Join(parts[1..], glue);
      assert text + parts[0] + tail == text + (parts[0] + tail);
    }
  }

  lemma {:induction false} SegmentsJoin(ts: seq<Token>, key: string, value: string)
    ensures |Segments(ts, key)| == HoleCount(ts, key) + 1
    ensures Join(Segments(ts, key), value) == Render(Filled(ts, key, value))
    ensures Join(Segments(ts, key), Placeholder(key)) == Render(ts)
  {
    if ts != [] {
      var rest := Segments(ts[1..], key);
      SegmentsJoin(ts[1..], key, value);
      assert Filled(ts, key, value)[1..] == Filled(ts[1..], key, value);
      if ts[0] == Hole(key) {
        JoinMore("", rest, value);
        JoinMore("", rest, Placeholder(key));
      } else {
        JoinGrows(TokenText(ts[0]), rest, value);
        JoinGrows(TokenText(ts[0]), rest, Placeholder(key));
      }
    }
  }

  lemma PlaceholderNoOverlap(key: string)
    requires '<' !in key
    ensures NoOverlap(Placeholder(key))
  {
    assert Placeholder(key)[1..] == "$" + (key + "$>");
  }

  /** Whatever the texts and values are, replacing the placeholder text of a key fills exactly the placeholders of the
      key if and only if there is no further occurrence of that text, or it is replaced by itself. */
  lemma ReplaceFillsExactly(ts: seq<Token>, key: string, value: string)
    requires '<' !in key
    ensures Replaced(Render(ts), Placeholder(key), value) == Render(Filled(ts, key, value))
            <==> value == Placeholder(key) || Occurrences(Render(ts), Placeholder(key)) == HoleCount(ts, key)
    ensures Occurrences(Render(ts), Placeholder(key)) >= HoleCount(ts, key)
  {
    PlaceholderNoOverlap(key);
    SegmentsJoin(ts, key, value);
    ReplacedExactly(Segments(ts, key), Placeholder(key), value);
    JoinHasOccurrences(Segments(ts, key), Placeholder(key));
  }

  predicate PlainKey(key: string) {
    '$' !in key && '<' !in key
  }

  lemma OtherPlaceholder(other: string, rest: string, key: string)
    requires PlainKey(other) && PlainKey(key) && other != key
    ensures Occurrences(Placeholder(other) + rest, Placeholder(key)) == Occurrences(rest, Placeholder(key))
  {
    forall i: nat | i < |Placeholder(other)|
      ensures !MatchesAt(Placeholder(other) + rest, Placeholder(key), i)
    {
      NoStrayPlaceholder(Hole(other), rest, key, i);
    }
    SkipPrefix(Placeholder(other), rest, Placeholder(key), "");
  }

  // Joining two texts loses no occurrence.
  lemma {:induction false} OccurrencesConcat(a: string, b: string, from: string)
    requires NoOverlap(from)
    ensures Occurrences(a + b, from) >= Occurrences(a, from) + Occurrences(b, from)
    decreases |a|
  {
    if a == [] {
      assert a + b == b;
    } else if MatchesAt(a, from, 0) {
      assert (a + b)[..|from|] == a[..|from|] && (a + b)[|from|..] == a[|from|..] + b;
      OccurrencesConcat(a[|from|..], b, from);
    } else if MatchesAt(a + b, from, 0) {
      var n := |from| - |a|;
      assert from == a + b[..n] && b == b[..n] + b[n..];
      OccurrenceAcross(a, b[..n], b[n..], from);
    } else {
      assert (a + b)[1..] == a[1..] + b;
      OccurrencesConcat(a[1..], b, from);
    }
  }

  lemma {:induction false} TooShort(a: string, from: string)
    requires from != [] && |a| < |from|
    ensures Occurrences(a, from) == 0
  {
    if a != [] {
      TooShort(a[1..], from);
    }
  }

  // An occurrence of which the first part is in `a` and the second part is all of `c`.
  lemma OccurrenceAcross(a: string, c: string, d: string, from: string)
    requires NoOverlap(from) && a != [] && c != [] && from == a + c
    ensures Occurrences(a + (c + d), from) == 1 + Occurrences(c + d, from) && Occurrences(a, from) == 0
  {
    TooShort(a, from);
    forall i: nat | i < |c|
      ensures !MatchesAt(c + d, from, i)
    {
      assert (c + d)[i] == c[i] == from[|a| + i] == from[1..][|a| + i - 1];
      DifferenceAt(c + d, from, i, 0);
    }
    SkipPrefix(c, d, from, "");
    OccurrencesHead(from, d);
    assert a + (c + d) == from + d;
  }

  lemma {:induction false} FillingAdds(parts: seq<string>, other: string, value: string, key: string)
    requires PlainKey(other) && PlainKey(key) && other != key && parts != []
    ensures Occurrences(Join(parts, Placeholder(other)), Placeholder(key))
            <= Occurrences(Join(parts, value), Placeholder(key))
    decreases |parts|
  {
    if |parts| > 1 {
      var head, p := parts[0], Placeholder(key);
      var before, after := Join(parts[1..], Placeholder(other)), Join(parts[1..], value);
      FillingAdds(parts[1..], other, value, key);
      PlaceholderNoOverlap(key);
      BorderIsClean(head, Placeholder(other) + before, p);
      ReplacedConcat(head, Placeholder(other) + before, p, "");
      OtherPlaceholder(other, before, key);
      OccurrencesConcat(head, value + after, p);
      OccurrencesConcat(value, after, p);
    }
  }

  // Some of the parameters, one after the other.
  ghost predicate SomeOf(keys: seq<string>, params: map<string, string>) {
    && (forall i :: 0 <= i < |keys| ==> keys[i] in params)
    && (forall i, j :: 0 <= i < j < |keys| ==> keys[i] != keys[j])
  }

  // Whichever of the parameters are visited, and in whatever order, the result is their simultaneous substitution.
  ghost predicate OrderFree(ts: seq<Token>, params: map<string, string>) {
    forall keys :: SomeOf(keys, params) ==>
      PutInOrder(Render(ts), keys, params) == Render(FilledAll(ts, Restricted(params, keys)))
  }

  ghost predicate PlainKeys(ts: seq<Token>, params: map<string, string>) {
    && (forall i :: 0 <= i < |ts| && ts[i].Hole? ==> PlainKey(ts[i].key))
    && (forall k :: k in params ==> PlainKey(k))
  }

  // With all other parameters filled in, the placeholder of the key occurs only where the template has it.
  predicate NothingStray(ts: seq<Token>, params: map<string, string>, key: string)
    requires key in params
  {
    params[key] == Placeholder(key) ||
    Occurrences(Render(FilledAll(ts, params - {key})), Placeholder(key)) == HoleCount(ts, key)
  }

  lemma FilledAllNext(ts: seq<Token>, params: map<string, string>, key: string, value: string)
    requires key !in params
    ensures FilledAll(ts, params[key := value]) == Filled(FilledAll(ts, params), key, value)
  {
  }

  lemma {:induction false} HoleCountFilled(ts: seq<Token>, params: map<string, string>, key: string)
    requires key !in params
    ensures HoleCount(FilledAll(ts, params), key) == HoleCount(ts, key)
  {
    if ts != [] {
      HoleCountFilled(ts[1..], params, key);
      assert FilledAll(ts, params)[1..] == FilledAll(ts[1..], params);
    }
  }

  lemma FillingOneAdds(ts: seq<Token>, params: map<string, string>, other: string, value: string, key: string)
    requires other !in params && other != key && PlainKey(other) && PlainKey(key)
    ensures Occurrences(Render(FilledAll(ts, params)), Placeholder(key))
            <= Occurrences(Render(FilledAll(ts, params[other := value])), Placeholder(key))
  {
    var filled := FilledAll(ts, params);
    FilledAllNext(ts, params, other, value);
    SegmentsJoin(filled, other, value);
    FillingAdds(Segments(filled, other), other, value, key);
  }

  // Filling in further parameters loses no occurrence of the placeholder of a key.
  lemma {:induction false} FillingMoreAdds(ts: seq<Token>, some: map<string, string>, all: map<string, string>, key: string)
    requires some.Keys <= all.Keys && (forall k :: k in some ==> some[k] == all[k])
    requires key !in all && PlainKey(key) && forall k :: k in all ==> PlainKey(k)
    ensures Occurrences(Render(FilledAll(ts, some)), Placeholder(key))
            <= Occurrences(Render(FilledAll(ts, all)), Placeholder(key))
    decreases |all.Keys - some.Keys|
  {
    if all.Keys - some.Keys == {} {
      assert all.Keys == some.Keys + (all.Keys - some.Keys);
      assert some == all;
    } else {
      var k :| k in all.Keys - some.Keys;
      var next := some[k := all[k]];
      assert all.Keys - next.Keys == all.Keys - some.Keys - {k};
      FillingOneAdds(ts, some, k, all[k], key);
      FillingMoreAdds(ts, next, all, key);
    }
  }

  lemma RestrictedNext(params: map<string, string>, keys: seq<string>, key: string)
    requires key in params
    ensures Restricted(params, keys + [key]) == Restricted(params, keys)[key := params[key]]
  {
  }

  // One more parameter: exactly its placeholders are filled if and only if there is no stray one.
  lemma NextIsExact(ts: seq<Token>, keys: seq<string>, key: string, params: map<string, string>)
    requires PlainKeys(ts, params) && SomeOf(keys + [key], params) && SomeOf(keys, params) && key !in keys && key in params
    requires PutInOrder(Render(ts), keys, params) == Render(FilledAll(ts, Restricted(params, keys)))
    ensures PutInOrder(Render(ts), keys + [key], params) == Render(FilledAll(ts, Restricted(params, keys + [key])))
            <==> params[key] == Placeholder(key)
                 || Occurrences(Render(FilledAll(ts, Restricted(params, keys))), Placeholder(key)) == HoleCount(ts, key)
    ensures Occurrences(Render(FilledAll(ts, Restricted(params, keys))), Placeholder(key)) >= HoleCount(ts, key)
  {
    var some := Restricted(params, keys);
    var filled := FilledAll(ts, some);
    ReplaceFillsExactly(filled, key, params[key]);
    HoleCountFilled(ts, some, key);
    RestrictedNext(params, keys, key);
    FilledAllNext(ts, some, key, params[key]);
    assert (keys + [key])[..|keys|] == keys;
  }

  lemma {:induction false} NothingStrayFills(ts: seq<Token>, keys: seq<string>, params: map<string, string>)
    requires PlainKeys(ts, params) && SomeOf(keys, params)
    requires forall k :: k in params ==> NothingStray(ts, params, k)
    ensures PutInOrder(Render(ts), keys, params) == Render(FilledAll(ts, Restricted(params, keys)))
    decreases |keys|
  {
    if keys == [] {
      assert FilledAll(ts, Restricted(params, keys)) == ts;
    } else {
      var front, last := keys[..|keys| - 1], keys[|keys| - 1];
      NothingStrayFills(ts, front, params);
      assert keys == front + [last] && NothingStray(ts, params, last);
      NextIsExact(ts, front, last, params);
      FillingMoreAdds(ts, Restricted(params, front), params - {last}, last);
    }
  }

  lemma {:induction false} ListOf(s: set<string>) returns (keys: seq<string>)
    ensures (forall k :: k in keys <==> k in s) && forall i, j :: 0 <= i < j < |keys| ==> keys[i] != keys[j]
    decreases |s|
  {
    keys := [];
    if s != {} {
      var k :| k in s;
      keys := ListOf(s - {k});
      keys := keys + [k];
    }
  }

  lemma OrderFreeIsNotStray(ts: seq<Token>, params: map<string, string>, key: string)
    requires PlainKeys(ts, params) && OrderFree(ts, params) && key in params
    ensures NothingStray(ts, params, key)
  {
    var keys := ListOf(params.Keys - {key});
    forall i | 0 <= i < |keys|
      ensures keys[i] in params && keys[i] != key
    {
      assert keys[i] in keys;
    }
    assert SomeOf(keys, params) && SomeOf(keys + [key], params);
    assert Restricted(params, keys) == params - {key};
    NextIsExact(ts, keys, key, params);
  }

  /** The exact condition, for any texts and values: the result is the simultaneous substitution, whichever parameters
      are given and in whatever order they are visited, if and only if for each parameter, once all others are filled in,
      its placeholder occurs only where the template has it (or it is replaced by itself). */
  lemma OrderFreeExactly(ts: seq<Token>, params: map<string, string>)
    requires PlainKeys(ts, params)
    ensures OrderFree(ts, params) <==> forall k :: k in params ==> NothingStray(ts, params, k)
  {
    if forall k :: k in params ==> NothingStray(ts, params, k) {
      forall keys | SomeOf(keys, params)
        ensures PutInOrder(Render(ts), keys, params) == Render(FilledAll(ts, Restricted(params, keys)))
      {
        NothingStrayFills(ts, keys, params);
      }
    }
    if OrderFree(ts, params) {
      forall k | k in params
        ensures NothingStray(ts, params, k)
      {
        OrderFreeIsNotStray(ts, params, k);
      }
    }
  }

  lemma ReplaceInHole(key: string, other: string, value: string)
    requires '$' !in key && '<' !in key && '$' !in other
    ensures Replaced(Placeholder(key), Placeholder(other), value) == if key == other then value else Placeholder(key)
  {
    var ts := [Hole(key)];
    ReplaceFills(ts, other, value);
    var filled := Filled(ts, other, value);
    assert ts[1..] == [] && filled[1..] == [];
    assert Render(ts) == Placeholder(key) + [] == Placeholder(key);
    assert Render(filled) == TokenText(filled[0]) + [] == TokenText(filled[0]);
  }

  /** With '$' in a value the order does matter: a value may bring in another placeholder. */
  lemma OrderMattersWithDollar()
    ensures var params := map["a" := Placeholder("b"), "b" := "x"];
            && PutInOrder(Placeholder("a"), ["a", "b"], params) == "x"
            && PutInOrder(Placeholder("a"), ["b", "a"], params) == Placeholder("b")
  {
    var params := map["a" := Placeholder("b"), "b" := "x"];
    assert "a"[0] != "b"[0];
    ReplaceInHole("a", "a", Placeholder("b"));
    ReplaceInHole("b", "b", "x");
    ReplaceInHole("a", "b", "x");
    PutInOrderTwice(Placeholder("a"), "a", "b", params);
    PutInOrderTwice(Placeholder("a"), "b", "a", params);
  }

  lemma PutInOrderTwice(html: string, k: string, l: string, params: map<string, string>)
    requires k in params && l in params
    ensures PutInOrder(html, [k, l], params)
            == Replaced(Replaced(html, Placeholder(k), params[k]), Placeholder(l), params[l])
  {
    assert [k, l][..1] == [k] && [k][..0] == [];
    assert PutInOrder(html, [k], params) == Replaced(html, Placeholder(k), params[k]);
  }

  // A text and a placeholder after it are replaced one by one.
  lemma ReplacePair(text: string, key: string, value: string)
    requires '<' !in key
    ensures Replaced(text + Placeholder(key), Placeholder(key), value) == Replaced(text, Placeholder(key), value) + value
  {
    var p := Placeholder(key);
    PlaceholderNoOverlap(key);
    BorderIsClean(text, p, p);
    ReplacedConcat(text, p, p, value);
    ReplacedHead(p, [], value);
    assert p + [] == p && value + [] == value;
  }

  // The beginning of a placeholder brings nothing to replace.
  lemma ReplaceOpening(key: string, other: string, value: string)
    requires PlainKey(key) && PlainKey(other) && key != other
    ensures Replaced(Placeholder(key) + "<$", Placeholder(other), value) == Placeholder(key) + "<$"
  {
    var p := Placeholder(other);
    PlaceholderNoOverlap(other);
    BorderIsClean(Placeholder(key), "<$", p);
    ReplacedConcat(Placeholder(key), "<$", p, value);
    ReplaceInHole(key, other, value);
    TooShort("<$", p);
    ReplacedChanges("<$", p, value);
  }

  lemma ReplaceFirstOf(key: string, other: string, value: string)
    requires PlainKey(other) && PlainKey(key) && key != other
    ensures Replaced(Placeholder(key) + Placeholder(other), Placeholder(key), value) == value + Placeholder(other)
  {
    ReplacedHead(Placeholder(key), Placeholder(other), value);
    ReplaceInHole(other, key, value);
  }

  // The first parameter, then the second one.
  lemma OneOrder(a: string, b: string, va: string, vb: string)
    requires a == Placeholder("a") && b == Placeholder("b") && va == a + "<$" && vb == "b$>"
    ensures Replaced(a + b, a, va) == va + b && Replaced(va + b, b, vb) == a + b
  {
    assert "a"[0] != "b"[0];
    ReplaceFirstOf("a", "b", va);
    ReplacePair(va, "b", vb);
    ReplaceOpening("a", "b", vb);
    assert a + "<$" + vb == a + ("<$" + vb) && "<$" + vb == b;
  }

  // The second parameter, then the first one.
  lemma OtherOrder(a: string, b: string, va: string, vb: string)
    requires a == Placeholder("a") && b == Placeholder("b") && va == a + "<$" && vb == "b$>"
    ensures Replaced(a + b, b, vb) == a + vb && Replaced(a + vb, a, va) == a + b
  {
    assert "a"[0] != "b"[0];
    ReplacePair(a, "b", vb);
    ReplaceInHole("a", "b", vb);
    ReplaceBefore("a", vb, va);
    assert a + "<$" + vb == a + ("<$" + vb) && "<$" + vb == b;
  }

  lemma ReplaceBefore(key: string, text: string, value: string)
    requires |text| < |Placeholder(key)|
    ensures Replaced(Placeholder(key) + text, Placeholder(key), value) == value + text
  {
    ReplacedHead(Placeholder(key), text, value);
    TooShort(text, Placeholder(key));
    ReplacedChanges(text, Placeholder(key), value);
  }

  /** Orders of all parameters can agree by chance: here two wrong steps cancel out in both orders, while the first
      parameter alone is not substituted as it should be. */
  lemma WrongStepsCanCancel()
    ensures var ts := [Lit(Placeholder("a") + Placeholder("b"))];
            var params := map["a" := Placeholder("a") + "<$", "b" := "b$>"];
            && PutInOrder(Render(ts), ["a", "b"], params) == Render(FilledAll(ts, params))
            && PutInOrder(Render(ts), ["b", "a"], params) == Render(FilledAll(ts, params))
            && !OrderFree(ts, params)
  {
    var a, b, va, vb := Placeholder("a"), Placeholder("b"), Placeholder("a") + "<$", "b$>";
    var ts, params := [Lit(a + b)], map["a" := va, "b" := vb];
    assert "a"[0] != "b"[0];
    OneOrder(a, b, va, vb);
    OtherOrder(a, b, va, vb);
    assert ts[1..] == [] && a + b + [] == a + b;
    assert FilledAll(ts, params) == ts && FilledAll(ts, Restricted(params, ["a"])) == ts;
    PutInOrderTwice(Render(ts), "a", "b", params);
    PutInOrderTwice(Render(ts), "b", "a", params);
    assert SomeOf(["a"], params) && ["a"][..0] == [];
    assert PutInOrder(Render(ts), ["a"], params) == va + b;
    assert |va + b| != |a + b|;
  }
}
