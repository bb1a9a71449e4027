/** Decoding of URL-encoded strings, and its partner: every percent-encoding of a string (section 2.1 of RFC 3986). */
module UrlCodings {
  import opened Wrappers

  function HexDigit(c: char): (r: Option<nat>)
    ensures r.Some? ==> r.value < 16
  {
    if '0' <= c <= '9' then Some(c as nat - '0' as nat)
    else if 'a' <= c <= 'f' then Some(c as nat - 'a' as nat + 10)
    else if 'A' <= c <= 'F' then Some(c as nat - 'A' as nat + 10)
    else None
  }

  predicate IsSpace(c: char) {
    c == ' ' || '\t' <= c <= '\r'
  }

  /** The value of `std::stoi` in base 16 on two characters, as a byte: leading white space and a sign are skipped,
      and the conversion stops at the first character that is no digit; none when there is no digit at all. */
  function HexPair(a: char, b: char): Option<char> {
    match (HexDigit(a), HexDigit(b))
    case (Some(x), Some(y)) => Some((16 * x + y) as char)
    case (Some(x), None) => Some(x as char)
    case (None, Some(y)) =>
      if a == '-' then Some(((256 - y) % 256) as char)
      else if a == '+' || IsSpace(a) then Some(y as char)
      else None
    case (None, None) => None
  }

  const ENCODED_LENGTH := 3

  method DecodeCharacter(str: string) returns (c: Option<char>)
    ensures c == if |str| == ENCODED_LENGTH && str[0] == '%' then HexPair(str[1], str[2]) else None
  {
    if |str| == ENCODED_LENGTH && str[0] == '%' {
      c := HexPair(str[1], str[2]);
    } else {
      c := None;
    }
  }

  // What decoding a string means; none when it is malformed.
  function Decoded(s: string): Option<string> {
    if s == [] then Some([])
    else if s[0] != '%' then Prepend([s[0]], Decoded(s[1..]))
    else if |s| < ENCODED_LENGTH || HexPair(s[1], s[2]).None? then None
    else Prepend([HexPair(s[1], s[2]).value], Decoded(s[ENCODED_LENGTH..]))
  }

  method DecodeString(str: string) returns (decoded: Option<string>)
    ensures decoded == Decoded(str)
  {
    var ss := "";
    var i := 0;
    assert str[0..] == str && forall s: string :: [] + s == s;
    while i < |str|
      invariant 0 <= i <= |str|
      invariant Decoded(str) == Prepend(ss, Decoded(str[i..]))
    {
      if str[i] == '%' {
        var encoded := if i + ENCODED_LENGTH <= |str| then str[i..i + ENCODED_LENGTH] else str[i..];
        if |encoded| != ENCODED_LENGTH {
          return None;
        }
        var c := DecodeCharacter(encoded);
        if c.None? {
          return None;
        }
        assert str[i..][ENCODED_LENGTH..] == str[i + ENCODED_LENGTH..];
        PrependTwice(ss, [c.value], Decoded(str[i + ENCODED_LENGTH..]));
        ss := ss + [c.value];
        i := i + ENCODED_LENGTH;
      } else {
        assert str[i..][1..] == str[i + 1..];
        PrependTwice(ss, [str[i]], Decoded(str[i + 1..]));
        ss := ss + [str[i]];
        i := i + 1;
      }
    }
    assert ss + [] == ss;
    return Some(ss);
  }

  // ----- What escapes are

  // `strtol` in base 16: white space is skipped, a sign may follow, and then the digits up to the first other character.
  function WithoutSpaces(s: string): string {
    if s != [] && s[0] in [' ', '\t', '\n', '\U{B}', '\U{C}', '\r'] then WithoutSpaces(s[1..]) else s
  }

  function LeadingDigits(s: string, sofar: nat): nat {
    if s == [] || HexDigit(s[0]).None? then sofar else LeadingDigits(s[1..], 16 * sofar + HexDigit(s[0]).value)
  }

  // None when there are no digits.
  function Stoi(s: string): Option<int> {
    var t := WithoutSpaces(s);
    var u := if t != [] && (t[0] == '+' || t[0] == '-') then t[1..] else t;
    var n: int := LeadingDigits(u, 0);
    if u == [] || HexDigit(u[0]).None? then None else Some(if t[0] == '-' then -n else n)
  }

  /** The two characters after '%' are read by that conversion, and its result is cut to a byte. */
  lemma HexPairIsStoi(a: char, b: char)
    ensures HexPair(a, b) == match Stoi([a, b])
                             case None => None
                             case Some(v) => Some((v % 256) as char)
  {
    if IsSpace(a) || a == '+' || a == '-' {
      SkippedFirst(a, b);
    } else {
      NotSkipped(a, b);
    }
  }

  // White space and signs before the second character.
  lemma SkippedFirst(a: char, b: char)
    requires IsSpace(a) || a == '+' || a == '-'
    ensures Stoi([a, b]) == match HexDigit(b)
                            case None => None
                            case Some(n) => Some(if a == '-' then -(n as int) else n as int)
  {
    var s := [a, b];
    assert s[1..] == [b] && [b][1..] == [];
    OneDigit(b);
  }

  lemma NotSkipped(a: char, b: char)
    requires !IsSpace(a) && a != '+' && a != '-'
    ensures Stoi([a, b]) == match (HexDigit(a), HexDigit(b))
                            case (None, _) => None
                            case (Some(x), None) => Some(x as int)
                            case (Some(x), Some(y)) => Some(16 * x + y as int)
  {
    if HexDigit(a).Some? {
      TwoDigits(a, b);
    }
  }

  lemma OneDigit(b: char)
    ensures LeadingDigits([b], 0) == if HexDigit(b).Some? then HexDigit(b).value else 0
    ensures WithoutSpaces([b]) == if IsSpace(b) then [] else [b]
  {
    assert [b][1..] == [];
    assert WithoutSpaces([]) == [];
  }

  lemma TwoDigits(a: char, b: char)
    requires HexDigit(a).Some?
    ensures LeadingDigits([a, b], 0)
            == if HexDigit(b).Some? then 16 * HexDigit(a).value + HexDigit(b).value else HexDigit(a).value
  {
    assert [a, b][1..] == [b] && [b][1..] == [];
    assert LeadingDigits([b], HexDigit(a).value)
        == if HexDigit(b).Some? then 16 * HexDigit(a).value + HexDigit(b).value else HexDigit(a).value;
  }

  // A '%' that does not begin an escape.
  predicate BadEscape(s: string) {
    s != [] && s[0] == '%' && (|s| < 3 || Stoi(s[1..3]).None?)
  }

  lemma {:induction false} DecodedConcat(a: string, b: string)
    requires Decoded(a).Some?
    ensures Decoded(a + b) == Prepend(Decoded(a).value, Decoded(b))
    decreases |a|
  {
    if a == [] {
      assert a + b == b;
      assert Decoded(b).Some? ==> [] + Decoded(b).value == Decoded(b).value;
    } else {
      var n := if a[0] == '%' then 3 else 1;
      assert (a + b)[n..] == a[n..] + b && (a + b)[0] == a[0];
      assert n == 3 ==> (a + b)[1] == a[1] && (a + b)[2] == a[2];
      DecodedConcat(a[n..], b);
      PrependTwice(if n == 3 then [HexPair(a[1], a[2]).value] else [a[0]], Decoded(a[n..]).value, Decoded(b));
    }
  }

  lemma BadEscapeFails(s: string)
    requires s != [] && s[0] == '%'
    ensures BadEscape(s) <==> |s| < 3 || HexPair(s[1], s[2]).None?
  {
    if |s| >= 3 {
      assert s[1..3] == [s[1], s[2]];
      HexPairIsStoi(s[1], s[2]);
    }
  }

  lemma {:induction false} FirstBadEscape(s: string) returns (n: nat)
    requires Decoded(s).None?
    ensures n < |s| && Decoded(s[..n]).Some? && BadEscape(s[n..])
  {
    if s[0] == '%' && (|s| < 3 || HexPair(s[1], s[2]).None?) {
      BadEscapeFails(s);
      n := 0;
      assert s[..0] == [] && s[0..] == s;
    } else {
      var k := if s[0] == '%' then 3 else 1;
      var m := FirstBadEscape(s[k..]);
      n := k + m;
      assert s[n..] == s[k..][m..] && s[..n][k..] == s[k..][..m] && s[..n][0] == s[0];
      assert k == 3 ==> s[..n][1] == s[1] && s[..n][2] == s[2];
    }
  }

  /** Decoding fails if and only if the scanning comes to a '%' that does not begin an escape. */
  lemma MalformedExactly(s: string)
    ensures Decoded(s).None? <==> exists n :: 0 <= n < |s| && Decoded(s[..n]).Some? && BadEscape(s[n..])
  {
    if Decoded(s).None? {
      var n := FirstBadEscape(s);
    }
    if n :| 0 <= n < |s| && Decoded(s[..n]).Some? && BadEscape(s[n..]) {
      BadEscapeFails(s[n..]);
      DecodedConcat(s[..n], s[n..]);
      assert s == s[..n] + s[n..];
    }
  }

  // ----- Encoding

  // Characters that need no escape in a form: the delimiters of forms and lines always do.
  predicate Unescaped(c: char) {
    c !in "%+=&\r\n"
  }

  const LOWER_DIGITS := "0123456789abcdef"
  const UPPER_DIGITS := "0123456789ABCDEF"

  // The character is the digit of that value, in one of the two cases.
  predicate WritesDigit(c: char, n: nat) {
    n < 16 && (c == LOWER_DIGITS[n] || c == UPPER_DIGITS[n])
  }

  /** The digits are read as they are written. */
  lemma HexDigitExactly(c: char, n: nat)
    ensures HexDigit(c) == Some(n) <==> WritesDigit(c, n)
  {
  }

  // `e` is one way to write the character: as itself, as "+" for a space, or as "%" and two digits of either case.
  predicate EncodesChar(c: char, e: string) {
    || (e == [c] && Unescaped(c))
    || (e == "+" && c == ' ')
    || (|e| == ENCODED_LENGTH && e[0] == '%' && WritesDigit(e[1], c as int / 16) && WritesDigit(e[2], c as int % 16))
  }

  // `encoded` is one way to write the string, character by character.
  predicate Encodes(plain: string, encoded: string) {
    if plain == [] then encoded == []
    else
      || (|encoded| >= 1 && EncodesChar(plain[0], encoded[..1]) && Encodes(plain[1..], encoded[1..]))
      || (|encoded| >= 3 && EncodesChar(plain[0], encoded[..3]) && Encodes(plain[1..], encoded[3..]))
  }

  // The string itself, except that some spaces may be written as '+'.
  predicate SameButPlus(plain: string, s: string) {
    |plain| == |s| && forall i :: 0 <= i < |s| ==> s[i] == plain[i] || (plain[i] == ' ' && s[i] == '+')
  }

  // What one encoded character is decoded to.
  lemma DecodedCharacter(c: char, e: string, rest: string)
    requires EncodesChar(c, e)
    ensures Decoded(e + rest) == Prepend([if |e| == 1 then e[0] else c], Decoded(rest))
    ensures '\r' !in e && '\n' !in e
    ensures |e| == 1 || |e| == ENCODED_LENGTH
    ensures |e| == 1 ==> e[0] == c || (e[0] == '+' && c == ' ')
  {
    if |e| == ENCODED_LENGTH {
      EscapedCharacter(c, e, rest);
    } else {
      assert (e + rest)[1..] == rest && (e + rest)[0] == e[0];
    }
  }

  lemma EscapedCharacter(c: char, e: string, rest: string)
    requires EncodesChar(c, e) && |e| == ENCODED_LENGTH
    ensures Decoded(e + rest) == Prepend([c], Decoded(rest))
    ensures '\r' !in e && '\n' !in e
  {
    var s := e + rest;
    HexDigitExactly(e[1], c as int / 16);
    HexDigitExactly(e[2], c as int % 16);
    assert (16 * (c as int / 16) + c as int % 16) as char == c;
    assert s[0] == e[0] && s[1] == e[1] && s[2] == e[2] && s[ENCODED_LENGTH..] == rest;
    assert e == [e[0], e[1], e[2]];
  }

  // What the string `t` and one more encoded character are decoded to.
  lemma DecodedMore(c: char, e: string, plain: string, tail: string, t: string, rest: string)
    requires EncodesChar(c, e) && SameButPlus(plain, t) && Decoded(tail + rest) == Prepend(t, Decoded(rest))
    ensures var s := [if |e| == 1 then e[0] else c] + t;
            SameButPlus([c] + plain, s) && Decoded((e + tail) + rest) == Prepend(s, Decoded(rest))
  {
    DecodedCharacter(c, e, tail + rest);
    assert (e + tail) + rest == e + (tail + rest);
    PrependTwice([if |e| == 1 then e[0] else c], t, Decoded(rest));
  }

  /** Decoding any encoding of a string gives the string back, up to '+' for spaces, whatever follows it. */
  lemma {:induction false} DecodedEncoding(plain: string, encoded: string, rest: string) returns (s: string)
    requires Encodes(plain, encoded)
    ensures SameButPlus(plain, s)
    ensures Decoded(encoded + rest) == Prepend(s, Decoded(rest))
    ensures '\r' !in encoded && '\n' !in encoded
  {
    if plain == [] {
      assert encoded + rest == rest;
      s := [];
      if Decoded(rest).Some? {
        assert [] + Decoded(rest).value == Decoded(rest).value;
      }
    } else {
      var n := if EncodesChar(plain[0], encoded[..1]) && Encodes(plain[1..], encoded[1..]) then 1 else ENCODED_LENGTH;
      var e, tail := encoded[..n], encoded[n..];
      var t := DecodedEncoding(plain[1..], tail, rest);
      DecodedCharacter(plain[0], e, tail);
      DecodedMore(plain[0], e, plain[1..], tail, t, rest);
      assert encoded == e + tail && plain == [plain[0]] + plain[1..];
      s := [if n == 1 then e[0] else plain[0]] + t;
    }
  }
}
