/** JSON text as it is written to and read from a JSONB column: the encoder's escaping of
    strings (section 7 of RFC 8259), a decoder, and the round trip of the two. */
module Json {
  import opened Wrappers

  /** A JSON value. An object's members stand in the order they are visited in. */
  datatype Value =
    | Null
    | Bool(b: bool)
    | Num(text: string)
    | Str(s: string)
    | Arr(elems: seq<Value>)
    | Obj(members: seq<Member>)

  datatype Member = Member(key: string, value: Value)

  predicate NumChar(c: char) {
    '0' <= c <= '9' || c == '-' || c == '+' || c == '.' || c == 'e' || c == 'E'
  }

  predicate NumText(s: string) {
    s != "" && ('0' <= s[0] <= '9' || s[0] == '-') && forall c :: c in s ==> NumChar(c)
  }

  /** Whatever is made of digits, signs, a point and an exponent can be a number's text, if it
      begins with a digit or a minus sign. */
  lemma NumTextOf(first: char, rest: string)
    requires first in "-0123456789" && forall c :: c in rest ==> c in "0123456789-+.eE"
    ensures NumText([first] + rest)
  {
  }

  predicate HasKey(ms: seq<Member>, key: string) {
    exists i :: 0 <= i < |ms| && ms[i].key == key
  }

  predicate DistinctKeys(ms: seq<Member>) {
    forall i, j :: 0 <= i < j < |ms| ==> ms[i].key != ms[j].key
  }

  /** Numbers are numbers, and no object has a key twice. */
  predicate WellFormed(v: Value) {
    match v
    case Num(text) => NumText(text)
    case Arr(elems) => forall i :: 0 <= i < |elems| ==> WellFormed(elems[i])
    case Obj(ms) => DistinctKeys(ms) && forall i :: 0 <= i < |ms| ==> WellFormed(ms[i].value)
    case _ => true
  }

  // ---------------------------------------------------------------- Encoding

  const BACKSPACE := 8 as char
  const FORM_FEED := 12 as char

  function HexDigit(d: int): (c: char)
    requires 0 <= d < 16
    ensures c != '"' && c != '\\'
  {
    if d < 10 then '0' + d as char else 'a' + (d - 10) as char
  }

  function HexValue(c: char): (d: int)
    ensures -1 <= d < 16
  {
    if '0' <= c <= '9' then c as int - '0' as int
    else if 'a' <= c <= 'f' then c as int - 'a' as int + 10
    else if 'A' <= c <= 'F' then c as int - 'A' as int + 10
    else -1
  }

  function UnicodeEscape(c: char): (s: string)
    requires c as int < 0x10000
    ensures |s| == 6
  {
    var n := c as int;
    ['\\', 'u', HexDigit(n / 0x1000), HexDigit(n / 0x100 % 0x10), HexDigit(n / 0x10 % 0x10), HexDigit(n % 0x10)]
  }

  /** Characters written as a \u escape: controls without a shorter one, those that mean
      something in HTML, and two line separators. */
  predicate EscapedByCode(c: char) {
    c as int < 0x20 || c == '<' || c == '>' || c == '&' || c as int == 0x2028 || c as int == 0x2029
  }

  function EscapeChar(c: char): (s: string)
    ensures s != "" && s[0] != '"'
  {
    if c == '"' then "\\\""
    else if c == '\\' then "\\\\"
    else if c == BACKSPACE then "\\b"
    else if c == FORM_FEED then "\\f"
    else if c == '\n' then "\\n"
    else if c == '\r' then "\\r"
    else if c == '\t' then "\\t"
    else if EscapedByCode(c) then UnicodeEscape(c)
    else [c]
  }

  /** Section 7 of RFC 8259 lets any character be escaped, and needs it of the first seven here
      and of the other controls; the encoder escapes what HTML and JavaScript mind besides. */
  lemma EscapedCharacters()
    ensures EscapeChar('"') == "\\\"" && EscapeChar('\\') == "\\\\"
    ensures EscapeChar(8 as char) == "\\b" && EscapeChar(9 as char) == "\\t" && EscapeChar(10 as char) == "\\n"
    ensures EscapeChar(12 as char) == "\\f" && EscapeChar(13 as char) == "\\r"
    ensures EscapeChar(0 as char) == "\\u0000" && EscapeChar(0x1F as char) == "\\u001f" && EscapeChar(' ') == " "
    ensures EscapeChar('<') == "\\u003c" && EscapeChar('>') == "\\u003e" && EscapeChar('&') == "\\u0026"
    ensures EscapeChar(0x2028 as char) == "\\u2028" && EscapeChar(0x2029 as char) == "\\u2029"
  {
  }

  function Escape(s: string): string {
    if s == "" then "" else EscapeChar(s[0]) + Escape(s[1..])
  }

  function Quote(s: string): string {
    "\"" + Escape(s) + "\""
  }

  function Encode(v: Value): string {
    match v
    case Null => "null"
    case Bool(b) => if b then "true" else "false"
    case Num(text) => text
    case Str(s) => Quote(s)
    case Arr(elems) => if elems == [] then "[]" else "[" + EncodeElems(elems)
    case Obj(ms) => if ms == [] then "{}" else "{" + EncodeMembers(ms)
  }

  function EncodeElems(es: seq<Value>): string
    requires es != []
  {
    Encode(es[0]) + (if |es| == 1 then "]" else "," + EncodeElems(es[1..]))
  }

  function EncodeMembers(ms: seq<Member>): string
    requires ms != []
  {
    Quote(ms[0].key) +
    (":" + (Encode(ms[0].value) + (if |ms| == 1 then "}" else "," + EncodeMembers(ms[1..]))))
  }

  // ---------------------------------------------------------------- Decoding

  predicate Space(c: char) {
    c == ' ' || c == '\n' || c == '\r' || c == '\t'
  }

  function Skip(t: string): (r: string)
    ensures |r| <= |t|
  {
    if t != "" && Space(t[0]) then Skip(t[1..]) else t
  }

  function SimpleEscape(c: char): Option<char> {
    if c == '"' || c == '\\' || c == '/' then Some(c)
    else if c == 'b' then Some(BACKSPACE)
    else if c == 'f' then Some(FORM_FEED)
    else if c == 'n' then Some('\n')
    else if c == 'r' then Some('\r')
    else if c == 't' then Some('\t')
    else None
  }

  /** The character of four hexadecimal digits; half of a surrogate pair is none. */
  function Code(t: string): Option<char>
    requires |t| == 4
  {
    var a, b, c, d := HexValue(t[0]), HexValue(t[1]), HexValue(t[2]), HexValue(t[3]);
    if a < 0 || b < 0 || c < 0 || d < 0 then None
    else
      var n := a * 0x1000 + b * 0x100 + c * 0x10 + d;
      if 0xD800 <= n < 0xE000 then None else Some(n as char)
  }

  /** A digit above nine may be of either case. */
  lemma CodesOfEitherCase(c: char)
    requires 'a' <= c <= 'f'
    ensures HexValue(c) == HexValue((c as int - 32) as char) == c as int - 87
  {
  }

  /** A string after its opening quote: what it says, and the text after it. */
  function ParseString(t: string): (r: Option<(string, string)>)
    ensures r.Some? ==> |r.value.1| < |t|
    decreases |t|
  {
    if t == "" then None
    else if t[0] == '"' then Some(("", t[1..]))
    else if t[0] as int < 0x20 then None
    else if t[0] != '\\' then
      match ParseString(t[1..])
      case None => None
      case Some((s, rest)) => Some(([t[0]] + s, rest))
    else if |t| >= 6 && t[1] == 'u' then
      match (Code(t[2..6]), ParseString(t[6..]))
      case (Some(c), Some((s, rest))) => Some(([c] + s, rest))
      case _ => None
    else if |t| >= 2 then
      match (SimpleEscape(t[1]), ParseString(t[2..]))
      case (Some(c), Some((s, rest))) => Some(([c] + s, rest))
      case _ => None
    else None
  }

  function NumPrefix(t: string): (n: string)
    ensures n <= t
    ensures forall c :: c in n ==> NumChar(c)
  {
    if t != "" && NumChar(t[0]) then [t[0]] + NumPrefix(t[1..]) else ""
  }

  /** Sets a member: in place of the one of its key, or after all. */
  function Put(ms: seq<Member>, m: Member): seq<Member> {
    if ms == [] then [m]
    else if ms[0].key == m.key then [m] + ms[1..]
    else [ms[0]] + Put(ms[1..], m)
  }

  lemma {:induction false} PutHasKey(ms: seq<Member>, m: Member, k: string)
    ensures HasKey(Put(ms, m), k) <==> HasKey(ms, k) || k == m.key
  {
    HasKeySplits(Put(ms, m));
    if ms != [] {
      HasKeySplits(ms);
      if ms[0].key == m.key {
        assert Put(ms, m)[1..] == ms[1..];
      } else {
        assert Put(ms, m)[1..] == Put(ms[1..], m);
        PutHasKey(ms[1..], m, k);
      }
    }
  }

  lemma {:induction false} PutStaysDistinct(ms: seq<Member>, m: Member)
    requires DistinctKeys(ms)
    ensures DistinctKeys(Put(ms, m))
  {
    if ms != [] && ms[0].key != m.key {
      var rest := Put(ms[1..], m);
      PutStaysDistinct(ms[1..], m);
      PutHasKey(ms[1..], m, ms[0].key);
      forall j | 0 <= j < |rest|
        ensures rest[j].key != ms[0].key
      {
        if rest[j].key == ms[0].key {
          assert HasKey(rest, ms[0].key);
        }
      }
    }
  }

  lemma {:induction false} PutNew(ms: seq<Member>, m: Member)
    requires !HasKey(ms, m.key)
    ensures Put(ms, m) == ms + [m]
  {
    if ms != [] {
      assert ms[0].key != m.key;
      HasKeySplits(ms);
      PutNew(ms[1..], m);
    }
  }

  lemma HasKeySplits(ms: seq<Member>)
    requires ms != []
    ensures forall k :: HasKey(ms, k) <==> k == ms[0].key || HasKey(ms[1..], k)
  {
    forall k
      ensures HasKey(ms, k) <==> k == ms[0].key || HasKey(ms[1..], k)
    {
      if HasKey(ms, k) && k != ms[0].key {
        var i :| 0 <= i < |ms| && ms[i].key == k;
        assert ms[1..][i - 1].key == k;
      }
      if HasKey(ms[1..], k) {
        var i :| 0 <= i < |ms[1..]| && ms[1..][i].key == k;
        assert ms[i + 1].key == k;
      }
    }
  }

  function PutAll(before: seq<Member>, ms: seq<Member>): seq<Member>
    decreases ms
  {
    if ms == [] then before else PutAll(Put(before, ms[0]), ms[1..])
  }

  /** Members of keys not given before are added as they are. */
  lemma {:induction false} PutAllDistinct(before: seq<Member>, ms: seq<Member>)
    requires DistinctKeys(before + ms)
    ensures PutAll(before, ms) == before + ms
    decreases ms
  {
    if ms == [] {
      assert before + ms == before;
    } else {
      forall i | 0 <= i < |before|
        ensures before[i].key != ms[0].key
      {
        assert (before + ms)[i].key != (before + ms)[|before|].key;
      }
      PutNew(before, ms[0]);
      assert (before + [ms[0]]) + ms[1..] == before + ms;
      PutAllDistinct(before + [ms[0]], ms[1..]);
    }
  }

  function ParseValue(text: string): (r: Option<(Value, string)>)
    ensures r.Some? ==> |r.value.1| < |text|
    decreases |text|, 1
  {
    var t := Skip(text);
    if "null" <= t then Some((Null, t[4..]))
    else if "true" <= t then Some((Bool(true), t[4..]))
    else if "false" <= t then Some((Bool(false), t[5..]))
    else if t == "" then None
    else if t[0] == '"' then
      (match ParseString(t[1..])
       case None => None
       case Some((s, rest)) => Some((Str(s), rest)))
    else if t[0] == '[' then ParseArray(t[1..])
    else if t[0] == '{' then ParseObject(t[1..])
    else
      var n := NumPrefix(t);
      if NumText(n) then Some((Num(n), t[|n|..])) else None
  }

  /** An array, or an object, after its opening bracket, or brace. */
  function ParseArray(body: string): (r: Option<(Value, string)>)
    ensures r.Some? ==> |r.value.1| < |body|
    decreases |body|, 3
  {
    var u := Skip(body);
    if u != "" && u[0] == ']' then Some((Arr([]), u[1..]))
    else
      match ParseElems(body)
      case None => None
      case Some((es, rest)) => Some((Arr(es), rest))
  }

  function ParseObject(body: string): (r: Option<(Value, string)>)
    ensures r.Some? ==> |r.value.1| < |body|
    decreases |body|, 3
  {
    var u := Skip(body);
    if u != "" && u[0] == '}' then Some((Obj([]), u[1..]))
    else
      match ParseMembers(body, [])
      case None => None
      case Some((ms, rest)) => Some((Obj(ms), rest))
  }

  /** What comes after an element or a member: the end of the whole, another, or neither. */
  datatype Next = End(rest: string) | More(rest: string) | Neither

  function After(text: string, close: char): (n: Next)
    ensures n.Neither? || |n.rest| < |text|
  {
    var t := Skip(text);
    if t == "" then Neither
    else if t[0] == close then End(t[1..])
    else if t[0] == ',' then More(t[1..])
    else Neither
  }

  function ParseElems(text: string): (r: Option<(seq<Value>, string)>)
    ensures r.Some? ==> |r.value.1| < |text|
    decreases |text|, 2
  {
    match ParseValue(text)
    case None => None
    case Some((v, after)) =>
      match After(after, ']')
      case End(rest) => Some(([v], rest))
      case Neither => None
      case More(more) =>
        match ParseElems(more)
        case None => None
        case Some((es, rest)) => Some(([v] + es, rest))
  }

  /** A member's key and its colon. */
  function ParseKey(text: string): (r: Option<(string, string)>)
    ensures r.Some? ==> |r.value.1| < |text|
  {
    var t := Skip(text);
    if t == "" || t[0] != '"' then None
    else
      match ParseString(t[1..])
      case None => None
      case Some((key, afterKey)) =>
        var c := Skip(afterKey);
        if c == "" || c[0] != ':' then None else Some((key, c[1..]))
  }

  /** The members from here on, added to those before: a key given again replaces. */
  function ParseMembers(text: string, before: seq<Member>): (r: Option<(seq<Member>, string)>)
    ensures r.Some? ==> |r.value.1| < |text|
    decreases |text|, 2
  {
    match ParseKey(text)
    case None => None
    case Some((key, afterKey)) =>
      match ParseValue(afterKey)
      case None => None
      case Some((v, after)) =>
        match After(after, '}')
        case End(rest) => Some((Put(before, Member(key, v)), rest))
        case Neither => None
        case More(more) => ParseMembers(more, Put(before, Member(key, v)))
  }

  /** A whole document. */
  function Decode(text: string): Option<Value> {
    match ParseValue(text)
    case Some((v, rest)) => if Skip(rest) == "" then Some(v) else None
    case None => None
  }

  lemma {:induction false} SkipsSpaces(spaces: string, t: string)
    requires forall c :: c in spaces ==> c in " \t\n\r"
    ensures Skip(spaces + t) == Skip(t)
  {
    if spaces == "" {
      assert spaces + t == t;
    } else {
      assert (spaces + t)[0] == spaces[0] && (spaces + t)[1..] == spaces[1..] + t;
      assert spaces[0] in spaces && forall c :: c in spaces[1..] ==> c in spaces;
      SkipsSpaces(spaces[1..], t);
    }
  }

  /** Spaces, tabs and line ends are passed over before a value, a bracket or brace that closes,
      a comma, a key and a colon. */
  lemma SpacesArePassed(spaces: string, t: string, close: char)
    requires forall c :: c in spaces ==> c in " \t\n\r"
    ensures ParseValue(spaces + t) == ParseValue(t) && Decode(spaces + t) == Decode(t)
    ensures After(spaces + t, close) == After(t, close) && ParseKey(spaces + t) == ParseKey(t)
    ensures Skip(t) != "" && Skip(t)[0] == ']' ==> ParseArray(spaces + t) == ParseArray(t)
    ensures Skip(t) != "" && Skip(t)[0] == '}' ==> ParseObject(spaces + t) == ParseObject(t)
  {
    SkipsSpaces(spaces, t);
  }

  /** A control character in a string has to be escaped. */
  lemma BareControlsFail(s: string, c: char, rest: string)
    requires c as int < 32 && '"' !in s && '\\' !in s
    ensures ParseString(s + [c] + rest) == None
  {
    var t := s + [c] + rest;
    if s != "" {
      assert t[1..] == s[1..] + [c] + rest;
      BareControlsFail(s[1..], c, rest);
      assert t[0] == s[0] && s[0] in s;
    } else {
      assert t[0] == c;
    }
  }

  // ---------------------------------------------------------------- Decoding what was encoded

  lemma HexRoundTrip(d: int)
    requires 0 <= d < 16
    ensures HexValue(HexDigit(d)) == d
  {
  }

  lemma CodeOfDigits(a: int, b: int, c: int, d: int)
    requires 0 <= a < 13 && 0 <= b < 16 && 0 <= c < 16 && 0 <= d < 16
    ensures Code([HexDigit(a), HexDigit(b), HexDigit(c), HexDigit(d)])
         == Some((a * 0x1000 + b * 0x100 + c * 0x10 + d) as char)
  {
    HexRoundTrip(a);
    HexRoundTrip(b);
    HexRoundTrip(c);
    HexRoundTrip(d);
  }

  lemma HexDigitsOf(n: int)
    requires 0 <= n < 0x10000
    ensures n == n / 0x1000 * 0x1000 + n / 0x100 % 0x10 * 0x100 + n / 0x10 % 0x10 * 0x10 + n % 0x10
    ensures n < 0xD000 ==> n / 0x1000 < 13
  {
    assert n / 0x10 / 0x10 == n / 0x100;
    assert n / 0x100 / 0x10 == n / 0x1000 < 0x10;
  }

  lemma CodeOfEscape(c: char)
    requires EscapedByCode(c)
    ensures Code(UnicodeEscape(c)[2..6]) == Some(c)
  {
    var n := c as int;
    var a, b, d, e := n / 0x1000, n / 0x100 % 0x10, n / 0x10 % 0x10, n % 0x10;
    HexDigitsOf(n);
    CodeOfDigits(a, b, d, e);
    SliceOfEscape('\\', 'u', HexDigit(a), HexDigit(b), HexDigit(d), HexDigit(e));
  }

  lemma SliceOfEscape(p: char, q: char, a: char, b: char, c: char, d: char)
    ensures [p, q, a, b, c, d][2..6] == [a, b, c, d]
  {
  }

  /** A character is written as itself, with a two-character escape, or with its code. */
  lemma EscapeShape(c: char)
    ensures var e := EscapeChar(c);
            || (e == [c] && c != '"' && c != '\\' && c as int >= 0x20)
            || (|e| == 2 && e[0] == '\\' && e[1] != 'u' && SimpleEscape(e[1]) == Some(c))
            || (EscapedByCode(c) && e == UnicodeEscape(c))
  {
  }

  lemma ParseEscapedChar(c: char, t: string)
    ensures var r := ParseString(t);
            ParseString(EscapeChar(c) + t) ==
              if r.Some? then Some(([c] + r.value.0, r.value.1)) else None
  {
    EscapeShape(c);
    var e := EscapeChar(c);
    ParseEscape(e, c, t);
  }

  lemma ParseEscape(e: string, c: char, t: string)
    requires || (e == [c] && c != '"' && c != '\\' && c as int >= 0x20)
             || (|e| == 2 && e[0] == '\\' && e[1] != 'u' && SimpleEscape(e[1]) == Some(c))
             || (EscapedByCode(c) && e == UnicodeEscape(c))
    ensures var r := ParseString(t);
            ParseString(e + t) == if r.Some? then Some(([c] + r.value.0, r.value.1)) else None
  {
    var whole := e + t;
    assert whole[|e|..] == t;
    if |e| == 1 {
      assert whole[0] == c;
    } else if |e| == 2 {
      assert whole[0] == '\\' && whole[1] == e[1];
    } else {
      CodeOfEscape(c);
      assert whole[0] == '\\' && whole[1] == 'u';
      assert whole[2..6] == e[2..6];
    }
  }

  lemma {:induction false} ParseEscaped(s: string, rest: string)
    ensures ParseString(Escape(s) + "\"" + rest) == Some((s, rest))
  {
    if s == "" {
      assert Escape(s) + "\"" + rest == "\"" + rest;
      assert ("\"" + rest)[1..] == rest;
    } else {
      var t := Escape(s[1..]) + "\"" + rest;
      assert Escape(s) + "\"" + rest == EscapeChar(s[0]) + t;
      ParseEscaped(s[1..], rest);
      ParseEscapedChar(s[0], t);
      assert [s[0]] + s[1..] == s;
    }
  }

  lemma {:induction false} NumPrefixOf(text: string, rest: string)
    requires forall c :: c in text ==> NumChar(c)
    requires rest == "" || !NumChar(rest[0])
    ensures NumPrefix(text + rest) == text
  {
    if text == "" {
      assert text + rest == rest;
    } else {
      assert text[0] in text;
      assert forall c :: c in text[1..] ==> c in text;
      assert (text + rest)[1..] == text[1..] + rest;
      NumPrefixOf(text[1..], rest);
    }
  }

  /** How a value's text begins. */
  lemma EncodeHead(v: Value)
    requires WellFormed(v)
    ensures Encode(v) != "" && !Space(Encode(v)[0]) && Encode(v)[0] != ']'
  {
  }

  /** Text after a value: none, or not going on with a number. */
  predicate Ends(rest: string) {
    rest == "" || !NumChar(rest[0])
  }

  lemma ScalarRoundTrip(v: Value, rest: string)
    requires WellFormed(v) && Ends(rest) && (v.Null? || v.Bool? || v.Num?)
    ensures ParseValue(Encode(v) + rest) == Some((v, rest))
  {
    var t := Encode(v) + rest;
    EncodeHead(v);
    assert Skip(t) == t;
    match v
    case Null =>
      assert t[4..] == rest;
    case Bool(b) =>
      assert t[0] == if b then 't' else 'f';
      assert t[if b then 4 else 5..] == rest;
    case Num(text) =>
      NumPrefixOf(text, rest);
      assert t[0] == text[0];
      assert t[|text|..] == rest;
  }

  lemma StringRoundTrip(s: string, rest: string)
    ensures ParseValue(Quote(s) + rest) == Some((Str(s), rest))
  {
    var t := Quote(s) + rest;
    ParseEscaped(s, rest);
    assert t[0] == '"' && t[1..] == Escape(s) + "\"" + rest;
  }

  /** What an opening bracket, or brace, and the text after it parse as. */
  lemma OpeningRoundTrip(open: char, body: string)
    requires open == '[' || open == '{'
    ensures ParseValue([open] + body) == if open == '[' then ParseArray(body) else ParseObject(body)
  {
    var t := [open] + body;
    assert t[0] == open && t[1..] == body && Skip(t) == t;
  }

  function ArrayBody(elems: seq<Value>): string {
    if elems == [] then "]" else EncodeElems(elems)
  }

  function ObjectBody(ms: seq<Member>): string {
    if ms == [] then "}" else EncodeMembers(ms)
  }

  lemma BodyText(open: char, body: string, rest: string)
    requires body != "" && !Space(body[0])
    ensures ([open] + body) + rest == [open] + (body + rest)
    ensures Skip(body + rest) == body + rest && body + rest != "" && (body + rest)[0] == body[0]
    ensures |body| == 1 ==> (body + rest)[1..] == rest
  {
    Assoc([open], body, rest);
  }

  lemma ArrayBodyHead(elems: seq<Value>)
    requires WellFormed(Arr(elems))
    ensures var b := ArrayBody(elems);
            b != "" && !Space(b[0]) && (b[0] == ']' <==> elems == []) && Encode(Arr(elems)) == "[" + b
  {
    if elems != [] {
      EncodeHead(elems[0]);
    }
  }

  lemma ArrayRoundTrip(elems: seq<Value>, rest: string)
    requires WellFormed(Arr(elems))
    requires elems != [] ==> ParseElems(EncodeElems(elems) + rest) == Some((elems, rest))
    ensures ParseValue(Encode(Arr(elems)) + rest) == Some((Arr(elems), rest))
  {
    var b := ArrayBody(elems);
    ArrayBodyHead(elems);
    BodyText('[', b, rest);
    OpeningRoundTrip('[', b + rest);
  }

  lemma ObjectBodyHead(ms: seq<Member>)
    ensures var b := ObjectBody(ms);
            b != "" && !Space(b[0]) && (b[0] == '}' <==> ms == []) && Encode(Obj(ms)) == "{" + b
  {
  }

  lemma ObjectRoundTrip(ms: seq<Member>, rest: string)
    requires ms != [] ==> ParseMembers(EncodeMembers(ms) + rest, []) == Some((ms, rest))
    ensures ParseValue(Encode(Obj(ms)) + rest) == Some((Obj(ms), rest))
  {
    var b := ObjectBody(ms);
    ObjectBodyHead(ms);
    BodyText('{', b, rest);
    OpeningRoundTrip('{', b + rest);
  }

  /** What was encoded decodes to itself, whatever follows it. */
  lemma {:induction false} ValueRoundTrip(v: Value, rest: string)
    requires WellFormed(v) && Ends(rest)
    ensures ParseValue(Encode(v) + rest) == Some((v, rest))
    decreases v, 0
  {
    match v
    case Str(s) => StringRoundTrip(s, rest);
    case Arr(elems) =>
      if elems != [] {
        ElemsRoundTrip(elems, rest);
      }
      ArrayRoundTrip(elems, rest);
    case Obj(ms) =>
      if ms != [] {
        assert [] + ms == ms;
        PutAllDistinct([], ms);
        MembersRoundTrip([], ms, rest);
      }
      ObjectRoundTrip(ms, rest);
    case _ => ScalarRoundTrip(v, rest);
  }

  lemma Assoc(a: string, b: string, c: string)
    ensures (a + b) + c == a + (b + c)
  {
  }

  lemma AfterCons(c: char, x: string, close: char)
    requires !Space(c)
    ensures After([c] + x, close) == if c == close then End(x) else if c == ',' then More(x) else Neither
  {
    var t := [c] + x;
    assert Skip(t) == t && t[1..] == x;
  }

  function ElemsTail(es: seq<Value>): string
    requires es != []
  {
    if |es| == 1 then "]" else "," + EncodeElems(es[1..])
  }

  /** What follows an element or a member: a separator or a bracket, and the text after it. */
  lemma TailText(c: char, x: string, close: char, rest: string)
    requires c == ',' || c == close
    requires close == ']' || close == '}'
    ensures Ends([c] + x + rest)
    ensures After([c] + x + rest, close) == if c == close then End(x + rest) else More(x + rest)
  {
    Assoc([c], x, rest);
    AfterCons(c, x + rest, close);
  }

  lemma ElemsText(es: seq<Value>, rest: string)
    requires es != []
    ensures EncodeElems(es) + rest == Encode(es[0]) + (ElemsTail(es) + rest)
    ensures Ends(ElemsTail(es) + rest)
    ensures After(ElemsTail(es) + rest, ']') == if |es| == 1 then End(rest) else More(EncodeElems(es[1..]) + rest)
  {
    Assoc(Encode(es[0]), ElemsTail(es), rest);
    if |es| == 1 {
      TailText(']', "", ']', rest);
    } else {
      TailText(',', EncodeElems(es[1..]), ']', rest);
    }
  }

  lemma ElemsStep(text: string, v: Value, after: string, es: seq<Value>, rest: string)
    requires ParseValue(text) == Some((v, after))
    requires var n := After(after, ']');
             if es == [] then n == End(rest) else n.More? && ParseElems(n.rest) == Some((es, rest))
    ensures ParseElems(text) == Some(([v] + es, rest))
  {
    assert [v] + [] == [v];
  }

  /** A list parses when its first element does, and then what is left. */
  lemma ElemsParse(es: seq<Value>, rest: string, tail: string)
    requires es != [] && tail == ElemsTail(es) + rest
    requires ParseValue(Encode(es[0]) + tail) == Some((es[0], tail))
    requires |es| > 1 ==> ParseElems(EncodeElems(es[1..]) + rest) == Some((es[1..], rest))
    ensures ParseElems(EncodeElems(es) + rest) == Some((es, rest))
  {
    var first, others := es[0], es[1..];
    ElemsText(es, rest);
    ElemsStep(Encode(first) + tail, first, tail, others, rest);
    FirstAndOthers(es);
  }

  lemma FirstAndOthers(es: seq<Value>)
    requires es != []
    ensures [es[0]] + es[1..] == es
  {
  }

  lemma {:induction false} ElemsRoundTrip(es: seq<Value>, rest: string)
    requires es != [] && forall i :: 0 <= i < |es| ==> WellFormed(es[i])
    ensures ParseElems(EncodeElems(es) + rest) == Some((es, rest))
    decreases es, 1
  {
    ElemsText(es, rest);
    ValueRoundTrip(es[0], ElemsTail(es) + rest);
    if |es| > 1 {
      ElemsRoundTrip(es[1..], rest);
    }
    ElemsParse(es, rest, ElemsTail(es) + rest);
  }

  lemma KeyRoundTrip(key: string, after: string)
    ensures ParseKey(Quote(key) + (":" + after)) == Some((key, after))
  {
    var afterKey := ":" + after;
    var t := Quote(key) + afterKey;
    assert Skip(t) == t && t[0] == '"' && t[1..] == Escape(key) + "\"" + afterKey;
    ParseEscaped(key, afterKey);
    assert Skip(afterKey) == afterKey && afterKey[1..] == after;
  }

  function MembersTail(ms: seq<Member>): string
    requires ms != []
  {
    if |ms| == 1 then "}" else "," + EncodeMembers(ms[1..])
  }

  lemma Regroup(a: string, b: string, c: string, d: string, rest: string)
    ensures (a + (b + (c + d))) + rest == a + (b + (c + (d + rest)))
  {
    assert (c + d) + rest == c + (d + rest);
    assert (b + (c + d)) + rest == b + ((c + d) + rest);
  }

  /** The text of an object's members is its first member's, and what is left. */
  lemma MembersText(ms: seq<Member>, rest: string)
    requires ms != []
    ensures EncodeMembers(ms) + rest
         == Quote(ms[0].key) + (":" + (Encode(ms[0].value) + (MembersTail(ms) + rest)))
    ensures Ends(MembersTail(ms) + rest)
    ensures After(MembersTail(ms) + rest, '}')
         == if |ms| == 1 then End(rest) else More(EncodeMembers(ms[1..]) + rest)
  {
    Regroup(Quote(ms[0].key), ":", Encode(ms[0].value), MembersTail(ms), rest);
    if |ms| == 1 {
      TailText('}', "", '}', rest);
    } else {
      TailText(',', EncodeMembers(ms[1..]), '}', rest);
    }
  }

  lemma {:induction false} MembersRoundTrip(before: seq<Member>, ms: seq<Member>, rest: string)
    requires ms != [] && forall i :: 0 <= i < |ms| ==> WellFormed(ms[i].value)
    ensures ParseMembers(EncodeMembers(ms) + rest, before) == Some((PutAll(before, ms), rest))
    decreases ms, 1
  {
    MembersText(ms, rest);
    KeyRoundTrip(ms[0].key, Encode(ms[0].value) + (MembersTail(ms) + rest));
    ValueRoundTrip(ms[0].value, MembersTail(ms) + rest);
    if |ms| > 1 {
      MembersRoundTrip(Put(before, ms[0]), ms[1..], rest);
    }
  }

  /** Decoding undoes encoding. */
  lemma RoundTrip(v: Value)
    requires WellFormed(v)
    ensures Decode(Encode(v)) == Some(v)
  {
    ValueRoundTrip(v, "");
    assert Encode(v) + "" == Encode(v);
  }
  /** A document is decoded with spaces before and after it, and not with anything else after. */
  lemma DecodesWithinSpaces(v: Value, before: string, rest: string)
    requires WellFormed(v) && Ends(rest) && forall c :: c in before ==> c in " \t\n\r"
    ensures Decode(before + (Encode(v) + rest)) == if forall c :: c in rest ==> Space(c) then Some(v) else None
    ensures Space(' ') && Space('\t') && Space('\n') && Space('\r')
  {
    SpacesArePassed(before, Encode(v) + rest, ']');
    ValueRoundTrip(v, rest);
    AllSpacesIff(rest);
  }

  lemma {:induction false} AllSpacesIff(t: string)
    ensures Skip(t) == "" <==> forall c :: c in t ==> Space(c)
  {
    if t != "" {
      AllSpacesIff(t[1..]);
      assert forall c :: c in t <==> c == t[0] || c in t[1..];
    }
  }
}
