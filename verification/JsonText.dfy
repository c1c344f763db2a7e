/**
 * A reader for JSON text, written from the grammar of RFC 8259: objects (section 4), strings
 * (section 7), whole numbers and the two boolean names. It is the reference that the log
 * printer is measured against.
 */
module JsonText {

  /** A log field; a value is a number, a boolean, a text or a list of nested fields. */
  datatype Field = Field(key: string, value: Value)
  datatype Value = Int(n: int) | Bool(b: bool) | Str(s: string) | Sub(fields: seq<Field>)

  datatype Parsed<+T> = Fail | Got(value: T, rest: string)

  predicate IsSpace(c: char) { c == ' ' || c == '\t' || c == '\n' || c == '\r' }
  predicate IsDigit(c: char) { '0' <= c <= '9' }

  function SkipSpace(s: string): (r: string)
    ensures |r| <= |s|
  {
    if s != "" && IsSpace(s[0]) then SkipSpace(s[1..]) else s
  }

  /** One structural character, with the white space allowed before it. */
  function Token(c: char, s: string): (r: Parsed<()>)
    ensures r.Got? ==> |r.rest| < |s|
  {
    var t := SkipSpace(s);
    if t != "" && t[0] == c then Got((), t[1..]) else Fail
  }

  function Literal(word: string, s: string): (r: Parsed<()>)
    ensures r.Got? ==> |r.rest| + |word| == |s|
  {
    if word <= s then Got((), s[|word|..]) else Fail
  }

  // ---- strings ----

  function HexValue(c: char): (r: int)
    ensures -1 <= r < 16
  {
    if '0' <= c <= '9' then (c - '0') as int
    else if 'a' <= c <= 'f' then (c - 'a') as int + 10
    else if 'A' <= c <= 'F' then (c - 'A') as int + 10
    else -1
  }

  /** The four hexadecimal digits of a \u escape. Surrogates are refused: they name no character. */
  function FourHex(s: string): (r: Parsed<char>)
    ensures r.Got? ==> |r.rest| + 4 == |s|
  {
    if |s| < 4 then Fail
    else
      var a, b, c, d := HexValue(s[0]), HexValue(s[1]), HexValue(s[2]), HexValue(s[3]);
      if a < 0 || b < 0 || c < 0 || d < 0 then Fail
      else
        var code := 4096 * a + 256 * b + 16 * c + d;
        if 0xD800 <= code < 0xE000 then Fail else Got(code as char, s[4..])
  }

  /** What follows a reverse solidus. */
  function Escape(s: string): (r: Parsed<char>)
    ensures r.Got? ==> |r.rest| < |s|
  {
    if s == "" then Fail
    else if s[0] == '"' || s[0] == '\\' || s[0] == '/' then Got(s[0], s[1..])
    else if s[0] == 'b' then Got(8 as char, s[1..])
    else if s[0] == 'f' then Got(12 as char, s[1..])
    else if s[0] == 'n' then Got(10 as char, s[1..])
    else if s[0] == 'r' then Got(13 as char, s[1..])
    else if s[0] == 't' then Got(9 as char, s[1..])
    else if s[0] == 'u' then FourHex(s[1..])
    else Fail
  }

  /** One character of a string: escaped, or any but the quote, the reverse solidus and controls. */
  function Character(s: string): (r: Parsed<char>)
    ensures r.Got? ==> |r.rest| < |s|
  {
    if s == "" || s[0] == '"' || s[0] < ' ' then Fail
    else if s[0] == '\\' then Escape(s[1..])
    else Got(s[0], s[1..])
  }

  /** The characters of a string up to its closing quote. */
  function Characters(s: string): (r: Parsed<string>)
    ensures r.Got? ==> |r.rest| < |s|
    decreases |s|
  {
    if s != "" && s[0] == '"' then Got("", s[1..])
    else match Character(s)
      case Fail => Fail
      case Got(c, rest) =>
        match Characters(rest)
        case Fail => Fail
        case Got(text, after) => Got([c] + text, after)
  }

  // ---- numbers ----

  function Digits(s: string, read: nat): (r: Parsed<nat>)
    ensures r.Got? && |r.rest| <= |s|
  {
    if s != "" && IsDigit(s[0]) then Digits(s[1..], 10 * read + (s[0] - '0') as nat) else Got(read, s)
  }

  /** Whole numbers: no leading zero, and at least one digit. */
  function Whole(s: string): (r: Parsed<nat>)
    ensures r.Got? ==> |r.rest| < |s|
  {
    if s == "" || !IsDigit(s[0]) then Fail
    else if s[0] == '0' then Got(0, s[1..])
    else Digits(s[1..], (s[0] - '0') as nat)
  }

  function Number(s: string): (r: Parsed<Value>)
    ensures r.Got? ==> |r.rest| < |s|
  {
    var minus := s != "" && s[0] == '-';
    match Whole(if minus then s[1..] else s)
    case Fail => Fail
    case Got(n, rest) =>
      var size: int := n;
      Got(Int(if minus then -size else size), rest)
  }

  // ---- values and objects ----

  function ParseValue(text: string): (r: Parsed<Value>)
    ensures r.Got? ==> |r.rest| < |text|
    decreases |text|, 0
  {
    var s := SkipSpace(text);
    if s == "" then Fail
    else if s[0] == '"' then
      match Characters(s[1..])
      case Fail => Fail
      case Got(chars, rest) => Got(Str(chars), rest)
    else if s[0] == '{' then
      match Token('}', s[1..])
      case Got(_, rest) => Got(Sub([]), rest)
      case Fail =>
        match ParseMembers(s[1..])
        case Fail => Fail
        case Got(fields, rest) => Got(Sub(fields), rest)
    else if s[0] == 't' then
      match Literal("true", s)
      case Fail => Fail
      case Got(_, rest) => Got(Bool(true), rest)
    else if s[0] == 'f' then
      match Literal("false", s)
      case Fail => Fail
      case Got(_, rest) => Got(Bool(false), rest)
    else Number(s)
  }

  /** The members of an object, up to its closing brace. */
  function ParseMembers(text: string): (r: Parsed<seq<Field>>)
    ensures r.Got? ==> |r.rest| < |text|
    decreases |text|, 1
  {
    match ParseMember(text)
    case Fail => Fail
    case Got(field, rest) =>
      match Token('}', rest)
      case Got(_, after) => Got([field], after)
      case Fail =>
        match Token(',', rest)
        case Fail => Fail
        case Got(_, more) =>
          match ParseMembers(more)
          case Fail => Fail
          case Got(fields, after) => Got([field] + fields, after)
  }

  function ParseMember(text: string): (r: Parsed<Field>)
    ensures r.Got? ==> |r.rest| < |text|
    decreases |text|, 0
  {
    match Token('"', text)
    case Fail => Fail
    case Got(_, s) =>
      match Characters(s)
      case Fail => Fail
      case Got(key, colon) =>
        match Token(':', colon)
        case Fail => Fail
        case Got(_, body) =>
          match ParseValue(body)
          case Fail => Fail
          case Got(value, rest) => Got(Field(key, value), rest)
  }

  /** A whole JSON text: one value with nothing but white space around it. */
  function ParseText(text: string): (r: Parsed<Value>)
  {
    match ParseValue(text)
    case Fail => Fail
    case Got(v, rest) => if SkipSpace(rest) == "" then Got(v, "") else Fail
  }

  // ---- one step of the reader, where no white space intervenes ----

  lemma TokenHere(c: char, s: string)
    requires s != "" && !IsSpace(s[0])
    ensures Token(c, s) == if s[0] == c then Got((), s[1..]) else Fail
  {
  }

  lemma StringReads(text: string, chars: string, rest: string)
    requires text != "" && text[0] == '"' && Characters(text[1..]) == Got(chars, rest)
    ensures ParseValue(text) == Got(Str(chars), rest)
  {
    assert SkipSpace(text) == text;
  }

  lemma MemberReads(text: string, key: string, colon: string, value: Value, rest: string)
    requires text != "" && text[0] == '"' && Characters(text[1..]) == Got(key, colon)
    requires colon != "" && colon[0] == ':' && ParseValue(colon[1..]) == Got(value, rest)
    ensures ParseMember(text) == Got(Field(key, value), rest)
  {
    TokenHere('"', text);
    TokenHere(':', colon);
  }

  lemma LastMember(text: string, field: Field, rest: string)
    requires ParseMember(text) == Got(field, rest) && rest != "" && rest[0] == '}'
    ensures ParseMembers(text) == Got([field], rest[1..])
  {
    TokenHere('}', rest);
  }

  lemma MoreMembers(text: string, field: Field, rest: string, fields: seq<Field>, after: string)
    requires ParseMember(text) == Got(field, rest) && rest != "" && rest[0] == ','
    requires ParseMembers(rest[1..]) == Got(fields, after)
    ensures ParseMembers(text) == Got([field] + fields, after)
  {
    TokenHere('}', rest);
    TokenHere(',', rest);
  }

  lemma EmptyObject(rest: string)
    ensures ParseValue("{}" + rest) == Got(Sub([]), rest)
  {
    var text := "{}" + rest;
    assert SkipSpace(text) == text;
    assert text[1..][1..] == rest;
    TokenHere('}', text[1..]);
  }

  lemma ObjectReads(text: string, fields: seq<Field>, rest: string)
    requires |text| > 1 && text[0] == '{' && text[1] == '"'
    requires ParseMembers(text[1..]) == Got(fields, rest)
    ensures ParseValue(text) == Got(Sub(fields), rest)
  {
    assert SkipSpace(text) == text;
    TokenHere('}', text[1..]);
  }
}
