/** The JSON log printer: one line of text per record, read back by any JSON reader. */
module LoggingJson {
  import opened JsonText
  import opened Sequences

  // ---- joining texts ----

  lemma Regroup(a: string, b: string, c: string, d: string)
    ensures a + b + c + d == a + (b + (c + d))
  {
    assert a + b + c + d == a + b + (c + d);
  }

  lemma Braces(w: string, open: string, a: string, close: string)
    ensures w + open + a + close == w + (open + a + close)
  {
  }

  lemma ObjectJoins(w: string, open: string, ka: string, a: string, comma: string, kb: string, b: string,
                    kc: string, c: string, close: string)
    ensures w + (open + ka) + a + (comma + kb) + b + (comma + kc) + c + close ==
            w + (open + (ka + a + (comma + (kb + b)) + (comma + (kc + c))) + close)
  {
  }

  lemma HeadJoins(w: string, ka: string, a: string, comma: string, kb: string, b: string,
                  kc: string, c: string, kd: string, d: string)
    ensures w + (ka + a) + (comma + kb) + b + (comma + kc) + c + (comma + kd) + d ==
            w + (ka + a + (comma + (kb + b)) + (comma + (kc + c)) + (comma + (kd + d)))
  {
  }

  lemma LineJoins(w: string, open: string, head: string, context: string, close: string)
    ensures w + open + head + context + close == w + (open + (head + context) + close)
  {
  }

  // ---- what is printed ----

  function HexDigit(n: nat): (c: char)
    requires n < 16
    ensures HexValue(c) == n && (IsDigit(c) || 'a' <= c <= 'f')
  {
    if n < 10 then '0' + n as char else 'a' + (n - 10) as char
  }

  /** A character inside a printed string. */
  function Escaped(c: char): string
  {
    if c == '"' then "\\\""
    else if c == '\\' then "\\\\"
    else if c as int == 8 then "\\b"
    else if c as int == 12 then "\\f"
    else if c as int == 10 then "\\n"
    else if c as int == 13 then "\\r"
    else if c as int == 9 then "\\t"
    else if c < ' ' then "\\u00" + [HexDigit(c as int / 16), HexDigit(c as int % 16)]
    else [c]
  }

  function EscapedText(s: string): string
  {
    if s == "" then "" else Escaped(s[0]) + EscapedText(s[1..])
  }

  function Quoted(s: string): string { "\"" + EscapedText(s) + "\"" }

  function Decimal(n: nat): (s: string)
    ensures s != "" && IsDigit(s[0]) && (n > 0 ==> s[0] != '0') && (n == 0 ==> s == "0")
  {
    if n < 10 then ['0' + n as char] else Decimal(n / 10) + ['0' + (n % 10) as char]
  }

  function Signed(n: int): string { if n < 0 then "-" + Decimal(-n) else Decimal(n) }

  function PrintedValue(v: Value): string
    decreases v
  {
    match v
    case Int(n) => Signed(n)
    case Bool(b) => if b then "true" else "false"
    case Str(s) => Quoted(s)
    case Sub(fields) => "{" + PrintedFields(fields, true) + "}"
  }

  function PrintedField(f: Field): string
    decreases f
  {
    Quoted(f.key) + ":" + PrintedValue(f.value)
  }

  /** The fields still to be printed, where `first` says that no comma is due. */
  function PrintedFields(fields: seq<Field>, first: bool): string
    decreases fields
  {
    if fields == [] then ""
    else (if first then "" else ",") + PrintedField(fields[0]) + PrintedFields(fields[1..], false)
  }

  // ---- the text reads back as the tree ----

  lemma ReadEscaped(c: char, rest: string)
    ensures Character(Escaped(c) + rest) == Got(c, rest)
    ensures Escaped(c) != "" && Escaped(c)[0] != '"'
  {
    var e := Escaped(c) + rest;
    if e[0] == '\\' {
      var t := e[1..];
      if t[0] == 'u' && c != '\\' {
        var h := t[1..];
        assert h[0] == '0' && h[1] == '0' && h[2] == HexDigit(c as int / 16) && h[3] == HexDigit(c as int % 16);
        assert h[4..] == rest;
      } else {
        assert t[1..] == rest;
      }
    } else {
      assert e[1..] == rest;
    }
  }

  lemma {:induction false} ReadText(s: string, rest: string)
    ensures Characters(EscapedText(s) + "\"" + rest) == Got(s, rest)
  {
    var text := EscapedText(s) + "\"" + rest;
    if s == "" {
      assert text[1..] == rest;
    } else {
      var more := EscapedText(s[1..]) + "\"" + rest;
      assert text == Escaped(s[0]) + more;
      ReadEscaped(s[0], more);
      ReadText(s[1..], rest);
      assert [s[0]] + s[1..] == s;
    }
  }

  lemma {:induction false} ReadDigits(n: nat, rest: string)
    requires rest != "" ==> !IsDigit(rest[0])
    ensures n > 0 ==> Whole(Decimal(n) + rest) == Got(n, rest)
    ensures n == 0 ==> Whole(Decimal(n) + rest) == Got(0, rest)
  {
    var text := Decimal(n) + rest;
    if n == 0 {
      assert text[1..] == rest;
    } else {
      ReadMore(n, rest);
      assert Digits(rest, n) == Got(n, rest);
    }
  }

  /** Reading the first digits of a number leaves the reader where the last ones continue. */
  lemma {:induction false} ReadMore(n: nat, rest: string)
    requires n > 0
    ensures Whole(Decimal(n) + rest) == Digits(rest, n)
  {
    var text := Decimal(n) + rest;
    if n < 10 {
      assert text[1..] == rest;
    } else {
      var last := ['0' + (n % 10) as char];
      assert text == Decimal(n / 10) + (last + rest);
      ReadMore(n / 10, last + rest);
      assert (last + rest)[1..] == rest;
    }
  }

  lemma NumberBegins(s: string)
    requires s != "" && (IsDigit(s[0]) || s[0] == '-')
    ensures ParseValue(s) == Number(s)
  {
    assert SkipSpace(s) == s;
  }

  lemma ReadNegative(s: string, size: int, rest: string)
    requires size >= 0 && Whole(s) == Got(size, rest)
    ensures Number("-" + s) == Got(Int(-size), rest)
  {
    assert ("-" + s)[1..] == s;
  }

  lemma ReadPositive(s: string, size: int, rest: string)
    requires size >= 0 && Whole(s) == Got(size, rest)
    ensures Number(s) == Got(Int(size), rest)
  {
  }

  lemma ReadSigned(n: int, rest: string)
    requires rest != "" ==> !IsDigit(rest[0])
    ensures Number(Signed(n) + rest) == Got(Int(n), rest)
  {
    if n < 0 {
      var size := -n;
      ReadDigits(size, rest);
      assert Signed(n) + rest == "-" + (Decimal(size) + rest);
      ReadNegative(Decimal(size) + rest, size, rest);
    } else {
      ReadDigits(n, rest);
      ReadPositive(Decimal(n) + rest, n, rest);
    }
  }

  lemma ReadNumber(n: int, rest: string)
    requires rest != "" ==> !IsDigit(rest[0])
    ensures ParseValue(Signed(n) + rest) == Got(Int(n), rest)
  {
    var text := Signed(n) + rest;
    NumberBegins(text);
    ReadSigned(n, rest);
  }

  lemma QuoteRegroups(quote: string, text: string, rest: string)
    ensures quote + text + quote + rest == quote + (text + quote + rest)
  {
  }

  lemma ReadString(s: string, rest: string)
    ensures ParseValue(Quoted(s) + rest) == Got(Str(s), rest)
  {
    var text := Quoted(s) + rest;
    ReadText(s, rest);
    QuoteRegroups("\"", EscapedText(s), rest);
    assert text[1..] == EscapedText(s) + "\"" + rest;
    StringReads(text, s, rest);
  }

  lemma ReadBoolean(b: bool, rest: string)
    ensures ParseValue((if b then "true" else "false") + rest) == Got(Bool(b), rest)
  {
    var text := (if b then "true" else "false") + rest;
    assert SkipSpace(text) == text;
    assert text[if b then 4 else 5..] == rest;
  }

  /** Every value reads back, with whatever follows it left unread. */
  lemma {:induction false} ReadValue(v: Value, rest: string)
    requires rest != "" ==> !IsDigit(rest[0])
    ensures ParseValue(PrintedValue(v) + rest) == Got(v, rest)
    decreases v
  {
    match v
    case Int(n) => ReadNumber(n, rest);
    case Bool(b) => ReadBoolean(b, rest);
    case Str(s) => ReadString(s, rest);
    case Sub(fields) => ReadObject(fields, rest);
  }

  lemma {:induction false} ReadObject(fields: seq<Field>, rest: string)
    ensures ParseValue(PrintedValue(Sub(fields)) + rest) == Got(Sub(fields), rest)
    decreases fields, 1
  {
    var text := PrintedValue(Sub(fields)) + rest;
    if fields == [] {
      EmptyObject(rest);
      assert text == "{}" + rest;
    } else {
      ReadFields(fields, rest);
      assert text[1..] == PrintedFields(fields, true) + ("}" + rest);
      ObjectReads(text, fields, rest);
    }
  }

  /** A printed field, key and colon first. */
  lemma FieldText(f: Field, rest: string)
    ensures PrintedField(f) + rest ==
            "\"" + (EscapedText(f.key) + "\"" + (":" + (PrintedValue(f.value) + rest)))
  {
    FieldRegroups("\"", EscapedText(f.key), ":", PrintedValue(f.value), rest);
  }

  lemma FieldRegroups(quote: string, key: string, colon: string, value: string, rest: string)
    ensures quote + key + quote + colon + value + rest == quote + (key + quote + (colon + (value + rest)))
  {
  }

  lemma {:induction false} ReadField(f: Field, rest: string)
    requires rest != "" ==> !IsDigit(rest[0])
    ensures ParseMember(PrintedField(f) + rest) == Got(f, rest)
    ensures PrintedField(f)[0] == '"'
    decreases f
  {
    var text, colon := PrintedField(f) + rest, ":" + (PrintedValue(f.value) + rest);
    FieldText(f, rest);
    assert text[0] == '"' && text[1..] == EscapedText(f.key) + "\"" + colon;
    ReadText(f.key, colon);
    assert colon[1..] == PrintedValue(f.value) + rest;
    ReadValue(f.value, rest);
    MemberReads(text, f.key, colon, f.value, rest);
  }

  /** The next field stands first in the text still to be printed. */
  lemma FieldsSplit(fields: seq<Field>, tail: string)
    requires fields != []
    ensures PrintedFields(fields, true) + tail ==
            PrintedField(fields[0]) + (PrintedFields(fields[1..], false) + tail)
  {
    Regroup("", PrintedField(fields[0]), PrintedFields(fields[1..], false), tail);
  }

  lemma CommaSplit(fields: seq<Field>, tail: string)
    requires fields != []
    ensures PrintedFields(fields, false) + tail == "," + (PrintedFields(fields, true) + tail)
  {
    Regroup(",", PrintedField(fields[0]), PrintedFields(fields[1..], false), tail);
    FieldsSplit(fields, tail);
  }

  lemma FieldsBegin(fields: seq<Field>, rest: string)
    requires fields != []
    ensures PrintedFields(fields, true) != "" && PrintedFields(fields, true)[0] == '"'
    ensures fields[1..] == [] ==> PrintedFields(fields[1..], false) + ("}" + rest) == "}" + rest
  {
    assert PrintedField(fields[0])[0] == '"';
  }

  lemma {:induction false} ReadFields(fields: seq<Field>, rest: string)
    requires fields != []
    ensures ParseMembers(PrintedFields(fields, true) + ("}" + rest)) == Got(fields, rest)
    ensures PrintedFields(fields, true) != "" && PrintedFields(fields, true)[0] == '"'
    decreases fields, 0
  {
    var more := fields[1..];
    var after := PrintedFields(more, false) + ("}" + rest);
    var text := PrintedFields(fields, true) + ("}" + rest);
    FieldsSplit(fields, "}" + rest);
    FieldsBegin(fields, rest);
    ReadField(fields[0], after);
    if more == [] {
      LastMember(text, fields[0], after);
      assert fields == [fields[0]];
    } else {
      ReadFields(more, rest);
      CommaNext(more, "}" + rest);
      MoreMembers(text, fields[0], after, more, rest);
      assert fields == [fields[0]] + more;
    }
  }

  lemma CommaNext(fields: seq<Field>, tail: string)
    requires fields != []
    ensures var after := PrintedFields(fields, false) + tail;
            after != "" && after[0] == ',' && after[1..] == PrintedFields(fields, true) + tail
  {
    CommaSplit(fields, tail);
  }

  /** The printed text of any tree is a JSON text for exactly that tree. */
  lemma RoundTrip(v: Value)
    ensures ParseText(PrintedValue(v)) == Got(v, "")
  {
    ReadValue(v, "");
    assert PrintedValue(v) + "" == PrintedValue(v);
  }

  // ---- one record, one line ----

  predicate Printable(s: string) { forall i :: 0 <= i < |s| ==> s[i] >= ' ' }

  lemma {:induction false} DecimalPrintable(n: nat)
    ensures Printable(Decimal(n))
  {
    if n >= 10 {
      DecimalPrintable(n / 10);
    }
  }

  lemma {:induction false} EscapedPrintable(s: string)
    ensures Printable(EscapedText(s))
  {
    if s != "" {
      EscapedPrintable(s[1..]);
      assert Printable(Escaped(s[0]));
    }
  }

  lemma {:induction false} FieldsPrintable(fields: seq<Field>, first: bool)
    ensures Printable(PrintedFields(fields, first))
    decreases fields
  {
    if fields != [] {
      EscapedPrintable(fields[0].key);
      ValuePrintable(fields[0].value);
      assert Printable(PrintedField(fields[0]));
      FieldsPrintable(fields[1..], false);
    }
  }

  /** No control character, so in particular no line break, is ever printed. */
  lemma {:induction false} ValuePrintable(v: Value)
    ensures Printable(PrintedValue(v))
    decreases v
  {
    match v
    case Int(n) => DecimalPrintable(if n < 0 then -n else n);
    case Bool(b) =>
    case Str(s) => EscapedPrintable(s);
    case Sub(fields) => FieldsPrintable(fields, true);
  }

  // ---- the record ----

  predicate IsSlash(c: char) { c == '/' || c == '\\' }

  /** The part of a path after its last slash of either kind. */
  function Basename(file: string): (r: string)
    ensures |r| <= |file| && r == file[|file| - |r|..]
    ensures forall i :: 0 <= i < |r| ==> r[i] != '/' && r[i] != '\\'
    ensures |r| < |file| ==> file[|file| - |r| - 1] == '/' || file[|file| - |r| - 1] == '\\'
  {
    if file == "" || IsSlash(file[|file| - 1]) then ""
    else Basename(file[..|file| - 1]) + [file[|file| - 1]]
  }

  datatype LogRecord = LogRecord(levelName: string, file: string, line: int, function_: string, msg: string)

  /** Zero-padded to three digits. */
  function ThreeDigits(n: nat): (s: string)
    requires n < 1000
    ensures |s| == 3 && IsDigit(s[0]) && IsDigit(s[1]) && IsDigit(s[2])
    ensures 100 * (s[0] - '0') as int + 10 * (s[1] - '0') as int + (s[2] - '0') as int == n
  {
    ['0' + (n / 100) as char, '0' + (n / 10 % 10) as char, '0' + (n % 10) as char]
  }

  /** The moment of the record: a broken-down date and time, and the milliseconds within the second. */
  function TimeStamp(moment: string, millis: nat): (s: string)
    requires millis < 1000
    ensures |s| == |moment| + 5 && moment <= s && s[|moment|] == '.' && s[|s| - 1] == 'Z'
    ensures s[|moment| + 1..|s| - 1] == ThreeDigits(millis)
  {
    moment + "." + ThreeDigits(millis) + "Z"
  }

  /** A date and time as digits, dashes and colons. */
  predicate IsMoment(s: string) {
    forall i :: 0 <= i < |s| ==> IsDigit(s[i]) || s[i] == '-' || s[i] == 'T' || s[i] == ':'
  }

  // The keys of a line.
  const TS: string := "ts"
  const LVL: string := "lvl"
  const SOURCE: string := "source"
  const MSG: string := "msg"
  const FILE: string := "file"
  const LINE: string := "line"
  const FUNCTION: string := "function"

  function SourceTree(rec: LogRecord): Value
  {
    Sub([Field(FILE, Str(Basename(rec.file))), Field(LINE, Int(rec.line)), Field(FUNCTION, Str(rec.function_))])
  }

  function HeadFields(rec: LogRecord, moment: string, millis: nat): seq<Field>
    requires millis < 1000
  {
    [Field(TS, Str(TimeStamp(moment, millis))), Field(LVL, Str(rec.levelName)),
     Field(SOURCE, SourceTree(rec)), Field(MSG, Str(rec.msg))]
  }

  lemma {:induction false} PlainText(s: string)
    requires Plain(s)
    ensures EscapedText(s) == s
  {
    if s != "" {
      PlainText(s[1..]);
      assert s == [s[0]] + s[1..];
    }
  }

  predicate Plain(s: string) {
    forall i :: 0 <= i < |s| ==> s[i] >= ' ' && s[i] != '"' && s[i] != '\\'
  }

  function KeyText(key: string): string { "\"" + key + "\":" }

  lemma PrintedPlainKey(key: string, value: Value)
    requires Plain(key)
    ensures PrintedField(Field(key, value)) == KeyText(key) + PrintedValue(value)
  {
    PlainText(key);
    KeyJoins("\"", key, "\"", ":", PrintedValue(value));
    assert "\"" + key + "\":" == "\"" + key + "\"" + ":";
  }

  lemma KeyJoins(a: string, key: string, b: string, colon: string, value: string)
    ensures a + key + b + colon + value == (a + key + b + colon) + value
  {
  }

  lemma {:induction false} PrintedAppend(left: seq<Field>, right: seq<Field>, first: bool)
    ensures PrintedFields(left + right, first) ==
            PrintedFields(left, first) + PrintedFields(right, first && left == [])
    decreases left
  {
    if left == [] {
      assert left + right == right;
    } else {
      assert (left + right)[1..] == left[1..] + right;
      PrintedAppend(left[1..], right, false);
    }
  }

  lemma PrintedOne(f: Field, first: bool)
    ensures PrintedFields([f], first) == (if first then "" else ",") + PrintedField(f)
  {
    assert [f][1..] == [];
  }

  lemma PrintedCons(left: seq<Field>, f: Field)
    requires left != []
    ensures PrintedFields(left + [f], true) == PrintedFields(left, true) + ("," + PrintedField(f))
  {
    PrintedAppend(left, [f], true);
    PrintedOne(f, false);
  }

  lemma PrintedFirst(f: Field)
    ensures PrintedFields([f], true) == PrintedField(f)
  {
    PrintedOne(f, true);
  }

  lemma ThreePrinted(a: Field, b: Field, c: Field)
    ensures PrintedFields([a, b, c], true) == PrintedField(a) + ("," + PrintedField(b)) + ("," + PrintedField(c))
  {
    PrintedFirst(a);
    PrintedCons([a], b);
    PrintedCons([a, b], c);
    assert [a] + [b] == [a, b];
    assert [a, b] + [c] == [a, b, c];
  }

  lemma FourPrinted(a: Field, b: Field, c: Field, d: Field)
    ensures PrintedFields([a, b, c, d], true) ==
            PrintedField(a) + ("," + PrintedField(b)) + ("," + PrintedField(c)) + ("," + PrintedField(d))
  {
    ThreePrinted(a, b, c);
    PrintedCons([a, b, c], d);
    assert [a, b, c] + [d] == [a, b, c, d];
  }

  lemma ThreePlain(ka: string, a: Value, kb: string, b: Value, kc: string, c: Value)
    requires Plain(ka) && Plain(kb) && Plain(kc)
    ensures PrintedFields([Field(ka, a), Field(kb, b), Field(kc, c)], true) ==
            KeyText(ka) + PrintedValue(a) + ("," + (KeyText(kb) + PrintedValue(b)))
            + ("," + (KeyText(kc) + PrintedValue(c)))
  {
    PrintedPlainKey(ka, a);
    PrintedPlainKey(kb, b);
    PrintedPlainKey(kc, c);
    ThreePrinted(Field(ka, a), Field(kb, b), Field(kc, c));
  }

  lemma FourPlain(ka: string, a: Value, kb: string, b: Value, kc: string, c: Value, kd: string, d: Value)
    requires Plain(ka) && Plain(kb) && Plain(kc) && Plain(kd)
    ensures PrintedFields([Field(ka, a), Field(kb, b), Field(kc, c), Field(kd, d)], true) ==
            KeyText(ka) + PrintedValue(a) + ("," + (KeyText(kb) + PrintedValue(b)))
            + ("," + (KeyText(kc) + PrintedValue(c))) + ("," + (KeyText(kd) + PrintedValue(d)))
  {
    PrintedPlainKey(ka, a);
    PrintedPlainKey(kb, b);
    PrintedPlainKey(kc, c);
    PrintedPlainKey(kd, d);
    FourPrinted(Field(ka, a), Field(kb, b), Field(kc, c), Field(kd, d));
  }

  lemma SourceIs(file: string, line: int, func: string)
    ensures PrintedFields([Field(FILE, Str(file)), Field(LINE, Int(line)), Field(FUNCTION, Str(func))], true) ==
            KeyText(FILE) + Quoted(file) + ("," + (KeyText(LINE) + Signed(line)))
            + ("," + (KeyText(FUNCTION) + Quoted(func)))
  {
    ThreePlain(FILE, Str(file), LINE, Int(line), FUNCTION, Str(func));
  }

  lemma MomentIsPlain(moment: string, millis: nat)
    requires IsMoment(moment) && millis < 1000
    ensures EscapedText(TimeStamp(moment, millis)) == TimeStamp(moment, millis)
  {
    PlainText(TimeStamp(moment, millis));
  }

  lemma HeadIs(ts: string, level: string, source: Value, msg: string)
    ensures PrintedFields([Field(TS, Str(ts)), Field(LVL, Str(level)), Field(SOURCE, source),
                           Field(MSG, Str(msg))], true) ==
            KeyText(TS) + Quoted(ts) + ("," + (KeyText(LVL) + Quoted(level)))
            + ("," + (KeyText(SOURCE) + PrintedValue(source))) + ("," + (KeyText(MSG) + Quoted(msg)))
  {
    FourPlain(TS, Str(ts), LVL, Str(level), SOURCE, source, MSG, Str(msg));
  }

  /** The literal pieces of the format string are the keys as they would be printed. */
  lemma Spelled()
    ensures "{\"file\":" == "{" + KeyText(FILE)
    ensures ",\"line\":" == "," + KeyText(LINE)
    ensures ",\"function\":" == "," + KeyText(FUNCTION)
    ensures "\"ts\":" == KeyText(TS)
    ensures ",\"lvl\":" == "," + KeyText(LVL)
    ensures ",\"source\":" == "," + KeyText(SOURCE)
    ensures ",\"msg\":" == "," + KeyText(MSG)
  {
  }

  lemma CommaPrinted(fields: seq<Field>)
    requires fields != []
    ensures PrintedFields(fields, false) == "," + PrintedFields(fields, true)
  {
  }

  /** The text of an object whose fields are a head and more: the one, then the other. */
  lemma ObjectText(head: seq<Field>, context: seq<Field>)
    requires head != []
    ensures PrintedValue(Sub(head + context)) ==
            "{" + (PrintedFields(head, true) + PrintedFields(context, false)) + "}"
  {
    PrintedAppend(head, context, true);
  }

  /** Printing one more field moves it from the text still due to the text printed. */
  lemma FieldStep(was: string, now: string, fields: seq<Field>, i: nat, first: bool)
    requires i < |fields|
    requires now == was + (if first then "" else ",") + PrintedField(fields[i])
    ensures now + PrintedFields(fields[i + 1..], false) == was + PrintedFields(fields[i..], first)
  {
    assert fields[i..][1..] == fields[i + 1..];
    Braces(was, if first then "" else ",", PrintedField(fields[i]), PrintedFields(fields[i + 1..], false));
  }

  lemma EscapeStep(was: string, now: string, s: string, i: nat)
    requires i < |s| && now == was + Escaped(s[i])
    ensures now + EscapedText(s[i + 1..]) == was + EscapedText(s[i..])
  {
    assert s[i..][1..] == s[i + 1..];
    AppendAssoc(was, Escaped(s[i]), EscapedText(s[i + 1..]));
  }

  /** A text buffer that grows at its end. */
  class MemoryBuffer {
    var data: string

    method PushBack(c: char)
      modifies this
      ensures data == old(data) + [c]
    {
      data := data + [c];
    }

    /** Appends text that needs no escaping. */
    method Append(text: string)
      modifies this
      ensures data == old(data) + text
    {
      data := data + text;
    }

    /** Appends a character of a string, escaped if JSON reserves it. */
    method AppendCharacter(c: char)
      modifies this
      ensures data == old(data) + Escaped(c)
    {
      if c == '"' {
        Append("\\\"");
      } else if c == '\\' {
        Append("\\\\");
      } else if c as int == 8 {
        Append("\\b");
      } else if c as int == 12 {
        Append("\\f");
      } else if c == '\n' {
        Append("\\n");
      } else if c == '\r' {
        Append("\\r");
      } else if c == '\t' {
        Append("\\t");
      } else if c < ' ' {
        Append("\\u00" + [HexDigit(c as int / 16), HexDigit(c as int % 16)]);
      } else {
        PushBack(c);
      }
    }

    method AppendEscaped(s: string)
      modifies this
      ensures data == old(data) + EscapedText(s)
    {
      var i := 0;
      while i < |s|
        invariant i <= |s|
        invariant data + EscapedText(s[i..]) == old(data) + EscapedText(s)
      {
        ghost var was := data;
        AppendCharacter(s[i]);
        EscapeStep(was, data, s, i);
        i := i + 1;
      }
    }

    method AppendQuoted(s: string)
      modifies this
      ensures data == old(data) + Quoted(s)
    {
      Append("\"");
      AppendEscaped(s);
      Append("\"");
    }

    /** Appends the fields in order, with a comma before every one but the first. */
    method AppendFields(fields: seq<Field>)
      modifies this
      ensures data == old(data) + PrintedFields(fields, true)
      decreases fields
    {
      var first := true;
      var i := 0;
      while i < |fields|
        invariant i <= |fields|
        invariant data + PrintedFields(fields[i..], first) == old(data) + PrintedFields(fields, true)
      {
        ghost var was := data;
        if !first {
          PushBack(',');
        }
        assert data == was + if first then "" else ",";
        AppendField(fields[i]);
        FieldStep(was, data, fields, i, first);
        first := false;
        i := i + 1;
      }
    }

    method AppendField(f: Field)
      modifies this
      ensures data == old(data) + PrintedField(f)
      decreases f
    {
      ghost var was := data;
      AppendQuoted(f.key);
      PushBack(':');
      AppendFieldValue(f.value);
      Braces(was, Quoted(f.key), ":", PrintedValue(f.value));
    }

    method AppendFieldValue(value: Value)
      modifies this
      ensures data == old(data) + PrintedValue(value)
      decreases value
    {
      match value
      case Str(s) =>
        AppendQuoted(s);
      case Sub(fields) =>
        ghost var was := data;
        PushBack('{');
        AppendFields(fields);
        PushBack('}');
        Braces(was, "{", PrintedFields(fields, true), "}");
      case Int(n) =>
        Append(Signed(n));
      case Bool(b) =>
        Append(if b then "true" else "false");
    }

    method RenderSource(rec: LogRecord)
      modifies this
      ensures data == old(data) + PrintedValue(SourceTree(rec))
    {
      ghost var was := data;
      Spelled();
      SourceIs(Basename(rec.file), rec.line, rec.function_);
      Append("{\"file\":");
      AppendQuoted(Basename(rec.file));
      Append(",\"line\":");
      Append(Signed(rec.line));
      Append(",\"function\":");
      AppendQuoted(rec.function_);
      PushBack('}');
      ObjectJoins(was, "{", KeyText(FILE), Quoted(Basename(rec.file)), ",", KeyText(LINE), Signed(rec.line),
                  KeyText(FUNCTION), Quoted(rec.function_), "}");
    }

    method RenderHead(rec: LogRecord, moment: string, millis: nat)
      requires IsMoment(moment) && millis < 1000
      modifies this
      ensures data == old(data) + PrintedFields(HeadFields(rec, moment, millis), true)
    {
      ghost var was, ts := data, Quoted(TimeStamp(moment, millis));
      MomentIsPlain(moment, millis);
      Spelled();
      HeadIs(TimeStamp(moment, millis), rec.levelName, SourceTree(rec), rec.msg);
      Append("\"ts\":" + ("\"" + TimeStamp(moment, millis) + "\""));
      Append(",\"lvl\":");
      AppendQuoted(rec.levelName);
      Append(",\"source\":");
      RenderSource(rec);
      Append(",\"msg\":");
      AppendQuoted(rec.msg);
      HeadJoins(was, KeyText(TS), ts, ",", KeyText(LVL), Quoted(rec.levelName),
                KeyText(SOURCE), PrintedValue(SourceTree(rec)), KeyText(MSG), Quoted(rec.msg));
    }

    /** Appends the fields of the logging context, after a comma if there are any. */
    method RenderContext(context: seq<Field>)
      modifies this
      ensures data == old(data) + PrintedFields(context, false)
    {
      if context != [] {
        ghost var was := data;
        PushBack(',');
        AppendFields(context);
        CommaPrinted(context);
        AppendAssoc(was, ",", PrintedFields(context, true));
      }
    }

    /** Appends the line of a record: its printed tree, whatever the strings in it hold. */
    method RenderJsonLine(rec: LogRecord, moment: string, millis: nat, context: seq<Field>)
      requires IsMoment(moment) && millis < 1000
      modifies this
      ensures data == old(data) + PrintedValue(Sub(HeadFields(rec, moment, millis) + context))
    {
      ghost var was, head := data, PrintedFields(HeadFields(rec, moment, millis), true);
      PushBack('{');
      RenderHead(rec, moment, millis);
      RenderContext(context);
      PushBack('}');
      LineJoins(was, "{", head, PrintedFields(context, false), "}");
      ObjectText(HeadFields(rec, moment, millis), context);
    }
  }

  /** What a reader finds under a key: the value of the first field that has it. */
  function Under(fields: seq<Field>, key: string): Value
  {
    if fields == [] then Sub([]) else if fields[0].key == key then fields[0].value else Under(fields[1..], key)
  }

  lemma UnderFirst(f: Field, more: seq<Field>, key: string)
    ensures Under([f] + more, key) == if f.key == key then f.value else Under(more, key)
  {
    assert ([f] + more)[1..] == more;
  }

  lemma UnderFour(a: Field, b: Field, c: Field, d: Field, more: seq<Field>)
    requires a.key != b.key && a.key != c.key && a.key != d.key && b.key != c.key && b.key != d.key && c.key != d.key
    ensures var fields := [a, b, c, d] + more;
            && Under(fields, a.key) == a.value && Under(fields, b.key) == b.value
            && Under(fields, c.key) == c.value && Under(fields, d.key) == d.value
  {
    assert [a, b, c, d] + more == [a] + ([b] + ([c] + ([d] + more)));
    forall key | key in [a.key, b.key, c.key, d.key]
      ensures Under([a, b, c, d] + more, key) ==
              if key == a.key then a.value else if key == b.key then b.value
              else if key == c.key then c.value else d.value
    {
      UnderFirst(a, [b] + ([c] + ([d] + more)), key);
      UnderFirst(b, [c] + ([d] + more), key);
      UnderFirst(c, [d] + more, key);
      UnderFirst(d, more, key);
    }
  }

  lemma KeysDiffer()
    ensures TS == "ts" && LVL == "lvl" && SOURCE == "source" && MSG == "msg"
    ensures TS != LVL && TS != SOURCE && TS != MSG && LVL != SOURCE && LVL != MSG && SOURCE != MSG
  {
    assert LVL[0] != MSG[0];
  }

  /** What a reader of a line finds under the four keys of a record, whatever the context adds. */
  lemma LineSays(rec: LogRecord, moment: string, millis: nat, context: seq<Field>)
    requires millis < 1000
    ensures var fields := HeadFields(rec, moment, millis) + context;
            && Under(fields, TS) == Str(TimeStamp(moment, millis)) && Under(fields, LVL) == Str(rec.levelName)
            && Under(fields, SOURCE) == SourceTree(rec) && Under(fields, MSG) == Str(rec.msg)
  {
    KeysDiffer();
    UnderFour(Field(TS, Str(TimeStamp(moment, millis))), Field(LVL, Str(rec.levelName)),
              Field(SOURCE, SourceTree(rec)), Field(MSG, Str(rec.msg)), context);
  }

  /** What a log line tells a JSON reader: the record, then the logging context, in order, on one line. */
  lemma LineReadsBack(rec: LogRecord, moment: string, millis: nat, context: seq<Field>)
    requires millis < 1000
    ensures var fields := HeadFields(rec, moment, millis) + context;
            ParseText(PrintedValue(Sub(fields))) == Got(Sub(fields), "") && Printable(PrintedValue(Sub(fields)))
  {
    TreeReadsBack(Sub(HeadFields(rec, moment, millis) + context));
  }

  lemma TreeReadsBack(v: Value)
    ensures ParseText(PrintedValue(v)) == Got(v, "") && Printable(PrintedValue(v))
  {
    RoundTrip(v);
    ValuePrintable(v);
  }
}
