/** The JSON bodies the HTTP front end sends: flat objects of string and integer
    members, written as Python's `json.dumps` writes them by default (separators
    ", " and ": ", every character outside ' '..'~' escaped), then encoded as UTF-8. */
module Json {
  import Decimal
  import Text
  import opened Results

  datatype Scalar = Int(n: int) | Str(s: string)

  /** A dict literal: members in insertion order, which `json.dumps` preserves. */
  type Object = seq<(string, Scalar)>

  newtype byte = x: int | 0 <= x < 256

  predicate IsPrintable(c: char) {
    ' ' <= c <= '~'
  }

  predicate AllPrintable(s: string) {
    forall i :: 0 <= i < |s| ==> IsPrintable(s[i])
  }

  function HexDigit(d: int): (c: char)
    requires 0 <= d < 16
    ensures IsPrintable(c)
  {
    if d < 10 then ('0' as int + d) as char else ('a' as int + d - 10) as char
  }

  /** `\uXXXX` with four lower-case hex digits, as `json.dumps` writes it. */
  function UnicodeEscape(n: int): (r: string)
    requires 0 <= n < 0x1_0000
    ensures |r| == 6 && AllPrintable(r)
  {
    ['\\', 'u', HexDigit(n / 4096), HexDigit((n / 256) % 16), HexDigit((n / 16) % 16), HexDigit(n % 16)]
  }

  /** One character of a JSON string under `ensure_ascii=True`. */
  function EscapeChar(c: char): (r: string)
    ensures AllPrintable(r)
    ensures IsPrintable(c) && c != '"' && c != '\\' ==> r == [c]
  {
    if c == '"' then "\\\""
    else if c == '\\' then "\\\\"
    else if c == '\n' then "\\n"
    else if c == '\r' then "\\r"
    else if c == '\t' then "\\t"
    else if c == '\U{8}' then "\\b"
    else if c == '\U{C}' then "\\f"
    else if IsPrintable(c) then [c]
    else if (c as int) < 0x1_0000 then UnicodeEscape(c as int)
    else
      var v := c as int - 0x1_0000;
      UnicodeEscape(0xD800 + v / 1024) + UnicodeEscape(0xDC00 + v % 1024)
  }

  function EscapeAll(s: string): (r: string)
    ensures AllPrintable(r)
    ensures AllPrintable(s) && '"' !in s && '\\' !in s ==> r == s
  {
    if |s| == 0 then "" else EscapeChar(s[0]) + EscapeAll(s[1..])
  }

  function Quote(s: string): (r: string)
    ensures AllPrintable(r)
  {
    "\"" + EscapeAll(s) + "\""
  }

  function DumpScalar(v: Scalar): string {
    match v
    case Int(n) => Decimal.IntToString(n)
    case Str(s) => Quote(s)
  }

  function DumpMembers(ms: Object): string {
    if |ms| == 0 then ""
    else
      Quote(ms[0].0) + ": " + DumpScalar(ms[0].1)
      + (if |ms| > 1 then ", " + DumpMembers(ms[1..]) else "")
  }

  /** `json.dumps(obj)`. */
  function Dumps(obj: Object): string {
    "{" + DumpMembers(obj) + "}"
  }

  /** The UTF-8 encoding of one code point. */
  function EncodeChar(c: char): (r: seq<byte>)
    ensures 1 <= |r| <= 4
    ensures |r| == 1 <==> (c as int) < 0x80
  {
    var n := c as int;
    if n < 0x80 then [n as byte]
    else if n < 0x800 then [(0xC0 + n / 64) as byte, (0x80 + n % 64) as byte]
    else if n < 0x1_0000 then
      [(0xE0 + n / 4096) as byte, (0x80 + (n / 64) % 64) as byte, (0x80 + n % 64) as byte]
    else
      [(0xF0 + n / 262144) as byte, (0x80 + (n / 4096) % 64) as byte,
       (0x80 + (n / 64) % 64) as byte, (0x80 + n % 64) as byte]
  }

  /** Python's `text.encode("utf-8")`. */
  function Utf8(s: string): (r: seq<byte>)
    ensures |r| >= |s|
  {
    if |s| == 0 then [] else EncodeChar(s[0]) + Utf8(s[1..])
  }

  lemma {:induction false} DumpScalarPrintable(v: Scalar)
    ensures AllPrintable(DumpScalar(v))
  {
    match v
    case Int(n) =>
    case Str(s) =>
  }

  lemma {:induction false} DumpMembersPrintable(ms: Object)
    ensures AllPrintable(DumpMembers(ms))
    decreases |ms|
  {
    if |ms| > 0 {
      var head := Quote(ms[0].0) + ": " + DumpScalar(ms[0].1);
      var tail := if |ms| > 1 then ", " + DumpMembers(ms[1..]) else "";
      assert AllPrintable(head) by {
        DumpScalarPrintable(ms[0].1);
        assert AllPrintable(": ");
        ConcatPrintable(Quote(ms[0].0), ": ");
        ConcatPrintable(Quote(ms[0].0) + ": ", DumpScalar(ms[0].1));
      }
      assert AllPrintable(tail) by {
        if |ms| > 1 {
          DumpMembersPrintable(ms[1..]);
          assert AllPrintable(", ");
          ConcatPrintable(", ", DumpMembers(ms[1..]));
        }
      }
      assert DumpMembers(ms) == head + tail;
      ConcatPrintable(head, tail);
    }
  }

  lemma ConcatPrintable(a: string, b: string)
    requires AllPrintable(a) && AllPrintable(b)
    ensures AllPrintable(a + b)
  {
  }

  /** `json.dumps` with `ensure_ascii` writes printable ASCII only, whatever the members hold. */
  lemma DumpsPrintable(obj: Object)
    ensures AllPrintable(Dumps(obj))
  {
    DumpMembersPrintable(obj);
  }

  /** On printable ASCII text UTF-8 is one byte per character, each byte the code point. */
  lemma {:induction false} Utf8OfPrintable(s: string)
    requires AllPrintable(s)
    ensures |Utf8(s)| == |s|
    ensures forall i :: 0 <= i < |s| ==> Utf8(s)[i] as int == s[i] as int
    decreases |s|
  {
    if |s| > 0 {
      Utf8OfPrintable(s[1..]);
    }
  }

  /** The encoded body of any object is exactly as long as its JSON text. */
  lemma EncodedLength(obj: Object)
    ensures |Utf8(Dumps(obj))| == |Dumps(obj)|
  {
    DumpsPrintable(obj);
    Utf8OfPrintable(Dumps(obj));
  }

  /** Text that `json.dumps` copies into a string literal unchanged. */
  predicate IsPlain(s: string) {
    AllPrintable(s) && '"' !in s && '\\' !in s
  }

  lemma QuotePlain(s: string)
    requires IsPlain(s)
    ensures Quote(s) == "\"" + s + "\""
  {
  }

  /** The text of a one-member object with a string value. */
  lemma DumpsStringMember(k: string, v: string)
    ensures Dumps([(k, Str(v))]) == "{" + Quote(k) + ": " + Quote(v) + "}"
  {
    var ms := [(k, Str(v))];
    assert DumpMembers(ms) == Quote(k) + ": " + Quote(v);
  }

  lemma DumpMembersOne(k: string, v: Scalar)
    ensures DumpMembers([(k, v)]) == Quote(k) + ": " + DumpScalar(v)
  {
  }

  lemma DumpMembersTwo(k1: string, v1: Scalar, k2: string, v2: Scalar)
    ensures DumpMembers([(k1, v1), (k2, v2)]) == Quote(k1) + ": " + DumpScalar(v1) + (", " + DumpMembers([(k2, v2)]))
  {
    var ms := [(k1, v1), (k2, v2)];
    assert ms[1..] == [(k2, v2)];
  }

  /** The text of a two-member object with integer values. */
  lemma DumpsIntMembers(k1: string, n1: int, k2: string, n2: int)
    ensures Dumps([(k1, Int(n1)), (k2, Int(n2))]) ==
      ("{" + Quote(k1) + ": ") + Decimal.IntToString(n1) + (", " + Quote(k2) + ": ") + Decimal.IntToString(n2) + "}"
  {
    DumpMembersTwo(k1, Int(n1), k2, Int(n2));
    DumpMembersOne(k2, Int(n2));
    Regroup("{", Quote(k1), ": ", Decimal.IntToString(n1), ", ", Quote(k2), Decimal.IntToString(n2), "}");
  }

  /** Regrouping the pieces of a two-member object's text. */
  lemma Regroup(l: string, q1: string, c: string, s1: string, sep: string, q2: string, s2: string, r: string)
    ensures l + (q1 + c + s1 + (sep + (q2 + c + s2))) + r == (l + q1 + c) + s1 + (sep + q2 + c) + s2 + r
  {
  }

  /** How a client reads two integers back from a text made of a fixed `head`, a
      number, a fixed `middle` that opens with a comma, a number and a closing brace. */
  function ReadBetween(text: string, head: string, middle: string): Option<(int, int)> {
    if Text.StartsWith(text, head) && |text| > |head| && text[|text| - 1] == '}' then
      var body := text[|head|..|text| - 1];
      var firstText := Text.BeforeFirst(body, ',');
      var rest := body[|firstText|..];
      if Text.StartsWith(rest, middle) then
        match (Decimal.ParseInt(firstText), Decimal.ParseInt(rest[|middle|..]))
        case (Some(a), Some(b)) => Some((a, b))
        case _ => None
      else None
    else None
  }

  /** Reading a two-integer body back, for member names `k1` and `k2`: the integers
      between the pieces of text `json.dumps` writes around them. */
  function ReadPair(text: string, k1: string, k2: string): Option<(int, int)> {
    ReadBetween(text, "{" + Quote(k1) + ": ", ", " + Quote(k2) + ": ")
  }

  /** Reading a text built from the fixed pieces and two number texts, the first
      free of commas, gives back the two parsed numbers. */
  lemma ReadBetweenParts(head: string, middle: string, s1: string, s2: string)
    requires ',' !in s1 && |middle| > 0 && middle[0] == ','
    ensures ReadBetween(head + s1 + middle + s2 + "}", head, middle) ==
      match (Decimal.ParseInt(s1), Decimal.ParseInt(s2))
      case (Some(a), Some(b)) => Some((a, b))
      case _ => None
  {
    var text := head + s1 + middle + s2 + "}";
    assert text == head + (s1 + (middle + s2)) + "}";
    assert text[..|head|] == head;
    var body := text[|head|..|text| - 1];
    assert body == s1 + (middle + s2);
    Text.BeforeFirstConcat(s1, middle + s2, ',');
    var rest := body[|s1|..];
    assert rest == middle + s2;
    assert rest[..|middle|] == middle;
    assert rest[|middle|..] == s2;
  }

  lemma ReadPairRoundTrip(k1: string, n1: int, k2: string, n2: int)
    ensures ReadPair(Dumps([(k1, Int(n1)), (k2, Int(n2))]), k1, k2) == Some((n1, n2))
  {
    DumpsIntMembers(k1, n1, k2, n2);
    ReadBetweenParts("{" + Quote(k1) + ": ", ", " + Quote(k2) + ": ", Decimal.IntToString(n1), Decimal.IntToString(n2));
    Decimal.IntToStringRoundTrip(n1);
    Decimal.IntToStringRoundTrip(n2);
  }
}
