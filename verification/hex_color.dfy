/** `hex_to_rgb`, which the material scripts use for every base colour: strip '#' from
    both ends, then read the two-character slices at offsets 0, 2 and 4 with Python's
    `int(slice, 16)`. The division by 255.0 is left out: the model yields the three
    integers. */
module HexColor {
  import Text
  import opened Results

  datatype Rgb = Rgb(red: int, green: int, blue: int)

  predicate IsHexDigit(c: char) {
    '0' <= c <= '9' || 'a' <= c <= 'f' || 'A' <= c <= 'F'
  }

  function HexDigitValue(c: char): (v: nat)
    requires IsHexDigit(c)
    ensures v < 16
  {
    if '0' <= c <= '9' then c as int - '0' as int
    else if 'a' <= c <= 'f' then c as int - 'a' as int + 10
    else c as int - 'A' as int + 10
  }

  predicate AllHex(s: string) {
    forall i :: 0 <= i < |s| ==> IsHexDigit(s[i])
  }

  /** The value of a hex digit string, most significant digit first. */
  function HexValue(s: string): (v: nat)
    requires AllHex(s)
    ensures v < Pow16(|s|)
  {
    if |s| == 0 then 0 else HexValue(s[..|s| - 1]) * 16 + HexDigitValue(s[|s| - 1])
  }

  function Pow16(n: nat): (p: nat)
    ensures p > 0
  {
    if n == 0 then 1 else 16 * Pow16(n - 1)
  }

  /** Python's slice `s[i:j]` for `0 <= i <= j`: clamped to the string. */
  function Slice(s: string, i: nat, j: nat): (r: string)
    requires i <= j
    ensures |r| == if j <= |s| then j - i else if i <= |s| then |s| - i else 0
  {
    if i >= |s| then "" else if j >= |s| then s[i..] else s[i..j]
  }

  const NotHex := ValueError("invalid literal for int() with base 16")

  /** Python's `int(s, 16)` on text of at most two characters: surrounding whitespace is
      ignored, one '+' or '-' may precede the digits, and at least one hex digit must
      follow. (A "0x" prefix or an underscore needs more than two characters.) */
  function ParseHex(s: string): (r: Result<int>)
    requires |s| <= 2
    ensures r.Ok? ==> -15 <= r.value <= 255
    ensures r.Err? ==> r.error == NotHex
  {
    ParseStripped(Text.Strip(s))
  }

  /** `int(t, 16)` once the surrounding whitespace is gone. */
  function ParseStripped(t: string): (r: Result<int>)
    requires |t| <= 2
    ensures r.Ok? ==> -15 <= r.value <= 255
    ensures r.Err? ==> r.error == NotHex
  {
    if |t| > 0 && (t[0] == '+' || t[0] == '-') then
      var ds := t[1..];
      if |ds| > 0 && AllHex(ds) then
        var v := ShortHexValue(ds);
        Ok(if t[0] == '-' then -v else v)
      else Err(NotHex)
    else if |t| > 0 && AllHex(t) then Ok(ShortHexValue(t))
    else Err(NotHex)
  }

  /** The value of at most two hex digits: below 16 for one digit, below 256 for two. */
  function ShortHexValue(s: string): (v: int)
    requires |s| <= 2 && AllHex(s)
    ensures v == HexValue(s) as int && 0 <= v < 256 && (|s| <= 1 ==> v < 16)
  {
    assert Pow16(0) == 1 && Pow16(1) == 16 && Pow16(2) == 256;
    HexValue(s)
  }

  /** The three channels of text that has already lost its '#'s. */
  function Channels(h: string): (r: Result<Rgb>) {
    ReadSlices(Slice(h, 0, 2), Slice(h, 2, 4), Slice(h, 4, 6))
  }

  /** The channels read from the three slices in order; the first failure is raised. */
  function ReadSlices(s0: string, s1: string, s2: string): (r: Result<Rgb>)
    requires |s0| <= 2 && |s1| <= 2 && |s2| <= 2
  {
    var red :- ParseHex(s0);
    var green :- ParseHex(s1);
    var blue :- ParseHex(s2);
    Ok(Rgb(red, green, blue))
  }

  /** `hex_to_rgb` as written. */
  function HexToRgb(text: string): (r: Result<Rgb>) {
    Channels(Text.StripChar(text, '#'))
  }

  /** Two hex digits for a byte, upper case as the scripts write their colour constants. */
  function ByteToHex(b: nat): (s: string)
    requires b < 256
    ensures |s| == 2 && AllHex(s)
  {
    [UpperHexDigit(b / 16), UpperHexDigit(b % 16)]
  }

  function UpperHexDigit(d: nat): (c: char)
    requires d < 16
    ensures IsHexDigit(c) && HexDigitValue(c) == d
  {
    if d < 10 then ('0' as int + d) as char else ('A' as int + d - 10) as char
  }

  /** A colour written as `#RRGGBB` reads back as the same three bytes. */
  lemma HexToRgbRoundTrip(red: nat, green: nat, blue: nat)
    requires red < 256 && green < 256 && blue < 256
    ensures HexToRgb("#" + ByteToHex(red) + ByteToHex(green) + ByteToHex(blue)) == Ok(Rgb(red, green, blue))
  {
    var r, g, b := ByteToHex(red), ByteToHex(green), ByteToHex(blue);
    var h := r + g + b;
    assert "#" + r + g + b == "#" + h;
    StripLeadingHash(h);
    assert Slice(h, 0, 2) == r && Slice(h, 2, 4) == g && Slice(h, 4, 6) == b;
    assert ParseHex(r) == Ok(red) by { HexPair(red); }
    assert ParseHex(g) == Ok(green) by { HexPair(green); }
    assert ParseHex(b) == Ok(blue) by { HexPair(blue); }
    ReadSlicesOk(r, g, b, red, green, blue);
  }

  /** Three slices that parse read as the colour of their values. */
  lemma ReadSlicesOk(s0: string, s1: string, s2: string, a: int, b: int, c: int)
    requires |s0| <= 2 && |s1| <= 2 && |s2| <= 2
    requires ParseHex(s0) == Ok(a) && ParseHex(s1) == Ok(b) && ParseHex(s2) == Ok(c)
    ensures ReadSlices(s0, s1, s2) == Ok(Rgb(a, b, c))
  {
  }

  /** Two hex digits parse as their byte. */
  lemma ParseTwoDigits(s: string)
    requires |s| == 2 && IsHexDigit(s[0]) && IsHexDigit(s[1])
    ensures ParseHex(s) == Ok(ByteAt(s, 0))
  {
    assert Text.Strip(s) == s by { NoSpaceStrip(s); }
    assert ParseStripped(s) == Ok(ByteAt(s, 0)) by { TwoDigitsValue(s); }
    ParseOfStripped(s, ByteAt(s, 0));
  }

  /** Text that `strip` leaves alone parses as `ParseStripped` reads it. */
  lemma ParseOfStripped(s: string, v: int)
    requires |s| <= 2 && Text.Strip(s) == s && ParseStripped(s) == Ok(v)
    ensures ParseHex(s) == Ok(v)
  {
  }

  lemma TwoDigitsValue(s: string)
    requires |s| == 2 && IsHexDigit(s[0]) && IsHexDigit(s[1])
    ensures ParseStripped(s) == Ok(ByteAt(s, 0))
  {
    assert AllHex(s);
    assert s[..1] == [s[0]];
    assert HexValue(s[..1]) == HexDigitValue(s[0]);
  }

  lemma HexPair(b: nat)
    requires b < 256
    ensures ParseHex(ByteToHex(b)) == Ok(b as int)
  {
    var s := ByteToHex(b);
    ParseTwoDigits(s);
    assert ByteAt(s, 0) == b;
  }

  /** Text that neither starts nor ends with whitespace is its own strip. */
  lemma NoSpaceStrip(s: string)
    requires |s| > 0 && IsHexDigit(s[0]) && IsHexDigit(s[|s| - 1])
    ensures Text.Strip(s) == s
  {
    Text.StripByKeeps(s, Text.IsSpace);
  }

  /** Stripping a leading '#' from text that has no '#' at either end gives the text. */
  lemma StripLeadingHash(h: string)
    requires |h| > 0 && h[0] != '#' && h[|h| - 1] != '#'
    ensures Text.StripChar("#" + h, '#') == h
  {
    assert ("#" + h)[1..] == h;
    Text.StripCharKeeps(h, '#');
  }

  /** The '#' is optional: with or without it the same channels are read. */
  lemma HashOptional(s: string)
    ensures HexToRgb("#" + s) == HexToRgb(s)
  {
    assert ("#" + s)[1..] == s;
  }

  /** After stripping, only the first six characters are read. */
  lemma OnlySixMatter(h: string)
    requires |h| >= 6
    ensures Channels(h) == Channels(h[..6])
  {
    assert Slice(h[..6], 0, 2) == Slice(h, 0, 2);
    assert Slice(h[..6], 2, 4) == Slice(h, 2, 4);
    assert Slice(h[..6], 4, 6) == Slice(h, 4, 6);
  }

  /** Fewer than five characters after stripping leave the blue slice empty, which
      `int` rejects. */
  lemma ShortFails(h: string)
    requires |h| < 5
    ensures Channels(h).Err?
  {
    assert Slice(h, 4, 6) == "";
    assert Text.Strip("") == "";
  }

  /** A slice that starts with neither a sign, whitespace nor a hex digit is rejected. */
  lemma BadDigitFails(h: string)
    requires |h| > 0 && !IsHexDigit(h[0]) && !Text.IsSpace(h[0]) && h[0] != '+' && h[0] != '-'
    ensures Channels(h).Err?
  {
    var s := Slice(h, 0, 2);
    assert s[0] == h[0];
    var t := Text.Strip(s);
    assert |t| > 0 ==> t[0] == h[0];
  }

  /** As written, a sign slips through: a '-' and one hex digit `d` followed by four
      hex digits read as a negative red channel, e.g. "-10000" gives (-1, 0, 0). */
  lemma SignedChannelAccepted(d: char, rest: string)
    requires IsHexDigit(d) && |rest| == 4 && AllHex(rest)
    ensures HexToRgb(['-', d] + rest) == Ok(Rgb(-(HexDigitValue(d) as int), ByteAt(rest, 0), ByteAt(rest, 2)))
  {
    var h := ['-', d] + rest;
    Text.StripCharKeeps(h, '#');
    SignedSlices(d, rest);
    SignedRead(d, rest);
  }

  lemma SignedSlices(d: char, rest: string)
    requires |rest| == 4
    ensures var h := ['-', d] + rest;
      Slice(h, 0, 2) == ['-', d] && Slice(h, 2, 4) == Slice(rest, 0, 2) && Slice(h, 4, 6) == Slice(rest, 2, 4)
  {
  }

  lemma SignedRead(d: char, rest: string)
    requires IsHexDigit(d) && |rest| == 4 && AllHex(rest)
    ensures ReadSlices(['-', d], Slice(rest, 0, 2), Slice(rest, 2, 4)) ==
      Ok(Rgb(-(HexDigitValue(d) as int), ByteAt(rest, 0), ByteAt(rest, 2)))
  {
    assert IsHexDigit(rest[0]) && IsHexDigit(rest[1]) && IsHexDigit(rest[2]) && IsHexDigit(rest[3]);
    var s0, s1, s2 := ['-', d], Slice(rest, 0, 2), Slice(rest, 2, 4);
    var a, b, c := -(HexDigitValue(d) as int), ByteAt(rest, 0), ByteAt(rest, 2);
    assert ParseHex(s0) == Ok(a) by { MinusDigit(d); }
    assert ParseHex(s1) == Ok(b) by { StrictSlice(rest, 0); }
    assert ParseHex(s2) == Ok(c) by { StrictSlice(rest, 2); }
    assert |s0| <= 2 && |s1| <= 2 && |s2| <= 2;
    ReadSlicesOk(s0, s1, s2, a, b, c);
  }

  lemma MinusDigit(d: char)
    requires IsHexDigit(d)
    ensures ParseHex(['-', d]) == Ok(-(HexDigitValue(d) as int))
  {
    var s := ['-', d];
    assert Text.Strip(s) == s by { Text.StripByKeeps(s, Text.IsSpace); }
    assert ParseStripped(s) == Ok(-(HexDigitValue(d) as int)) by { MinusDigitValue(d); }
    ParseOfStripped(s, -(HexDigitValue(d) as int));
  }

  lemma MinusDigitValue(d: char)
    requires IsHexDigit(d)
    ensures ParseStripped(['-', d]) == Ok(-(HexDigitValue(d) as int))
  {
    var s := ['-', d];
    assert s[1..] == [d];
    assert [d][..0] == [];
    assert AllHex([d]) && HexValue([d]) == HexDigitValue(d);
  }

  /** The byte written by the two hex digits at offset `i`. */
  function ByteAt(h: string, i: nat): (v: int)
    requires i + 2 <= |h| && IsHexDigit(h[i]) && IsHexDigit(h[i + 1])
    ensures 0 <= v < 256
  {
    HexDigitValue(h[i]) * 16 + HexDigitValue(h[i + 1])
  }

  /** `hex_to_rgb` as the colour constants are evidently meant to be read: each channel
      exactly two hex digits. */
  function HexToRgbStrict(text: string): (r: Result<Rgb>)
    ensures r.Ok? <==> var h := Text.StripChar(text, '#'); |h| >= 6 && AllHex(h[..6])
    ensures r.Ok? ==> 0 <= r.value.red < 256 && 0 <= r.value.green < 256 && 0 <= r.value.blue < 256
  {
    var h := Text.StripChar(text, '#');
    if |h| >= 6 && AllHex(h[..6]) then
      assert forall i :: 0 <= i < 6 ==> h[..6][i] == h[i];
      Ok(Rgb(ByteAt(h, 0), ByteAt(h, 2), ByteAt(h, 4)))
    else Err(NotHex)
  }

  /** On the inputs the strict reading accepts, the code as written reads the same
      triple. */
  lemma StrictAgrees(text: string)
    requires HexToRgbStrict(text).Ok?
    ensures HexToRgb(text) == HexToRgbStrict(text)
  {
    var h := Text.StripChar(text, '#');
    assert forall i :: 0 <= i < 6 ==> h[..6][i] == h[i];
    var s0, s1, s2 := Slice(h, 0, 2), Slice(h, 2, 4), Slice(h, 4, 6);
    assert ParseHex(s0) == Ok(ByteAt(h, 0)) by { StrictSlice(h, 0); }
    assert ParseHex(s1) == Ok(ByteAt(h, 2)) by { StrictSlice(h, 2); }
    assert ParseHex(s2) == Ok(ByteAt(h, 4)) by { StrictSlice(h, 4); }
    ReadSlicesOk(s0, s1, s2, ByteAt(h, 0), ByteAt(h, 2), ByteAt(h, 4));
  }

  lemma StrictSlice(h: string, i: nat)
    requires i + 2 <= |h| && IsHexDigit(h[i]) && IsHexDigit(h[i + 1])
    ensures ParseHex(Slice(h, i, i + 2)) == Ok(ByteAt(h, i))
  {
    var s := h[i..i + 2];
    assert Slice(h, i, i + 2) == s;
    assert s[0] == h[i] && s[1] == h[i + 1];
    ParseTwoDigits(s);
    assert ByteAt(s, 0) == ByteAt(h, i);
  }
}
