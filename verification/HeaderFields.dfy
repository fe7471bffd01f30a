/** Field encoding of the provenance header: `sanitize_field` and `decode_field`. */
module HeaderFields {
  import opened Wrappers
  import opened Text

  predicate NeedsEscape(c: char) {
    c == '\\' || IsWhitespace(c) || IsControl(c)
  }

  // ---------- hexadecimal ----------

  /** `{:x}`: no padding, lower case. */
  function ToHex(n: nat): (s: string)
    ensures s != ""
  {
    if n < 16 then [HexDigit(n)] else ToHex(n / 16) + [HexDigit(n % 16)]
  }

  /** `char::to_digit(16)`. */
  function HexValue(c: char): Option<nat> {
    if '0' <= c <= '9' then Some(c as int - '0' as int)
    else if 'a' <= c <= 'f' then Some(c as int - 'a' as int + 10)
    else if 'A' <= c <= 'F' then Some(c as int - 'A' as int + 10)
    else None
  }

  /** The value of a run of hexadecimal digits, unbounded. */
  function HexRun(s: string): Option<nat> {
    if s == "" then Some(0)
    else
      var last := s[|s| - 1];
      var init := HexRun(s[..|s| - 1]);
      if init.Some? && HexValue(last).Some? then Some(init.value * 16 + HexValue(last).value) else None
  }

  /** `u32::from_str_radix(s, 16)`: one leading `+` allowed, never empty, at most 32 bits. */
  function ParseU32(s: string): Option<nat> {
    var digits := if |s| > 1 && s[0] == '+' then s[1..] else s;
    var n := HexRun(digits);
    if digits != "" && n.Some? && n.value < 0x1_0000_0000 then n else None
  }

  /** `char::from_u32`: scalar values only. */
  function FromU32(n: nat): Option<char> {
    if n < 0xD800 || 0xE000 <= n < 0x11_0000 then Some(n as char) else None
  }

  lemma {:induction false} HexRoundTrip(n: nat)
    ensures HexRun(ToHex(n)) == Some(n)
    ensures forall i :: 0 <= i < |ToHex(n)| ==> HexValue(ToHex(n)[i]).Some?
  {
    hide HexDigit, HexValue;
    var init := if n < 16 then "" else ToHex(n / 16);
    var d := HexDigit(n % 16);
    if n >= 16 {
      HexRoundTrip(n / 16);
    }
    assert ToHex(n) == init + [d];
    DigitRoundTrip(n % 16);
    OneMoreDigit(init, d);
  }

  lemma DigitRoundTrip(d: nat)
    requires d < 16
    ensures HexValue(HexDigit(d)) == Some(d)
  {
  }

  lemma OneMoreDigit(init: string, d: char)
    requires HexRun(init).Some? && HexValue(d).Some?
    ensures HexRun(init + [d]) == Some(HexRun(init).value * 16 + HexValue(d).value)
  {
    hide HexValue;
    assert (init + [d])[..|init + [d]| - 1] == init;
  }

  // ---------- sanitize_field ----------

  function EscapeChar(c: char): string {
    if c == '\\' then "\\\\"
    else if NeedsEscape(c) then "\\u{" + ToHex(c as int) + "}"
    else [c]
  }

  function Sanitize(value: string): string {
    if value == "" then "" else EscapeChar(value[0]) + Sanitize(value[1..])
  }

  lemma {:induction false} SanitizeConcat(s: string, t: string)
    ensures Sanitize(s + t) == Sanitize(s) + Sanitize(t)
  {
    if s == "" {
      assert s + t == t;
    } else {
      assert (s + t)[1..] == s[1..] + t;
      SanitizeConcat(s[1..], t);
    }
  }

  /** A value without escapable characters is its own encoding. */
  lemma {:induction false} PlainIsUnchanged(value: string)
    requires forall c :: c in value ==> !NeedsEscape(c)
    ensures Sanitize(value) == value
  {
    if value != "" {
      assert value[0] in value;
      PlainIsUnchanged(value[1..]);
    }
  }

  lemma SanitizeUnit(c: char)
    ensures Sanitize("") == "" && Sanitize([c]) == EscapeChar(c)
  {
    hide EscapeChar;
    assert [c][1..] == "";
  }

  method SanitizeField(value: string) returns (encoded: string)
    ensures encoded == Sanitize(value)
  {
    if forall c :: c in value ==> !NeedsEscape(c) {
      PlainIsUnchanged(value);
      return value;
    }
    hide Sanitize, ToHex, IsWhitespace, IsControl;
    encoded := "";
    SanitizeUnit('x');
    assert value[..0] == "";
    for i := 0 to |value|
      invariant encoded == Sanitize(value[..i])
    {
      var c := value[i];
      assert value[..i + 1] == value[..i] + [c];
      SanitizeConcat(value[..i], [c]);
      SanitizeUnit(c);
      if c == '\\' {
        encoded := encoded + "\\\\";
      } else if NeedsEscape(c) {
        encoded := encoded + ("\\u{" + ToHex(c as int) + "}");
      } else {
        encoded := encoded + [c];
      }
    }
    assert value[..|value|] == value;
  }

  /** A character the encoding may put on the header line: neither blank nor control. */
  predicate LineSafe(c: char) {
    !IsWhitespace(c) && !IsControl(c)
  }

  lemma EscapeCharIsLineSafe(c: char)
    ensures EscapeChar(c) != "" && forall i :: 0 <= i < |EscapeChar(c)| ==> LineSafe(EscapeChar(c)[i])
  {
    if c != '\\' && NeedsEscape(c) {
      HexRoundTrip(c as int);
    }
  }

  /** Encoded text holds no whitespace and no control character, whatever went in. */
  lemma {:induction false} SanitizedIsLineSafe(value: string)
    ensures forall c :: c in Sanitize(value) ==> LineSafe(c)
  {
    if value != "" {
      EscapeCharIsLineSafe(value[0]);
      SanitizedIsLineSafe(value[1..]);
    }
  }

  // ---------- decode_field ----------

  /** The escape body after a backslash, and what follows its closing brace. */
  function DecodeUnicodeEscape(afterBackslash: string): (r: Option<(char, string)>)
    ensures r.Some? ==> |r.value.1| < |afterBackslash|
  {
    if !("u{" <= afterBackslash) then None
    else
      var body := afterBackslash[2..];
      var close := FindChar(body, '}');
      if close.None? then None
      else
        var codePoint := ParseU32(body[..close.value]);
        if codePoint.None? || FromU32(codePoint.value).None? then None
        else Some((FromU32(codePoint.value).value, body[close.value + 1..]))
  }

  function Decode(value: string): string
    decreases |value|
  {
    if value == "" then ""
    else if value[0] != '\\' then [value[0]] + Decode(value[1..])
    else
      var after := value[1..];
      if "\\" <= after then "\\" + Decode(after[1..])
      else if DecodeUnicodeEscape(after).Some? then
        [DecodeUnicodeEscape(after).value.0] + Decode(DecodeUnicodeEscape(after).value.1)
      else "\\" + Decode(after)
  }

  lemma {:induction false} DecodePlainPrefix(plain: string, rest: string)
    requires '\\' !in plain
    ensures Decode(plain + rest) == plain + Decode(rest)
  {
    if plain == "" {
      assert plain + rest == rest;
    } else {
      assert (plain + rest)[1..] == plain[1..] + rest;
      DecodePlainPrefix(plain[1..], rest);
    }
  }

  /** One backslash resolved: what it denotes and what is left to read. */
  function ReadEscape(after: string): (r: (string, string))
    ensures |r.1| <= |after|
  {
    if "\\" <= after then ("\\", after[1..])
    else
      var escape := DecodeUnicodeEscape(after);
      if escape.Some? then ([escape.value.0], escape.value.1) else ("\\", after)
  }

  lemma DecodeAtBackslash(plain: string, after: string)
    requires '\\' !in plain
    ensures Decode(plain + ("\\" + after)) == plain + ReadEscape(after).0 + Decode(ReadEscape(after).1)
  {
    hide DecodeUnicodeEscape;
    DecodePlainPrefix(plain, "\\" + after);
    assert ("\\" + after)[1..] == after;
  }

  /** The loop over `rest`, which copies everything up to the next backslash in one go. */
  method DecodeField(value: string) returns (decoded: string)
    ensures decoded == Decode(value)
  {
    hide Decode, DecodeUnicodeEscape, FindChar;
    if '\\' !in value {
      OldHeadersReadAsIs(value);
      return value;
    }
    decoded := "";
    var rest := value;
    assert "" + Decode(value) == Decode(value);
    while true
      invariant decoded + Decode(rest) == Decode(value)
      decreases |rest|
    {
      var backslash := FindChar(rest, '\\');
      if backslash.None? {
        OldHeadersReadAsIs(rest);
        return decoded + rest;
      }
      var plain, after := rest[..backslash.value], rest[backslash.value + 1..];
      assert rest == plain + ("\\" + after);
      DecodeAtBackslash(plain, after);
      ghost var read := ReadEscape(after);
      assert decoded + (plain + read.0 + Decode(read.1)) == (decoded + plain + read.0) + Decode(read.1);
      decoded := decoded + plain;
      var escape := DecodeUnicodeEscape(after);
      if "\\" <= after {
        decoded := decoded + "\\";
        rest := after[1..];
      } else if escape.Some? {
        decoded := decoded + [escape.value.0];
        rest := escape.value.1;
      } else {
        decoded := decoded + "\\";
        rest := after;
      }
    }
  }

  // ---------- the round trip ----------

  /** A printed code point between braces is read back as that character. */
  lemma UnicodeEscapeReadsBack(c: char, rest: string)
    ensures DecodeUnicodeEscape("u{" + (ToHex(c as int) + ("}" + rest))) == Some((c, rest))
  {
    hide ToHex, HexRun, HexValue, ParseU32, FindChar;
    var hex := ToHex(c as int);
    var (body, after) := (hex + ("}" + rest), "u{" + (hex + ("}" + rest)));
    PrintedCodePoint(c);
    assert after[2..] == body;
    FoundChar(hex, '}', rest);
    assert body[..|hex|] == hex && body[|hex| + 1..] == rest;
  }

  lemma PrintedCodePoint(c: char)
    ensures '}' !in ToHex(c as int) && ParseU32(ToHex(c as int)) == Some(c as int)
  {
    hide ToHex, HexRun, HexValue;
    var hex := ToHex(c as int);
    HexRoundTrip(c as int);
    NoHexDigits();
    assert '}' !in hex;
    assert hex[0] != '+';
  }

  lemma NoHexDigits()
    ensures HexValue('+').None? && HexValue('}').None?
  {
  }

  lemma DecodeEscapedChar(c: char, rest: string)
    ensures Decode(EscapeChar(c) + rest) == [c] + Decode(rest)
  {
    hide DecodeUnicodeEscape, ToHex, IsWhitespace, IsControl;
    var text := EscapeChar(c) + rest;
    if c == '\\' {
      assert text[1..][1..] == rest;
    } else if NeedsEscape(c) {
      var hex := ToHex(c as int);
      UnicodeEscapeReadsBack(c, rest);
      assert text == "\\" + ("u{" + (hex + ("}" + rest)));
      assert text[1..] == "u{" + (hex + ("}" + rest));
    } else {
      assert text[1..] == rest;
    }
  }

  /** Decoding undoes encoding, for every text. */
  lemma {:induction false} DecodeSanitize(value: string)
    ensures Decode(Sanitize(value)) == value
  {
    if value != "" {
      DecodeEscapedChar(value[0], Sanitize(value[1..]));
      DecodeSanitize(value[1..]);
    }
  }

  /** Hence comparing encoded texts is comparing the texts. */
  lemma SanitizeInjective(v: string, w: string)
    ensures Sanitize(v) == Sanitize(w) <==> v == w
  {
    DecodeSanitize(v);
    DecodeSanitize(w);
  }

  // ---------- the encoding, spelled out ----------

  /** A digit's value is its place in either spelling of the sixteen digits, and nothing else has one. */
  lemma HexValueIs(c: char, v: nat)
    ensures HexValue(c) == Some(v) <==> v < 16 && (c == "0123456789abcdef"[v] || c == "0123456789ABCDEF"[v])
  {
  }

  /** Printed in small letters without leading zeros. */
  lemma {:induction false} HexIsPlain(n: nat)
    ensures forall c :: c in ToHex(n) ==> '0' <= c <= '9' || 'a' <= c <= 'f'
    ensures ToHex(n)[0] == '0' <==> n == 0
  {
    if n >= 16 {
      HexIsPlain(n / 16);
    }
  }

  /** What one character becomes: itself, two backslashes, or its code point in braces. */
  lemma EscapeSpelled(c: char)
    ensures c == '\\' ==> Sanitize([c]) == "\\\\"
    ensures c != '\\' && LineSafe(c) ==> Sanitize([c]) == [c]
    ensures !LineSafe(c) ==> exists hex :: Sanitize([c]) == "\\u{" + hex + "}" && HexRun(hex) == Some(c as int)
                                           && (forall d :: d in hex ==> '0' <= d <= '9' || 'a' <= d <= 'f')
                                           && hex != "" && (hex[0] == '0' <==> c as int == 0)
  {
    hide ToHex, HexRun;
    SanitizeUnit(c);
    if !LineSafe(c) {
      var hex := ToHex(c as int);
      HexRoundTrip(c as int);
      HexIsPlain(c as int);
      assert Sanitize([c]) == "\\u{" + hex + "}";
    }
  }

  /** A text is its own encoding exactly when it holds no backslash, blank or control character. */
  lemma {:induction false} UnchangedIff(value: string)
    ensures |Sanitize(value)| >= |value|
    ensures Sanitize(value) == value <==> forall c :: c in value ==> c != '\\' && LineSafe(c)
  {
    if value != "" {
      hide LineSafe, EscapeChar;
      var (c, tail) := (value[0], value[1..]);
      assert value == [c] + tail;
      UnchangedIff(tail);
      EscapeLength(c);
      assert Sanitize(value) == EscapeChar(c) + Sanitize(tail);
      assert forall d :: d in value <==> d == c || d in tail;
      if c != '\\' && LineSafe(c) {
        assert ([c] + Sanitize(tail))[1..] == Sanitize(tail);
      } else {
        assert |Sanitize(value)| > |value|;
        assert value[0] in value;
      }
    }
  }

  lemma EscapeLength(c: char)
    ensures if c != '\\' && LineSafe(c) then EscapeChar(c) == [c] else |EscapeChar(c)| > 1
  {
  }

  /** The digits between the braces: hexadecimal in either case, one `+` allowed before them. */
  ghost predicate Denotes(digits: string, c: char) {
    var bare := if |digits| > 1 && digits[0] == '+' then digits[1..] else digits;
    bare != "" && HexRun(bare) == Some(c as int)
  }

  lemma DenotedIsRead(digits: string, c: char)
    ensures ParseU32(digits) == Some(c as int) <==> Denotes(digits, c)
  {
    hide HexRun;
  }

  lemma ScalarIsRead(n: nat, c: char)
    ensures FromU32(n) == Some(c) <==> n == c as int
  {
  }

  /** A Unicode escape is read exactly where `u{`, digits of a scalar value and `}` stand. */
  lemma UnicodeEscapeIff(after: string, c: char, rest: string)
    ensures DecodeUnicodeEscape(after) == Some((c, rest))
            <==> exists digits :: after == "u{" + (digits + ("}" + rest)) && '}' !in digits && Denotes(digits, c)
  {
    hide ParseU32, FromU32, Denotes;
    if DecodeUnicodeEscape(after) == Some((c, rest)) {
      EscapeParts(after, c, rest);
    }
    if digits :| after == "u{" + (digits + ("}" + rest)) && '}' !in digits && Denotes(digits, c) {
      PartsEscape(digits, c, rest);
    }
  }

  lemma EscapeParts(after: string, c: char, rest: string)
    requires DecodeUnicodeEscape(after) == Some((c, rest))
    ensures exists digits :: after == "u{" + (digits + ("}" + rest)) && '}' !in digits && Denotes(digits, c)
  {
    hide ParseU32, FromU32, Denotes;
    var body := after[2..];
    var close := FindChar(body, '}').value;
    var digits := body[..close];
    assert after == "u{" + body;
    assert body == digits + ("}" + rest);
    ScalarIsRead(ParseU32(digits).value, c);
    DenotedIsRead(digits, c);
  }

  lemma PartsEscape(digits: string, c: char, rest: string)
    requires '}' !in digits && Denotes(digits, c)
    ensures DecodeUnicodeEscape("u{" + (digits + ("}" + rest))) == Some((c, rest))
  {
    hide ParseU32, FromU32, Denotes, FindChar;
    var body := digits + ("}" + rest);
    assert ("u{" + body)[2..] == body;
    FoundChar(digits, '}', rest);
    assert body[..|digits|] == digits && body[|digits| + 1..] == rest;
    DenotedIsRead(digits, c);
    ScalarIsRead(c as int, c);
  }

  /** Any other backslash but a doubled one stands for itself. */
  lemma StrayBackslashStays(after: string)
    requires !("\\" <= after) && DecodeUnicodeEscape(after).None?
    ensures Decode("\\" + after) == "\\" + Decode(after)
  {
    assert ("\\" + after)[1..] == after;
  }

  /** Text without a backslash, such as every header written before the encoding existed, reads as itself. */
  lemma OldHeadersReadAsIs(value: string)
    requires '\\' !in value
    ensures Decode(value) == value
  {
    DecodePlainPrefix(value, "");
    assert value + "" == value;
  }
}
