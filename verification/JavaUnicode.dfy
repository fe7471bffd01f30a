/** Java's Unicode escapes, which are read before anything else, comments included. */
module JavaUnicode {
  import opened Wrappers
  import opened HeaderFields

  function LeadingUs(text: string): (n: nat)
    ensures n <= |text|
  {
    if text != "" && text[0] == 'u' then 1 + LeadingUs(text[1..]) else 0
  }

  /**
   The first translation step of section 3.3 of the Java Language Specification. A backslash that
   an even run of backslashes precedes, followed by one or more `u`, takes four hexadecimal digits;
   nothing is returned when they are missing or denote half of a surrogate pair.
   */
  function UnicodePass(text: string): Option<string>
    decreases |text|
  {
    if text == "" then Some("")
    else if text[0] != '\\' || |text| == 1 then PrependText(text[..1], UnicodePass(text[1..]))
    else if text[1] != 'u' then PrependText(text[..2], UnicodePass(text[2..]))
    else
      var digits := 1 + LeadingUs(text[1..]);
      if |text| < digits + 4 then None
      else
        var code := HexRun(text[digits..digits + 4]);
        if code.None? || FromU32(code.value).None? then None
        else PrependText([FromU32(code.value).value], UnicodePass(text[digits + 4..]))
  }

  function PrependText(s: string, r: Option<string>): Option<string> {
    if r.Some? then Some(s + r.value) else None
  }

  /** A character that is no backslash, or a backslash and a character that is no `u`, stays. */
  lemma PassOneUnit(unit: string, after: string)
    requires if |unit| == 1 then unit[0] != '\\' else |unit| == 2 && unit[0] == '\\' && unit[1] != 'u'
    ensures UnicodePass(unit + after) == PrependText(unit, UnicodePass(after))
  {
    var text := unit + after;
    assert text[|unit|..] == after && text[..|unit|] == unit;
  }

  lemma {:induction false} PlainPasses(plain: string, after: string)
    requires '\\' !in plain
    ensures UnicodePass(plain + after) == PrependText(plain, UnicodePass(after))
  {
    hide UnicodePass;
    if plain == "" {
      assert plain + after == after;
      assert "" + UnicodePass(after).GetOr("") == UnicodePass(after).GetOr("");
    } else {
      var unit, rest := [plain[0]], plain[1..];
      PlainPasses(rest, after);
      PassOneUnit(unit, rest + after);
      assert plain + after == unit + (rest + after);
      assert plain + UnicodePass(after).GetOr("") == unit + (rest + UnicodePass(after).GetOr(""));
    }
  }

  lemma {:induction false} NoHexRun(s: string, i: nat)
    requires i < |s| && HexValue(s[i]).None?
    ensures HexRun(s).None?
    decreases |s|
  {
    if i < |s| - 1 {
      NoHexRun(s[..|s| - 1], i);
    }
  }

  /** Braces after the `u` are not hexadecimal digits, so the text does not translate. */
  lemma BracedEscapeFails(after: string)
    ensures UnicodePass("\\u{" + after).None?
  {
    var text := "\\u{" + after;
    assert text[1..][0] == 'u' && text[1..][1..][0] == '{';
    assert LeadingUs(text[1..][1..]) == 0 && LeadingUs(text[1..]) == 1;
    if |text| >= 6 {
      NoHexRun(text[2..6], 0);
    }
  }
}
