/** Neutral type strings and the container wrappers definition emission looks through. */
module NeutralTypes {
  import opened Wrappers
  import opened Text

  /** `strip_prefix(open)` followed by `strip_suffix('>')`, on what the prefix left. */
  function Enclosed(s: string, open: string): (r: Option<string>)
    ensures r.Some? <==> |s| > |open| && open <= s && s[|s| - 1] == '>'
    ensures r.Some? ==> s == open + r.value + ">"
  {
    if open <= s && |s| > |open| && s[|s| - 1] == '>' then Some(s[|open|..|s| - 1]) else None
  }

  lemma EnclosedOf(open: string, inner: string)
    ensures Enclosed(open + inner + ">", open) == Some(inner)
  {
    var s := open + inner + ">";
    assert s[|open|..|s| - 1] == inner;
  }

  /** One layer of `array<...>` or `nullable<...>`, trimmed inside. */
  function Peel(s: string): (r: Option<string>)
    ensures r.Some? ==> |r.value| < |s|
  {
    if Enclosed(s, "array<").Some? then Some(Trim(Enclosed(s, "array<").value))
    else if Enclosed(s, "nullable<").Some? then Some(Trim(Enclosed(s, "nullable<").value))
    else None
  }

  function Innermost(s: string): string
    decreases |s|
  {
    if Peel(s).Some? then Innermost(Peel(s).value) else s
  }

  /** `unwrap_containers`: the loop over `current`. */
  method UnwrapContainers(neutral: string) returns (current: string)
    ensures current == Innermost(neutral)
    ensures Peel(current).None?
  {
    current := neutral;
    while true
      invariant Innermost(current) == Innermost(neutral)
      decreases |current|
    {
      var asArray, asNullable := Enclosed(current, "array<"), Enclosed(current, "nullable<");
      if asArray.Some? {
        current := Trim(asArray.value);
      } else if asNullable.Some? {
        current := Trim(asNullable.value);
      } else {
        return;
      }
    }
  }

  // ---------- the types those strings spell ----------

  datatype Wrapped =
    | Bare(text: string)
    | ArrayOf(left: string, element: Wrapped, right: string)
    | NullableOf(left: string, element: Wrapped, right: string)

  function Print(t: Wrapped): string {
    match t
    case Bare(text) => text
    case ArrayOf(l, e, r) => "array<" + (l + Print(e) + r) + ">"
    case NullableOf(l, e, r) => "nullable<" + (l + Print(e) + r) + ">"
  }

  function Core(t: Wrapped): string {
    match t
    case Bare(text) => text
    case ArrayOf(_, e, _) => Core(e)
    case NullableOf(_, e, _) => Core(e)
  }

  /** Padding is blank, and what is wrapped neither has outer blanks nor is itself a wrapper. */
  predicate Proper(t: Wrapped) {
    match t
    case Bare(text) => Peel(text).None?
    case ArrayOf(l, e, r) => AllBlank(l, IsWhitespace) && AllBlank(r, IsWhitespace) && Trimmed(Print(e), IsWhitespace) && Proper(e)
    case NullableOf(l, e, r) => AllBlank(l, IsWhitespace) && AllBlank(r, IsWhitespace) && Trimmed(Print(e), IsWhitespace) && Proper(e)
  }

  /** Unwrapping finds the core of a printed type through any depth of wrappers and padding. */
  lemma {:induction false} InnermostOfPrinted(t: Wrapped)
    requires Proper(t)
    ensures Innermost(Print(t)) == Core(t)
    decreases t
  {
    match t
    case Bare(_) =>
    case ArrayOf(l, e, r) =>
      EnclosedOf("array<", l + Print(e) + r);
      TrimOfPadded(l, Print(e), r, IsWhitespace);
      InnermostOfPrinted(e);
    case NullableOf(l, e, r) =>
      var s := Print(t);
      EnclosedOf("nullable<", l + Print(e) + r);
      assert s[0] == 'n';
      TrimOfPadded(l, Print(e), r, IsWhitespace);
      InnermostOfPrinted(e);
  }

  /** Conversely every string is the print of such a type, so nothing is ever half unwrapped. */
  lemma {:induction false} EveryStringIsPrinted(s: string) returns (t: Wrapped)
    ensures Proper(t) && Print(t) == s && Core(t) == Innermost(s)
    decreases |s|
  {
    if Peel(s).None? {
      t := Bare(s);
    } else {
      var open := if Enclosed(s, "array<").Some? then "array<" else "nullable<";
      var inner := Enclosed(s, open).value;
      var left, right := TrimDecomposes(inner, IsWhitespace);
      var e := EveryStringIsPrinted(Trim(inner));
      t := if open == "array<" then ArrayOf(left, e, right) else NullableOf(left, e, right);
    }
  }
}
