/**
 * `validarUsuario`: the rule that `nombre` is required, is a string and has
 * at least three characters, as JavaScript counts them.
 */
module Validation {
  import opened Wrappers
  import opened Store

  /** The fewest characters a name may have. */
  const MinLength: nat := 3

  /** The way a name breaks the rule; the validator's message text is abstracted away. */
  datatype Reason = NameRequired | NotAString | TooShort

  /** What the validator hands back: the value it saw and, on failure, why. */
  datatype Validated = Validated(value: Nombre, error: Option<Reason>)

  /** UTF-16 code units of one character: two for a character outside the Basic Multilingual Plane. */
  function CodeUnits(c: char): nat
  {
    if c as int >= 0x1_0000 then 2 else 1
  }

  /** JavaScript's `length` of a string: its number of UTF-16 code units. */
  function Utf16Length(s: string): (n: nat)
    ensures |s| <= n <= 2 * |s|
  {
    if s == [] then 0 else CodeUnits(s[0]) + Utf16Length(s[1..])
  }

  /** The name rule as a predicate. */
  predicate Valid(n: Nombre)
  {
    n.Text? && Utf16Length(n.s) >= MinLength
  }

  /** Validates a name, returning the value unchanged alongside the outcome. */
  function Validate(n: Nombre): (r: Validated)
    ensures r.value == n
    ensures r.error.None? <==> Valid(n)
    ensures r.error == Some(NameRequired) <==> n.Missing?
    ensures r.error == Some(NotAString) <==> n.NonText?
    ensures r.error == Some(TooShort) <==> n.Text? && !Valid(n)
  {
    match n
    case Missing => Validated(n, Some(NameRequired))
    case NonText(_) => Validated(n, Some(NotAString))
    case Text(s) => Validated(n, if Utf16Length(s) < MinLength then Some(TooShort) else None)
  }

  /** Every string of three or more characters passes; none of one character or fewer does. */
  lemma LengthBounds(s: string)
    ensures |s| >= 3 ==> Valid(Text(s))
    ensures |s| <= 1 ==> !Valid(Text(s))
  {
  }

  /** Two characters can be enough: a character outside the Basic Multilingual Plane counts twice. */
  lemma TwoCharactersCanPass()
    ensures Valid(Text("\U{1F600}a"))
    ensures !Valid(Text("ab"))
  {
  }
}
