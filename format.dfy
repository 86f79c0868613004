/** The part of Go's `fmt.Sprintf` the notify helpers use: literal text, the
    verbs `%s` and `%d`, and the escape `%%`. */
module Format {
  import Decimal

  /** One argument of a formatting call. */
  datatype Arg = Str(s: string) | Int(i: int)

  /** The verbs of `format` line up with `args`: one argument of the right kind
      for each `%s` or `%d`, in order, and none left over. */
  predicate Matches(format: string, args: seq<Arg>)
    // every argument is consumed by a two-character verb
    ensures Matches(format, args) ==> 2 * |args| <= |format|
    decreases |format|
  {
    if format == [] then args == []
    else if format[0] != '%' then Matches(format[1..], args)
    else if |format| < 2 then false
    else if format[1] == '%' then Matches(format[2..], args)
    else if format[1] == 's' then args != [] && args[0].Str? && Matches(format[2..], args[1..])
    else if format[1] == 'd' then args != [] && args[0].Int? && Matches(format[2..], args[1..])
    else false
  }

  /** Text with no `%` in it. */
  predicate Literal(text: string)
    decreases |text|
  {
    text == [] || (text[0] != '%' && Literal(text[1..]))
  }

  /** `fmt.Sprintf(format, args...)` for a format whose verbs match its arguments. */
  function Sprintf(format: string, args: seq<Arg>): (r: string)
    requires Matches(format, args)
    // a format without verbs or escapes is printed verbatim
    ensures Literal(format) ==> r == format
    decreases |format|
  {
    if format == [] then ""
    else if format[0] != '%' then [format[0]] + Sprintf(format[1..], args)
    else if format[1] == '%' then "%" + Sprintf(format[2..], args)
    else if format[1] == 's' then args[0].s + Sprintf(format[2..], args[1..])
    else Decimal.FormatInt(args[0].i) + Sprintf(format[2..], args[1..])
  }

  /** Text without a `%` is copied to the output unchanged and consumes no argument. */
  lemma {:induction false} LiteralPrefix(p: string, rest: string, args: seq<Arg>)
    requires '%' !in p
    ensures Matches(p + rest, args) == Matches(rest, args)
    ensures Matches(rest, args) ==> Sprintf(p + rest, args) == p + Sprintf(rest, args)
    decreases |p|
  {
    if p != [] {
      assert (p + rest)[0] == p[0] && (p + rest)[1..] == p[1..] + rest;
      LiteralPrefix(p[1..], rest, args);
    } else {
      assert p + rest == rest;
    }
  }

  /** A format that is literal text followed by one `%s` inserts the string verbatim. */
  lemma StringVerb(p: string, s: string)
    requires '%' !in p
    ensures Matches(p + "%s", [Str(s)])
    ensures Sprintf(p + "%s", [Str(s)]) == p + s
  {
    LiteralPrefix(p, "%s", [Str(s)]);
  }

  /** A format that is literal text followed by one `%d` appends the decimal rendering. */
  lemma IntVerb(p: string, i: int)
    requires '%' !in p
    ensures Matches(p + "%d", [Int(i)])
    ensures Sprintf(p + "%d", [Int(i)]) == p + Decimal.FormatInt(i)
  {
    LiteralPrefix(p, "%d", [Int(i)]);
  }
}
