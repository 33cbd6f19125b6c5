/** The two string utilities of Go's standard library that the core relies on. */
module Strings {

  /** strings.Join: the parts separated by `sep`. */
  function Join(parts: seq<string>, sep: string): string
  {
    if |parts| == 0 then ""
    else if |parts| == 1 then parts[0]
    else parts[0] + sep + Join(parts[1..], sep)
  }

  /**
   * fmt.Sprintf restricted to the `%s` verb, the only one cpm-cli uses:
   * each `%s` is replaced by the next argument, and a verb without an
   * argument prints Go's `%!s(MISSING)` marker. Surplus arguments, which Go
   * reports with `%!(EXTRA …)`, never occur here and are ignored.
   */
  function Format(t: string, args: seq<string>): string
  {
    if |t| == 0 then ""
    else if |t| >= 2 && t[0] == '%' && t[1] == 's' then
      (if |args| > 0 then args[0] + Format(t[2..], args[1..])
       else "%!s(MISSING)" + Format(t[2..], []))
    else [t[0]] + Format(t[1..], args)
  }

  /** Text without a `%` passes through Format unchanged. */
  lemma {:induction false} FormatLiteral(lit: string, rest: string, args: seq<string>)
    requires '%' !in lit
    ensures Format(lit + rest, args) == lit + Format(rest, args)
  {
    if |lit| > 0 {
      assert (lit + rest)[0] == lit[0];
      assert (lit + rest)[1..] == lit[1..] + rest;
      FormatLiteral(lit[1..], rest, args);
    } else {
      assert lit + rest == rest;
    }
  }

  /** One `%s` verb consumes exactly the next argument. */
  lemma FormatVerb(rest: string, arg: string, args: seq<string>)
    ensures Format("%s" + rest, [arg] + args) == arg + Format(rest, args)
  {
    var t := "%s" + rest;
    assert t[0] == '%' && t[1] == 's' && t[2..] == rest;
    assert ([arg] + args)[1..] == args;
  }

  /** A verb after a literal piece consumes the next argument. */
  lemma FormatVerbAfter(a: string, rest: string, x: string, args: seq<string>)
    requires '%' !in a
    ensures Format(a + "%s" + rest, [x] + args) == a + x + Format(rest, args)
  {
    assert a + "%s" + rest == a + ("%s" + rest);
    FormatVerb(rest, x, args);
    FormatLiteral(a, "%s" + rest, [x] + args);
  }

  /** A template with one verb between two literal pieces. */
  lemma FormatOne(a: string, b: string, x: string)
    requires '%' !in a && '%' !in b
    ensures Format(a + "%s" + b, [x]) == a + x + b
  {
    var t := "%s" + b;
    assert a + "%s" + b == a + t;
    FormatLiteral(b, "", []);
    assert b + "" == b;
    FormatVerb(b, x, []);
    assert [x] + [] == [x];
    FormatLiteral(a, t, [x]);
  }

  /**
   * Filling a template made of three literal pieces and two verbs yields the
   * pieces with the arguments in between, which is how both format strings of
   * the core are used.
   */
  lemma FormatTwo(a: string, b: string, c: string, x: string, y: string)
    requires '%' !in a && '%' !in b && '%' !in c
    ensures Format(a + "%s" + b + "%s" + c, [x, y]) == a + x + b + y + c
  {
    var r := b + "%s" + c;
    assert a + "%s" + b + "%s" + c == a + "%s" + r;
    assert [x, y] == [x] + [y];
    FormatVerbAfter(a, r, x, [y]);
    FormatOne(b, c, y);
  }

  /** The first part starts the joined string. */
  lemma {:induction false} JoinHead(parts: seq<string>, sep: string)
    requires |parts| >= 1
    ensures parts[0] <= Join(parts, sep)
  {
  }

  /** The last part ends the joined string. */
  lemma {:induction false} JoinTail(parts: seq<string>, sep: string)
    requires |parts| >= 1
    ensures var j := Join(parts, sep); var l := parts[|parts| - 1];
            |l| <= |j| && j[|j| - |l|..] == l
  {
    if |parts| > 1 {
      JoinTail(parts[1..], sep);
      assert parts[1..][|parts[1..]| - 1] == parts[|parts| - 1];
    }
  }

  /** Joining a concatenation puts one separator between the two joins. */
  lemma {:induction false} JoinConcat(a: seq<string>, b: seq<string>, sep: string)
    requires |a| >= 1 && |b| >= 1
    ensures Join(a + b, sep) == Join(a, sep) + sep + Join(b, sep)
  {
    if |a| == 1 {
      assert (a + b)[1..] == b;
    } else {
      assert (a + b)[1..] == a[1..] + b;
      JoinConcat(a[1..], b, sep);
    }
  }
}
