/**
 * The part of Python's `str.format` (and of f-strings, which share its
 * brace syntax) that the script's templates use: `{{` and `}}` stand for
 * one brace, `{}` takes the next positional argument.
 */
module PyFormat {
  import opened Wrappers

  /** Puts `p` in front of a successful result; an exception passes through. */
  function Prepend(p: string, r: Result<string>): Result<string> {
    match r
    case Ok(v) => Ok(p + v)
    case Raise(e) => Raise(e)
  }

  lemma PrependTwice(p: string, q: string, r: Result<string>)
    ensures Prepend(p, Prepend(q, r)) == Prepend(p + q, r)
  {
    if r.Ok? {
      assert p + (q + r.value) == p + q + r.value;
    }
  }

  lemma PrependNothing(r: Result<string>)
    ensures Prepend([], r) == r
  {
    if r.Ok? {
      assert [] + r.value == r.value;
    }
  }

  /**
   * `template.format(*args)` for templates whose only replacement fields are
   * `{}`. A lone brace raises ValueError; a `{}` with no argument left raises
   * IndexError; surplus arguments are ignored, as in Python.
   */
  function Format(template: string, args: seq<string>): Result<string>
    decreases |template|
  {
    if template == [] then Ok([])
    else if |template| >= 2 && template[0] == '{' && template[1] == '{' then
      Prepend("{", Format(template[2..], args))
    else if |template| >= 2 && template[0] == '}' && template[1] == '}' then
      Prepend("}", Format(template[2..], args))
    else if |template| >= 2 && template[0] == '{' && template[1] == '}' then
      if args == [] then Raise(IndexError) else Prepend(args[0], Format(template[2..], args[1..]))
    else if template[0] == '{' || template[0] == '}' then Raise(ValueError)
    else Prepend([template[0]], Format(template[1..], args))
  }

  /** The template text that formats to `s` itself: every brace doubled. */
  function Escape(s: string): (t: string)
    ensures |t| >= |s|
  {
    if s == [] then []
    else (if s[0] == '{' || s[0] == '}' then [s[0], s[0]] else [s[0]]) + Escape(s[1..])
  }

  /** No brace occurs in `s`. */
  predicate BraceFree(s: string) {
    forall i :: 0 <= i < |s| ==> s[i] != '{' && s[i] != '}'
  }

  lemma {:induction false} EscapeAppend(a: string, b: string)
    ensures Escape(a + b) == Escape(a) + Escape(b)
    decreases |a|
  {
    if a == [] {
      assert a + b == b;
    } else {
      assert (a + b)[1..] == a[1..] + b;
      EscapeAppend(a[1..], b);
    }
  }

  /** Text without braces is its own escape. */
  lemma {:induction false} EscapeBraceFree(s: string)
    requires BraceFree(s)
    ensures Escape(s) == s
    decreases |s|
  {
    if s != [] {
      EscapeBraceFree(s[1..]);
      assert s == [s[0]] + s[1..];
    }
  }

  /** Escaped text in a template comes out as the text itself. */
  lemma {:induction false} FormatEscaped(a: string, rest: string, args: seq<string>)
    ensures Format(Escape(a) + rest, args) == Prepend(a, Format(rest, args))
    decreases |a|
  {
    if a != [] {
      var head := if a[0] == '{' || a[0] == '}' then [a[0], a[0]] else [a[0]];
      var t := Escape(a) + rest;
      assert t == head + (Escape(a[1..]) + rest);
      FormatEscaped(a[1..], rest, args);
      if a[0] == '{' || a[0] == '}' {
        assert t[2..] == Escape(a[1..]) + rest;
      } else {
        assert t[1..] == Escape(a[1..]) + rest;
      }
      PrependTwice([a[0]], a[1..], Format(rest, args));
      assert a == [a[0]] + a[1..];
    } else {
      assert Escape(a) + rest == rest;
      PrependNothing(Format(rest, args));
    }
  }

  /** A template with one field, between the escaped texts `before` and `after`. */
  function OneField(before: string, after: string): string {
    Escape(before) + "{}" + Escape(after)
  }

  /** A template with two fields. */
  function TwoFields(before: string, middle: string, after: string): string {
    Escape(before) + "{}" + Escape(middle) + "{}" + Escape(after)
  }

  /** A leading `{}` takes the first argument. */
  lemma FormatFieldFirst(rest: string, x: string, more: seq<string>)
    ensures Format("{}" + rest, [x] + more) == Prepend(x, Format(rest, more))
  {
    var t := "{}" + rest;
    assert t[0] == '{' && t[1] == '}' && t[2..] == rest;
    assert ([x] + more)[1..] == more;
  }

  /** Formatting a one-field template puts the argument between the texts. */
  lemma FormatOneField(before: string, after: string, x: string)
    ensures Format(OneField(before, after), [x]) == Ok(before + x + after)
  {
    var tail := "{}" + Escape(after);
    assert OneField(before, after) == Escape(before) + tail;
    FormatEscaped(before, tail, [x]);
    FormatFieldFirst(Escape(after), x, []);
    assert [x] + [] == [x];
    FormatEscaped(after, [], []);
    assert Escape(after) + [] == Escape(after);
    assert after + [] == after;
    PrependTwice(before, x, Ok(after));
  }

  /** Formatting a two-field template puts the arguments between the texts, in order. */
  lemma FormatTwoFields(before: string, middle: string, after: string, x: string, y: string)
    ensures Format(TwoFields(before, middle, after), [x, y]) == Ok(before + x + middle + y + after)
  {
    var tail := "{}" + OneField(middle, after);
    calc {
      Format(TwoFields(before, middle, after), [x, y]);
      { assert TwoFields(before, middle, after) == Escape(before) + tail; }
      Format(Escape(before) + tail, [x, y]);
      { FormatEscaped(before, tail, [x, y]); }
      Prepend(before, Format(tail, [x, y]));
      { FormatFieldFirst(OneField(middle, after), x, [y]); assert [x] + [y] == [x, y]; }
      Prepend(before, Prepend(x, Format(OneField(middle, after), [y])));
      { FormatOneField(middle, after, y); }
      Prepend(before, Prepend(x, Ok(middle + y + after)));
      { assert before + (x + (middle + y + after)) == before + x + middle + y + after; }
      Ok(before + x + middle + y + after);
    }
  }
}
