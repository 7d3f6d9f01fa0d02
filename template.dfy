/** Command templater: expands the user's process command for one segment.
    `%p` stands for the full path of the segment, `%f` for its file name and
    `%%` for a percent sign; every other character is copied. A `%` followed by
    anything else, or a `%` at the very end, is an error. */
module Template {

  datatype Option<T> = None | Some(value: T)

  datatype FormatError =
    | UnrecognizedVerb(verb: char)
    | UnterminatedVerb

  /** What expanding a template yields: the command, or the first error met
      scanning left to right. */
  datatype Expansion = Expanded(command: string) | Failed(error: FormatError)

  /** `prefix` in front of an expansion that succeeded; errors pass through. */
  function Prepend(prefix: string, e: Expansion): Expansion
  {
    match e
    case Expanded(c) => Expanded(prefix + c)
    case Failed(err) => e
  }

  /** Reference meaning of a template, verb by verb from the left. */
  function Expand(format: string, fullPath: string, filename: string): Expansion
    decreases |format|
  {
    if format == [] then Expanded("")
    else if format[0] != '%' then Prepend([format[0]], Expand(format[1..], fullPath, filename))
    else if |format| == 1 then Failed(UnterminatedVerb)
    else
      var verb, rest := format[1], Expand(format[2..], fullPath, filename);
      if verb == '%' then Prepend("%", rest)
      else if verb == 'p' then Prepend(fullPath, rest)
      else if verb == 'f' then Prepend(filename, rest)
      else Failed(UnrecognizedVerb(verb))
  }

  /** The error text the program reports. An unrecognized verb is named,
      quoted, at a fixed position; the unterminated case quotes nothing. */
  function ErrorMessage(e: FormatError): (msg: string)
    ensures e.UnrecognizedVerb? ==> |msg| == 28 && msg[25] == '\'' && msg[26] == e.verb && msg[27] == '\''
    ensures e.UnterminatedVerb? ==> '\'' !in msg
  {
    match e
    case UnrecognizedVerb(c) => "unrecognized format verb '" + [c] + "'"
    case UnterminatedVerb => "unterminated format verb"
  }

  /** Different errors give different messages, so the message identifies the error. */
  lemma ErrorMessageInjective(e1: FormatError, e2: FormatError)
    requires ErrorMessage(e1) == ErrorMessage(e2)
    ensures e1 == e2
  {
    var m := ErrorMessage(e1);
    assert e1.UnrecognizedVerb? || e2.UnrecognizedVerb? ==> m[25] in m;
  }

  /** Scans the template once, with a flag recording that the previous
      character was an unconsumed `%`. On error the command is empty. */
  method ReplaceFormatVerbs(format: string, fullPath: string, filename: string)
    returns (result: string, err: Option<FormatError>)
    ensures err.None? <==> Expand(format, fullPath, filename).Expanded?
    ensures err.None? ==> result == Expand(format, fullPath, filename).command
    ensures err.Some? ==> result == "" && err.value == Expand(format, fullPath, filename).error
  {
    result := "";
    var percent := false;
    var i := 0;
    while i < |format|
      invariant 0 <= i <= |format|
      invariant !percent ==> Expand(format, fullPath, filename) == Prepend(result, Expand(format[i..], fullPath, filename))
      invariant percent ==>
                  0 < i && format[i - 1] == '%' &&
                  Expand(format, fullPath, filename) == Prepend(result, Expand(format[i - 1..], fullPath, filename))
    {
      var r := format[i];
      if !percent {
        if r == '%' {
          percent := true;
        } else {
          PrependTwice(result, [r], Expand(format[i + 1..], fullPath, filename));
          assert format[i..][1..] == format[i + 1..];
          result := result + [r];
        }
        i := i + 1;
        continue;
      }
      percent := false;
      assert format[i - 1..][1] == r && format[i - 1..][2..] == format[i + 1..];
      var rest := Expand(format[i + 1..], fullPath, filename);
      if r == '%' {
        PrependTwice(result, [r], rest);
        result := result + [r];
      } else if r == 'p' {
        PrependTwice(result, fullPath, rest);
        result := result + fullPath;
      } else if r == 'f' {
        PrependTwice(result, filename, rest);
        result := result + filename;
      } else {
        return "", Some(UnrecognizedVerb(r));
      }
      i := i + 1;
    }
    if percent {
      assert format[i - 1..] == "%";
      return "", Some(UnterminatedVerb);
    }
    assert format[i..] == [];
    return result, None;
  }

  lemma PrependTwice(a: string, b: string, e: Expansion)
    ensures Prepend(a, Prepend(b, e)) == Prepend(a + b, e)
  {
    if e.Expanded? {
      assert a + (b + e.command) == (a + b) + e.command;
    }
  }

  /** A template without `%` is the command itself. */
  lemma {:induction false} ExpandLiteral(format: string, fullPath: string, filename: string)
    requires '%' !in format
    ensures Expand(format, fullPath, filename) == Expanded(format)
    decreases |format|
  {
    if format != [] {
      ExpandLiteral(format[1..], fullPath, filename);
      assert [format[0]] + format[1..] == format;
    }
  }

  /** Whether a template expands, and which error it reports, depends on the
      template alone: the segment's path and name play no part. */
  lemma {:induction false} ExpandOutcomeIndependent(format: string, p1: string, f1: string, p2: string, f2: string)
    ensures Expand(format, p1, f1).Expanded? == Expand(format, p2, f2).Expanded?
    ensures Expand(format, p1, f1).Failed? ==> Expand(format, p1, f1).error == Expand(format, p2, f2).error
    decreases |format|
  {
    if format != [] {
      if format[0] != '%' {
        ExpandOutcomeIndependent(format[1..], p1, f1, p2, f2);
      } else if |format| > 1 {
        ExpandOutcomeIndependent(format[2..], p1, f1, p2, f2);
      }
    }
  }

  /** Expansion distributes over concatenation once the left part expands on
      its own (it then ends outside any verb). */
  lemma {:induction false} ExpandConcat(t: string, u: string, fullPath: string, filename: string)
    requires Expand(t, fullPath, filename).Expanded?
    ensures Expand(t + u, fullPath, filename)
         == Prepend(Expand(t, fullPath, filename).command, Expand(u, fullPath, filename))
    decreases |t|
  {
    if t == [] {
      assert t + u == u;
      if Expand(u, fullPath, filename).Expanded? {
        assert "" + Expand(u, fullPath, filename).command == Expand(u, fullPath, filename).command;
      }
    } else if t[0] != '%' {
      assert (t + u)[1..] == t[1..] + u;
      ExpandConcat(t[1..], u, fullPath, filename);
      PrependTwice([t[0]], Expand(t[1..], fullPath, filename).command, Expand(u, fullPath, filename));
    } else {
      assert (t + u)[1] == t[1] && (t + u)[2..] == t[2..] + u;
      ExpandConcat(t[2..], u, fullPath, filename);
      var v := Expand(t[2..], fullPath, filename).command;
      PrependTwice(if t[1] == '%' then "%" else if t[1] == 'p' then fullPath else filename, v, Expand(u, fullPath, filename));
    }
  }

  /** A template that would otherwise expand fails with "unterminated" when a
      lone `%` is appended. */
  lemma DanglingPercent(t: string, fullPath: string, filename: string)
    requires Expand(t, fullPath, filename).Expanded?
    ensures Expand(t + "%", fullPath, filename) == Failed(UnterminatedVerb)
  {
    ExpandConcat(t, "%", fullPath, filename);
  }

  /** A `%` followed by anything but `%`, `p` or `f` fails with that character,
      whatever follows. */
  lemma UnknownVerb(t: string, c: char, u: string, fullPath: string, filename: string)
    requires Expand(t, fullPath, filename).Expanded?
    requires c != '%' && c != 'p' && c != 'f'
    ensures Expand(t + ['%', c] + u, fullPath, filename) == Failed(UnrecognizedVerb(c))
  {
    assert t + ['%', c] + u == t + (['%', c] + u);
    ExpandConcat(t, ['%', c] + u, fullPath, filename);
  }

  /** Doubles every `%`: the template that stands for the literal command `s`. */
  function Escape(s: string): string
  {
    if s == [] then [] else (if s[0] == '%' then "%%" else [s[0]]) + Escape(s[1..])
  }

  /** `%%` is the way to write a literal percent: expanding the escaped form of
      any string gives that string back. */
  lemma {:induction false} EscapeRoundTrip(s: string, fullPath: string, filename: string)
    ensures Expand(Escape(s), fullPath, filename) == Expanded(s)
    decreases |s|
  {
    if s != [] {
      var rest := Escape(s[1..]);
      EscapeRoundTrip(s[1..], fullPath, filename);
      if s[0] == '%' {
        var e := "%%" + rest;
        assert e[0] == '%' && e[1] == '%' && e[2..] == rest;
        assert Expand(e, fullPath, filename) == Prepend("%", Expanded(s[1..]));
      } else {
        var e := [s[0]] + rest;
        assert e[0] == s[0] && e[1..] == rest;
        assert Expand(e, fullPath, filename) == Prepend([s[0]], Expanded(s[1..]));
      }
      assert [s[0]] + s[1..] == s;
    }
  }

  /** The unit tests' successful cases, with "<path>" and "<filename>" as the segment. */
  lemma SingleVerbExamples()
    ensures Expand("%%", "<path>", "<filename>") == Expanded("%")
    ensures Expand("%p", "<path>", "<filename>") == Expanded("<path>")
    ensures Expand("%f", "<path>", "<filename>") == Expanded("<filename>")
  {
  }

  /** The unit test's mixed template, for any path and file name. */
  lemma MixedTemplateExample(p: string, f: string)
    ensures Expand("%%%p/%f%%", p, f) == Expanded("%" + p + "/" + f + "%")
  {
    var t := "%%%p/%f%%";
    assert t[4..] == "/%f%%" && t[5..][2..] == "%%" && t[7..][2..] == [];
  }

  /** The unit tests' failing cases and the messages they expect. */
  lemma ErrorExamples()
    ensures Expand("%x", "<path>", "<filename>") == Failed(UnrecognizedVerb('x'))
    ensures ErrorMessage(UnrecognizedVerb('x')) == "unrecognized format verb 'x'"
    ensures Expand("foo %", "<path>", "<filename>") == Failed(UnterminatedVerb)
    ensures ErrorMessage(UnterminatedVerb) == "unterminated format verb"
  {
    var p, f := "<path>", "<filename>";
    ExpandLiteral("foo ", p, f);
    DanglingPercent("foo ", p, f);
    assert "foo " + "%" == "foo %";
  }
}
