/**
 Span name templates (internal/policy/template.go).
 */
module Templates {
  import opened Strings

  const OPEN := "{{"
  const CLOSE := "}}"

  /** A template read from left to right: literal text, a variable name, literal text, and so on. */
  datatype Template = End(text: string) | More(text: string, name: string, tail: Template)

  datatype Error = UnterminatedVariable(at: string) | UnknownVariable(name: string)

  datatype Validation = Valid | Invalid(error: Error)

  datatype Rendering = Rendered(text: string) | Failed(error: Error)

  predicate SupportedVariable(name: string)
  {
    name in ["symbol", "package", "import_path", "function", "receiver", "method"]
  }

  // ---------------------------------------------------------------------------- the grammar

  /** `mark` starts no earlier in `text + mark` than behind `text`. */
  ghost predicate Precedes(text: string, mark: string)
  {
    forall k :: 0 <= k < |text| ==> !OccursAt(text + mark, mark, k)
  }

  /** The template begins with a literal and, between the first pair of marks, the text `raw`. */
  ghost predicate BeginsWith(tpl: string, literal: string, raw: string, rest: string)
  {
    && tpl == literal + OPEN + raw + CLOSE + rest
    && Precedes(literal, OPEN) && Precedes(OPEN + raw, CLOSE)
  }

  /**
   Literals without an opening mark alternate with supported variables, each of which ends at the
   first closing mark.
   */
  ghost predicate IsReading(tpl: string, reading: Template)
    decreases reading
  {
    match reading
    case End(text) =>
      text == tpl && forall k :: 0 <= k ==> !OccursAt(tpl, OPEN, k)
    case More(text, name, tail) =>
      && SupportedVariable(name)
      && exists raw, rest ::
           BeginsWith(tpl, text, raw, rest) && name == TrimSpace(raw) && IsReading(rest, tail)
  }

  // ------------------------------------------------------------------------- reading in order

  datatype Step = Last | Broken(error: Error) | Next(literal: string, name: string, rest: string)

  /** One round of either loop: the text up to the next variable, that variable, and what follows. */
  function ReadStep(tpl: string): (step: Step)
    ensures step.Next? ==> |step.rest| < |tpl|
  {
    var open := Index(tpl, OPEN);
    if open < 0 then
      Last
    else
      var closeRel := Index(tpl[open..], CLOSE);
      if closeRel < 0 then
        Broken(UnterminatedVariable(tpl[open..]))
      else
        CloseBehindOpen(tpl, open, closeRel);
        var name := TrimSpace(tpl[open + 2..open + closeRel]);
        if SupportedVariable(name) then Next(tpl[..open], name, tpl[open + closeRel + 2..])
        else Broken(UnknownVariable(name))
  }

  lemma CloseBehindOpen(tpl: string, open: nat, closeRel: nat)
    requires OccursAt(tpl, OPEN, open) && OccursAt(tpl[open..], CLOSE, closeRel)
    ensures 2 <= closeRel && open + closeRel + 2 <= |tpl|
  {
    assert tpl[open..open + 2][0] == '{' && tpl[open..open + 2][1] == '{';
    assert tpl[open..][closeRel..closeRel + 2][0] == '}';
  }

  datatype Reading = Readable(template: Template) | Unreadable(error: Error)

  function Read(tpl: string): Reading
    decreases |tpl|
  {
    match ReadStep(tpl)
    case Last => Readable(End(tpl))
    case Broken(error) => Unreadable(error)
    case Next(literal, name, rest) =>
      match Read(rest)
      case Unreadable(error) => Unreadable(error)
      case Readable(tail) => Readable(More(literal, name, tail))
  }

  lemma PartsOf(tpl: string, open: nat, closeRel: nat)
    requires 2 <= closeRel && open + closeRel + 2 <= |tpl|
    requires tpl[open..open + 2] == OPEN && tpl[open..][closeRel..closeRel + 2] == CLOSE
    ensures var raw := tpl[open + 2..open + closeRel];
            && tpl == tpl[..open] + OPEN + raw + CLOSE + tpl[open + closeRel + 2..]
            && tpl[open..][..closeRel] == OPEN + raw
  {
  }

  lemma StepIsReading(tpl: string) returns (raw: string)
    requires ReadStep(tpl).Next?
    ensures BeginsWith(tpl, ReadStep(tpl).literal, raw, ReadStep(tpl).rest)
    ensures ReadStep(tpl).name == TrimSpace(raw)
  {
    hide TrimSpace;
    var open := Index(tpl, OPEN);
    var closeRel := Index(tpl[open..], CLOSE);
    CloseBehindOpen(tpl, open, closeRel);
    PartsOf(tpl, open, closeRel);
    FirstOfIndex(tpl, OPEN);
    FirstOfIndex(tpl[open..], CLOSE);
    raw := tpl[open + 2..open + closeRel];
  }

  lemma Regroup(a: string, b: string, c: string, d: string, e: string)
    ensures a + b + c + d + e == a + b + (c + d + e)
  {
  }

  lemma BehindLiteral(literal: string, raw: string, rest: string)
    ensures var tpl := literal + OPEN + raw + CLOSE + rest;
            var tail := (OPEN + raw) + CLOSE + rest;
            && tpl[..|literal|] == literal && tpl[|literal|..] == tail
            && tpl[|literal| + 2..|literal| + |OPEN + raw|] == raw
            && tpl[|literal| + |OPEN + raw| + 2..] == rest
  {
  }

  lemma ReadingIsStep(tpl: string, literal: string, raw: string, rest: string)
    requires BeginsWith(tpl, literal, raw, rest) && SupportedVariable(TrimSpace(raw))
    ensures ReadStep(tpl) == Next(literal, TrimSpace(raw), rest)
  {
    Regroup(literal, OPEN, raw, CLOSE, rest);
    IndexOfFirst(literal, OPEN, raw + CLOSE + rest);
    IndexOfFirst(OPEN + raw, CLOSE, rest);
    BehindLiteral(literal, raw, rest);
  }

  lemma {:induction false} ReadIsReading(tpl: string)
    requires Read(tpl).Readable?
    ensures IsReading(tpl, Read(tpl).template)
    decreases |tpl|
  {
    if ReadStep(tpl).Next? {
      var raw := StepIsReading(tpl);
      ReadIsReading(ReadStep(tpl).rest);
    }
  }

  lemma {:induction false} ReadingIsRead(tpl: string, reading: Template)
    requires IsReading(tpl, reading)
    ensures Read(tpl) == Readable(reading)
    decreases reading
  {
    if reading.More? {
      var raw, rest :| BeginsWith(tpl, reading.text, raw, rest) && reading.name == TrimSpace(raw) &&
                       IsReading(rest, reading.tail);
      ReadingIsStep(tpl, reading.text, raw, rest);
      ReadingIsRead(rest, reading.tail);
    }
  }

  /** A template has at most one reading, and `Read` finds it whenever there is one. */
  lemma ReadFindsTheReading(tpl: string, reading: Template)
    ensures Read(tpl) == Readable(reading) <==> IsReading(tpl, reading)
  {
    if IsReading(tpl, reading) {
      ReadingIsRead(tpl, reading);
    }
    if Read(tpl) == Readable(reading) {
      ReadIsReading(tpl);
    }
  }

  lemma ReadingIsUnique(tpl: string, first: Template, second: Template)
    requires IsReading(tpl, first) && IsReading(tpl, second)
    ensures first == second
  {
    ReadFindsTheReading(tpl, first);
    ReadFindsTheReading(tpl, second);
  }

  // --------------------------------------------------------------------------------- the code

  function Value(name: string, vars: map<string, string>): string
  {
    if name in vars then vars[name] else ""
  }

  /** Each literal and each variable's value once, in order; substituted text is not read again. */
  function Substitute(template: Template, vars: map<string, string>): string
  {
    match template
    case End(text) => text
    case More(text, name, tail) => text + Value(name, vars) + Substitute(tail, vars)
  }

  method ValidateTemplate(template: string) returns (result: Validation)
    ensures result.Valid? <==> exists reading :: IsReading(template, reading)
    ensures result.Invalid? ==> Read(template) == Unreadable(result.error)
  {
    var tpl := template;
    while true
      invariant Read(tpl).Readable? <==> Read(template).Readable?
      invariant Read(tpl).Unreadable? ==> Read(template) == Read(tpl)
      decreases |tpl|
    {
      match ReadStep(tpl)
      case Last =>
        ReadFindsTheReading(template, Read(template).template);
        return Valid;
      case Broken(error) =>
        NoReading(template);
        return Invalid(error);
      case Next(_, _, rest) =>
        tpl := rest;
    }
  }

  lemma NoReading(tpl: string)
    requires Read(tpl).Unreadable?
    ensures !exists reading :: IsReading(tpl, reading)
  {
    forall reading
      ensures !IsReading(tpl, reading)
    {
      ReadFindsTheReading(tpl, reading);
    }
  }

  /** What rendering yields: the values of the template's only reading, or why there is none. */
  function RenderSpec(template: string, vars: map<string, string>): Rendering
  {
    match Read(template)
    case Readable(reading) => Rendered(Substitute(reading, vars))
    case Unreadable(error) => Failed(error)
  }

  lemma RenderReading(template: string, vars: map<string, string>, reading: Template)
    requires IsReading(template, reading)
    ensures RenderSpec(template, vars) == Rendered(Substitute(reading, vars))
  {
    ReadFindsTheReading(template, reading);
  }

  lemma Append(rendered: string, text: string, value: string, behind: string)
    ensures (rendered + text + value) + behind == rendered + (text + value + behind)
  {
  }

  method RenderTemplate(template: string, vars: map<string, string>) returns (result: Rendering)
    ensures result == RenderSpec(template, vars)
    ensures result.Rendered? <==> exists reading :: IsReading(template, reading)
  {
    var validation := ValidateTemplate(template);
    if validation.Invalid? {
      return Failed(validation.error);
    }
    if reading :| IsReading(template, reading) {
      RenderReading(template, vars, reading);
    }
    ghost var whole := Substitute(Read(template).template, vars);
    var rendered := "";
    var rest := template;
    while true
      invariant Read(rest).Readable? && whole == rendered + Substitute(Read(rest).template, vars)
      decreases |rest|
    {
      var step := ReadStep(rest);
      if step.Last? {
        rendered := rendered + rest;
        return Rendered(rendered);
      }
      Append(rendered, step.literal, Value(step.name, vars), Substitute(Read(step.rest).template, vars));
      rendered := rendered + step.literal;
      rendered := rendered + Value(step.name, vars);
      rest := step.rest;
    }
  }

  // ----------------------------------------------------------------------- what is rendered

  /** Text without an opening mark is rendered as it is. */
  lemma LiteralIsKept(text: string, vars: map<string, string>)
    requires forall i: nat :: !OccursAt(text, "{{", i)
    ensures RenderSpec(text, vars) == Rendered(text)
  {
    hide Read;
    assert IsReading(text, End(text));
    RenderReading(text, vars, End(text));
  }

  /**
   A variable between double braces, spaces around it or not, is rendered as its value, between the
   text before it and whatever the rest is rendered as.
   */
  lemma VariableIsReplaced(text: string, raw: string, rest: string, vars: map<string, string>)
    requires forall i :: 0 <= i < |text| ==> text[i] != '{'
    requires TrimSpace(raw) in ["symbol", "package", "import_path", "function", "receiver", "method"]
    requires '}' !in raw && TrimSpace(raw) in vars
    ensures var behind := RenderSpec(rest, vars);
            RenderSpec(text + "{{" + raw + "}}" + rest, vars) ==
            if behind.Rendered? then Rendered(text + vars[TrimSpace(raw)] + behind.text) else behind
  {
    hide TrimSpace, Read;
    MarkIsFirst(text, raw, rest);
    ReadingIsStep(text + "{{" + raw + "}}" + rest, text, raw, rest);
    ReadOnce(text + "{{" + raw + "}}" + rest);
  }

  lemma ReadOnce(tpl: string)
    ensures ReadStep(tpl).Next? ==>
              var tail := Read(ReadStep(tpl).rest);
              Read(tpl) ==
              if tail.Unreadable? then tail
              else Readable(More(ReadStep(tpl).literal, ReadStep(tpl).name, tail.template))
  {
    hide ReadStep;
  }

  lemma StartsWithMark(s: string, mark: string, k: nat)
    requires |mark| > 0
    ensures OccursAt(s, mark, k) ==> k < |s| && s[k] == mark[0]
  {
    if OccursAt(s, mark, k) {
      assert s[k..k + |mark|][0] == s[k];
    }
  }

  lemma MarkIsFirst(text: string, raw: string, rest: string)
    requires forall i :: 0 <= i < |text| ==> text[i] != '{'
    requires '}' !in raw
    ensures BeginsWith(text + "{{" + raw + "}}" + rest, text, raw, rest)
  {
    forall k | 0 <= k < |text|
      ensures !OccursAt(text + OPEN, OPEN, k)
    {
      assert (text + OPEN)[k] == text[k];
      StartsWithMark(text + OPEN, OPEN, k);
    }
    var marked := OPEN + raw;
    forall k | 0 <= k < |marked|
      ensures !OccursAt(marked + CLOSE, CLOSE, k)
    {
      assert (marked + CLOSE)[k] == marked[k] && marked[k] != '}';
      StartsWithMark(marked + CLOSE, CLOSE, k);
    }
  }

  /** Any other name fails, and so does a variable that is never closed. */
  lemma OthersFail(text: string, raw: string, rest: string, vars: map<string, string>)
    requires forall i :: 0 <= i < |text| ==> text[i] != '{'
    requires '}' !in raw
    ensures TrimSpace(raw) !in ["symbol", "package", "import_path", "function", "receiver", "method"] ==>
              RenderSpec(text + "{{" + raw + "}}" + rest, vars) == Failed(UnknownVariable(TrimSpace(raw)))
    ensures RenderSpec(text + "{{" + raw, vars) == Failed(UnterminatedVariable("{{" + raw))
  {
    hide TrimSpace;
    MarkIsFirst(text, raw, rest);
    Regroup(text, OPEN, raw, CLOSE, rest);
    IndexOfFirst(text, OPEN, raw + CLOSE + rest);
    IndexOfFirst(OPEN + raw, CLOSE, rest);
    BehindLiteral(text, raw, rest);
    NeverClosed(text, raw);
  }

  lemma NeverClosed(text: string, raw: string)
    requires Precedes(text, OPEN) && '}' !in raw
    ensures ReadStep(text + "{{" + raw) == Broken(UnterminatedVariable("{{" + raw))
  {
    var tpl := text + "{{" + raw;
    IndexOfFirst(text, OPEN, raw);
    assert tpl == text + OPEN + raw && tpl[|text|..] == OPEN + raw;
    forall k: nat
      ensures !OccursAt(OPEN + raw, CLOSE, k)
    {
      assert k < |OPEN + raw| ==> (OPEN + raw)[k] != '}';
      StartsWithMark(OPEN + raw, CLOSE, k);
    }
  }
}
