/**
 * The command registry (`nombres_comandos` / `func_comandos`), the
 * dispatcher `ejecutar`, and the iterations of the read-eval loop
 * `loop_shell`: record the line in the history, split it into arguments,
 * dispatch.
 */
module Shell {
  import opened Wrappers
  import Text
  import History

  /** The handlers of the registry, one constructor per `cmd_*` function. */
  datatype Command =
    | Listar | Leer | Tiempo | Calc | Ayuda | Salir
    | Historial | Limpiar | Buscar | Estadisticas

  /** `nombres_comandos`: the registered command names, in lookup order. */
  const Names: seq<string> :=
    ["listar", "leer", "tiempo", "calc", "ayuda", "salir",
     "historial", "limpiar", "buscar", "estadisticas"]

  /** `func_comandos`: the handler registered under `Names[i]` is `Handlers[i]`. */
  const Handlers: seq<Command> :=
    [Listar, Leer, Tiempo, Calc, Ayuda, Salir,
     Historial, Limpiar, Buscar, Estadisticas]

  /** `num_comandos()`: the size of the name table, which the handler table shares. */
  function NumComandos(): (n: nat)
    ensures n == |Names| && n == |Handlers| && n == 10
  {
    |Names|
  }

  /** No name is registered twice, and no handler either. */
  lemma RegistryDistinct()
    ensures forall i, j :: 0 <= i < j < |Names| ==> Names[i] != Names[j]
    ensures forall i, j :: 0 <= i < j < |Handlers| ==> Handlers[i] != Handlers[j]
  {
  }

  /** Linear scan of the names from index `i` for an exact match. */
  function FindFrom(name: string, i: nat): (r: Option<nat>)
    requires i <= |Names|
    ensures r.Some? ==> i <= r.value < |Names| && Names[r.value] == name
    ensures r.Some? ==> forall j :: i <= j < r.value ==> Names[j] != name
    ensures r.None? ==> forall j :: i <= j < |Names| ==> Names[j] != name
    decreases |Names| - i
  {
    if i == |Names| then None
    else if Names[i] == name then Some(i)
    else FindFrom(name, i + 1)
  }

  /** First-match, case-sensitive, exact lookup of `name` in the registry. */
  function Lookup(name: string): (r: Option<nat>)
    ensures r.Some? ==> r.value < |Names| && Names[r.value] == name
    ensures r.Some? ==> forall j :: 0 <= j < r.value ==> Names[j] != name
    ensures r.None? <==> name !in Names
  {
    FindFrom(name, 0)
  }

  /** As the names are distinct, the first match is the only match. */
  lemma LookupUnique(name: string, k: nat)
    ensures Lookup(name) == Some(k) <==> k < |Names| && Names[k] == name
  {
    RegistryDistinct();
  }

  /** What one call of `ejecutar` does. */
  datatype Outcome =
    | NoCommand                                        // args[0] == NULL: nothing at all
    | Invoked(handler: Command, args: seq<string>)     // one handler ran, once, with these args
    | Unknown(token: string)                           // no handler ran; UnknownDiagnostic(token) was printed

  /** The text printed for a command name that is not registered. */
  function UnknownDiagnostic(token: string): (msg: string)
    ensures Text.Occurs(token, msg)
  {
    var msg := "Comando desconocido: " + token + "\nEscribe 'ayuda' para ver los comandos.\n";
    assert msg[21..21 + |token|] == token;
    assert Text.OccursAt(token, msg, 21);
    Text.OccursIff(token, msg);
    msg
  }

  /** The effect of `ejecutar(args)`, where `args` is the argument list
      without its NULL terminator. */
  function DispatchOf(args: seq<string>): (o: Outcome)
    ensures o.NoCommand? <==> args == []
    ensures o.Invoked? ==> o.args == args
    ensures o.Invoked? ==> exists k :: 0 <= k < |Names| && Names[k] == args[0] && Handlers[k] == o.handler
    ensures o.Unknown? <==> args != [] && args[0] !in Names
    ensures o.Unknown? ==> o.token == args[0]
  {
    if args == [] then NoCommand
    else
      match Lookup(args[0])
      case Some(k) => Invoked(Handlers[k], args)
      case None => Unknown(args[0])
  }

  /** Whatever its position in the registry, a registered name runs its own
      handler, with the full argument list. */
  lemma DispatchRegistered(k: nat, rest: seq<string>)
    requires k < |Names|
    ensures DispatchOf([Names[k]] + rest) == Invoked(Handlers[k], [Names[k]] + rest)
  {
    LookupUnique(Names[k], k);
  }

  /** `ejecutar(args)`: the scan of the registry with an early return. */
  method Ejecutar(args: seq<string>) returns (o: Outcome)
    ensures o == DispatchOf(args)
  {
    if args == [] {
      return NoCommand;
    }
    var i := 0;
    while i < NumComandos()
      invariant 0 <= i <= |Names|
      invariant forall j :: 0 <= j < i ==> Names[j] != args[0]
    {
      if args[0] == Names[i] {
        return Invoked(Handlers[i], args);
      }
      i := i + 1;
    }
    return Unknown(args[0]);
  }

  /** The separators assumed for `parsear_linea`: space, tab, CR, LF and BEL. */
  predicate IsTokenDelimiter(c: char)
  {
    c == ' ' || c == '\t' || c == '\r' || c == '\n' || c == '\U{7}'
  }

  /** `parsear_linea(linea)`: the line's maximal runs of non-separators. */
  function Parse(line: Option<string>): (args: seq<string>)
    ensures line.None? ==> args == []
    ensures forall a :: a in args ==> a != [] && Text.NoDelim(a, IsTokenDelimiter)
  {
    if line.None? then []
    else
      Text.Fields(line.value, IsTokenDelimiter)
  }

  /** Splitting keeps every character that is not a separator, in order. */
  lemma ParseKeepsText(line: string)
    ensures Text.Concat(Parse(Some(line))) == Text.NonDelims(line, IsTokenDelimiter)
  {
    Text.FieldsJoin(line, IsTokenDelimiter);
  }

  /** The history and the dispatch outcome after one iteration. */
  datatype StepResult = StepResult(log: seq<string>, outcome: Outcome)

  /** One iteration of `loop_shell` on the line `line` read by `leer_linea`
      (None for NULL); `copyFails` is the outcome of the history's `strdup`. */
  function Step(log: seq<string>, cap: nat, line: Option<string>, copyFails: bool): (r: StepResult)
    requires 0 < cap && |log| <= cap
    ensures |r.log| <= cap
  {
    var recorded := if line.Some? && |line.value| > 0 then History.Add(log, cap, line, copyFails) else log;
    StepResult(recorded, DispatchOf(Parse(line)))
  }

  /** The only change an iteration makes to the history is the one
      `add_to_history` call: the loop's own non-empty test adds nothing to the
      early return of `add_to_history`, and what the command turns out to be
      plays no part. The dispatch, for its part, sees the parsed line whatever
      the history did. */
  lemma StepOnlyAddsLine(log: seq<string>, cap: nat, line: Option<string>, copyFails: bool)
    requires 0 < cap && |log| <= cap
    ensures Step(log, cap, line, copyFails).log == History.Add(log, cap, line, copyFails)
    ensures Step(log, cap, line, copyFails).outcome == DispatchOf(Parse(line))
  {
  }

  /** The line is recorded before it is parsed: a line of separators only is
      stored although it dispatches to nothing. */
  lemma StepRecordsBlankLine(log: seq<string>, cap: nat, line: string)
    requires 0 < cap && |log| <= cap
    requires line != [] && forall i :: 0 <= i < |line| ==> IsTokenDelimiter(line[i])
    requires log == [] || log[|log| - 1] != line
    ensures var r := Step(log, cap, Some(line), false);
      r.outcome == NoCommand && r.log != [] && r.log[|r.log| - 1] == line
  {
    Text.FieldsEmptyIff(line, IsTokenDelimiter);
  }

  /** An unregistered command is recorded all the same, and reported. */
  lemma StepRecordsUnknownCommand(log: seq<string>, cap: nat, line: string)
    requires 0 < cap && |log| <= cap
    requires line != [] && Text.NoDelim(line, IsTokenDelimiter) && line !in Names
    requires log == [] || log[|log| - 1] != line
    ensures var r := Step(log, cap, Some(line), false);
      r.outcome == Unknown(line) && r.log != [] && r.log[|r.log| - 1] == line
  {
    Text.SingleField(line, IsTokenDelimiter);
  }

  /** One line entered at the prompt, with the outcome of the history's `strdup`. */
  datatype Input = Input(line: Option<string>, copyFails: bool)

  /** The history and the outcomes of a run of iterations. */
  datatype RunResult = RunResult(log: seq<string>, outcomes: seq<Outcome>)

  /** The outcome ends the process: `salir` calls `exit(0)`. */
  predicate Exits(o: Outcome)
  {
    o.Invoked? && o.handler == Salir
  }

  /** Iterations of `loop_shell` over `inputs`, until `salir` ends the process
      or the inputs run out. */
  function Run(log: seq<string>, cap: nat, inputs: seq<Input>): (r: RunResult)
    requires 0 < cap && |log| <= cap
    ensures |r.log| <= cap && |r.outcomes| <= |inputs|
    ensures forall k :: 0 <= k < |r.outcomes| - 1 ==> !Exits(r.outcomes[k])
    ensures |r.outcomes| < |inputs| ==> r.outcomes != [] && Exits(r.outcomes[|r.outcomes| - 1])
    decreases |inputs|
  {
    if inputs == [] then RunResult(log, [])
    else
      var s := Step(log, cap, inputs[0].line, inputs[0].copyFails);
      if Exits(s.outcome) then RunResult(s.log, [s.outcome])
      else
        var rest := Run(s.log, cap, inputs[1..]);
        RunResult(rest.log, [s.outcome] + rest.outcomes)
  }

  /** Outcome `k` of a run is the dispatch of input `k`: each line read is
      parsed and dispatched exactly once, in the order entered. */
  lemma {:induction false} RunDispatchesEachInput(log: seq<string>, cap: nat, inputs: seq<Input>)
    requires 0 < cap && |log| <= cap
    ensures var r := Run(log, cap, inputs);
      forall k :: 0 <= k < |r.outcomes| ==> r.outcomes[k] == DispatchOf(Parse(inputs[k].line))
    decreases |inputs|
  {
    if inputs != [] {
      var s := Step(log, cap, inputs[0].line, inputs[0].copyFails);
      if !Exits(s.outcome) {
        RunDispatchesEachInput(s.log, cap, inputs[1..]);
        var rest := Run(s.log, cap, inputs[1..]);
        forall k | 0 < k < |rest.outcomes| + 1
          ensures ([s.outcome] + rest.outcomes)[k] == DispatchOf(Parse(inputs[k].line))
        {
          assert inputs[1..][k - 1] == inputs[k];
        }
      }
    }
  }

  /** A line that is one word is recorded and dispatched as that word alone. */
  lemma StepOneWord(log: seq<string>, cap: nat, w: string)
    requires 0 < cap && |log| <= cap && w != [] && Text.NoDelim(w, IsTokenDelimiter)
    ensures Step(log, cap, Some(w), false) == StepResult(History.Add(log, cap, Some(w), false), DispatchOf([w]))
  {
    Text.SingleField(w, IsTokenDelimiter);
  }

  lemma AyudaIsRegistered()
    ensures Text.NoDelim("ayuda", IsTokenDelimiter)
    ensures DispatchOf(["ayuda"]) == Invoked(Ayuda, ["ayuda"])
  {
    DispatchRegistered(4, []);
  }

  lemma FooIsNotRegistered()
    ensures Text.NoDelim("foo", IsTokenDelimiter)
    ensures DispatchOf(["foo"]) == Unknown("foo")
  {
    assert "foo" !in Names;
  }

  /** `salir` ends the session: nothing entered after it is read, recorded
      or run. */
  lemma SalirEndsRun(log: seq<string>, cap: nat, rest: seq<Input>)
    requires 0 < cap && |log| <= cap
    ensures Run(log, cap, [Input(Some("salir"), false)] + rest)
      == RunResult(History.Add(log, cap, Some("salir"), false), [Invoked(Salir, ["salir"])])
  {
    assert Text.NoDelim("salir", IsTokenDelimiter);
    DispatchRegistered(5, []);
    StepOneWord(log, cap, "salir");
    RunFirst(log, cap, Input(Some("salir"), false), rest);
  }

  /** A dispatch ends the process exactly when the first argument is `salir`. */
  lemma ExitsIffSalir(args: seq<string>)
    ensures Exits(DispatchOf(args)) <==> args != [] && args[0] == "salir"
  {
    if args != [] {
      LookupUnique(args[0], 5);
      RegistryDistinct();
      match Lookup(args[0])
      case Some(k) =>
        assert Handlers[k] == Salir <==> k == 5;
      case None =>
    }
  }

  /** The line is recorded before it is dispatched, so `historial` always
      finds its own line as the newest entry of the log it lists. */
  lemma HistorialListsItself(log: seq<string>, cap: nat)
    requires 0 < cap && |log| <= cap
    ensures var r := Step(log, cap, Some("historial"), false);
      && r.outcome == Invoked(Historial, ["historial"])
      && r.log != [] && r.log[|r.log| - 1] == "historial"
  {
    assert Text.NoDelim("historial", IsTokenDelimiter);
    DispatchRegistered(6, []);
    StepOneWord(log, cap, "historial");
    History.AddNewestIsCommand(log, cap, "historial");
  }

  /** A run of iterations is its first iteration followed by the rest,
      unless the first one exits. */
  lemma RunFirst(log: seq<string>, cap: nat, input: Input, rest: seq<Input>)
    requires 0 < cap && |log| <= cap
    ensures var s := Step(log, cap, input.line, input.copyFails);
      Run(log, cap, [input] + rest)
        == if Exits(s.outcome) then RunResult(s.log, [s.outcome])
           else RunResult(Run(s.log, cap, rest).log, [s.outcome] + Run(s.log, cap, rest).outcomes)
  {
    assert ([input] + rest)[1..] == rest;
  }

  /** Three lines in which none exits run as their three steps in turn. */
  lemma RunThree(log: seq<string>, cap: nat, a: Input, b: Input, c: Input)
    requires 0 < cap && |log| <= cap
    requires !Exits(Step(log, cap, a.line, a.copyFails).outcome)
    requires !Exits(Step(Step(log, cap, a.line, a.copyFails).log, cap, b.line, b.copyFails).outcome)
    ensures var s1 := Step(log, cap, a.line, a.copyFails);
      var s2 := Step(s1.log, cap, b.line, b.copyFails);
      var s3 := Step(s2.log, cap, c.line, c.copyFails);
      Run(log, cap, [a, b, c]) == RunResult(s3.log, [s1.outcome, s2.outcome, s3.outcome])
  {
    var s1 := Step(log, cap, a.line, a.copyFails);
    var s2 := Step(s1.log, cap, b.line, b.copyFails);
    RunFirst(s2.log, cap, c, []);
    RunFirst(s1.log, cap, b, [c]);
    RunFirst(log, cap, a, [b, c]);
    assert [a] + [b, c] == [a, b, c];
    assert [b] + [c] == [b, c];
  }

  lemma ScenarioFirstStep()
    ensures Step([], 5, Some("ayuda"), false) == StepResult(["ayuda"], Invoked(Ayuda, ["ayuda"]))
  {
    AyudaIsRegistered();
    StepOneWord([], 5, "ayuda");
  }

  lemma ScenarioSecondStep()
    ensures Step(["ayuda"], 5, Some("foo"), false) == StepResult(["ayuda", "foo"], Unknown("foo"))
  {
    FooIsNotRegistered();
    StepOneWord(["ayuda"], 5, "foo");
    assert History.Add(["ayuda"], 5, Some("foo"), false) == ["ayuda", "foo"];
  }

  lemma ScenarioThirdStep()
    ensures Step(["ayuda", "foo"], 5, Some("ayuda"), false) == StepResult(["ayuda", "foo", "ayuda"], Invoked(Ayuda, ["ayuda"]))
  {
    AyudaIsRegistered();
    StepOneWord(["ayuda", "foo"], 5, "ayuda");
    assert History.Add(["ayuda", "foo"], 5, Some("ayuda"), false) == ["ayuda", "foo", "ayuda"];
  }

  /** With MAX_HISTORY = 5, the lines "ayuda", "foo", "ayuda" leave all three
      in the history; the first and last run the help handler and the middle
      one is reported as unknown. */
  lemma AyudaFooAyudaExample()
    ensures Run([], 5, [Input(Some("ayuda"), false), Input(Some("foo"), false), Input(Some("ayuda"), false)])
      == RunResult(["ayuda", "foo", "ayuda"], [Invoked(Ayuda, ["ayuda"]), Unknown("foo"), Invoked(Ayuda, ["ayuda"])])
  {
    ScenarioFirstStep();
    ScenarioSecondStep();
    ScenarioThirdStep();
    RunThree([], 5, Input(Some("ayuda"), false), Input(Some("foo"), false), Input(Some("ayuda"), false));
  }

  /** One iteration of `loop_shell`. */
  method Iteration(h: History.HistoryLog, line: Option<string>, copyFails: bool) returns (o: Outcome)
    requires h.Valid()
    modifies h, h.slots
    ensures h.Valid()
    ensures StepResult(h.Log, o) == Step(old(h.Log), h.cap, line, copyFails)
  {
    if line.Some? && |line.value| > 0 {
      h.AddToHistory(line, copyFails);
    }
    var args := Parse(line);
    o := Ejecutar(args);
  }

  /** How `Session` advances through `Run`: after the iteration on
      `inputs[i]`, either the run is over (exit) or it goes on from `i + 1`. */
  lemma RunAdvances(log0: seq<string>, cap: nat, inputs: seq<Input>, i: nat, done: seq<Outcome>,
                    before: seq<string>, after: seq<string>, o: Outcome)
    requires 0 < cap && |log0| <= cap && |before| <= cap && i < |inputs|
    requires var r := Run(before, cap, inputs[i..]); Run(log0, cap, inputs) == RunResult(r.log, done + r.outcomes)
    requires Step(before, cap, inputs[i].line, inputs[i].copyFails) == StepResult(after, o)
    ensures Exits(o) ==> Run(log0, cap, inputs) == RunResult(after, done + [o])
    ensures !Exits(o) ==> var r := Run(after, cap, inputs[i + 1..]);
      Run(log0, cap, inputs) == RunResult(r.log, (done + [o]) + r.outcomes)
  {
    assert inputs[i..] == [inputs[i]] + inputs[i + 1..];
    RunFirst(before, cap, inputs[i], inputs[i + 1..]);
    var r := Run(after, cap, inputs[i + 1..]);
    Text.AppendAssoc(done, [o], r.outcomes);
  }

  /** `loop_shell` over a finite list of inputs, stopping where `salir` exits. */
  method Session(h: History.HistoryLog, inputs: seq<Input>) returns (outcomes: seq<Outcome>)
    requires h.Valid()
    modifies h, h.slots
    ensures h.Valid()
    ensures RunResult(h.Log, outcomes) == Run(old(h.Log), h.cap, inputs)
  {
    ghost var log0 := h.Log;
    outcomes := [];
    var i := 0;
    while i < |inputs|
      invariant 0 <= i <= |inputs| && h.Valid()
      invariant var r := Run(h.Log, h.cap, inputs[i..]);
        Run(log0, h.cap, inputs) == RunResult(r.log, outcomes + r.outcomes)
    {
      ghost var before := h.Log;
      var o := Iteration(h, inputs[i].line, inputs[i].copyFails);
      RunAdvances(log0, h.cap, inputs, i, outcomes, before, h.Log, o);
      outcomes := outcomes + [o];
      if Exits(o) {
        return;
      }
      i := i + 1;
    }
  }
}
