/** From a query text to connected steps (internal/pipeline/Pipeline.go). */
module PipelineCompiler {
  import opened Common
  import opened Lexer
  import opened TokenCursor
  import opened PipelineParser
  import opened PipelineNetwork
  import opened Steps
  import LexerLaws
  import SearchParser
  import PipelineLaws

  datatype PipeType = NoInput | Events | Rows | Propagate

  datatype SortMode = TimestampDesc | PreserveArgOrder

  /** What a step does when it runs: a generator ignores its input and sends a fixed sequence of batches (fixed,
      because the repository is), with or without looking at a cancellation before it sends; any other step maps each
      batch. */
  datatype Behaviour = Generate(batches: seq<StepResult>, watches: bool) | Transform(f: StepResult -> StepResult)

  datatype Step = Step(name: string, input: PipeType, output: PipeType, sortMode: Option<SortMode>,
    behaviour: Behaviour) {
    predicate IsGenerator() {
      input == NoInput
    }

    /** Steps that say they take no input are the ones that do not read it. */
    predicate Honest() {
      input == NoInput <==> behaviour.Generate?
    }
  }

  datatype Pipe = Pipe(input: nat, inputType: PipeType, output: nat, outputType: PipeType)

  datatype CompileError =
    | ParseFailed(e: ParseError)
    | NoDefinition(stepType: string)
    | StepFailed(i: nat, failure: StepFailure)
    | Hangs(i: nat)  // no error of the program: the compiler of step i never returns
    | BadPropagation(i: nat)
    | BadLastOutput(i: nat)
    | TypeMismatch(i: nat)

  datatype StepFailure = Message(text: string) | BadTime | BadSearch(e: ParseError)

  /** How the steps of one type are compiled. The compiler of the search step parses its value, and for that tokenizes
      it; what it makes of a search and its time limits, and which times it can read, are parameters. */
  datatype StepCompiler =
    | Plain(compile: (string, map<string, string>) -> Result<Step, string>)
    | SearchCompiler(timeOk: string -> bool, make: (SearchParser.Search, Option<string>, Option<string>) -> Step)

  type Definitions = map<string, StepCompiler>

  /** The search step is the only one that is compiled in this way. */
  predicate Standard(defs: Definitions) {
    "search" in defs && forall name :: name in defs ==> (defs[name].SearchCompiler? <==> name == "search")
  }

  // ---- Compiling the steps ----

  /** Only the implicit first search gets the time range of the request. */
  function ArgsFor(i: nat, p: ParsedStep, start: Option<string>, end: Option<string>): map<string, string> {
    if i == 0 && p.stepType == "search" then
      var withStart := if start.Some? then p.args["startTime" := start.value] else p.args;
      if end.Some? then withStart["endTime" := end.value] else withStart
    else p.args
  }

  function TimeArg(key: string, args: map<string, string>): Option<string> {
    if key in args then Some(args[key]) else None
  }

  predicate TimesOk(c: StepCompiler, args: map<string, string>)
    requires c.SearchCompiler?
  {
    && ("startTime" in args ==> c.timeOk(args["startTime"]))
    && ("endTime" in args ==> c.timeOk(args["endTime"]))
  }

  /** The times are read before the value is tokenized. */
  predicate NeverReturns(c: StepCompiler, value: string, args: map<string, string>) {
    c.SearchCompiler? && TimesOk(c, args) && BareBang(value)
  }

  function RunCompiler(c: StepCompiler, value: string, args: map<string, string>): Result<Step, StepFailure>
    requires !NeverReturns(c, value, args)
  {
    match c
    case Plain(compile) =>
      var r := compile(value, args);
      if r.Ok? then Ok(r.value) else Err(Message(r.error))
    case SearchCompiler(_, make) =>
      if !TimesOk(c, args) then Err(BadTime)
      else
        DivergesIff(value);
        var srch := SearchParser.ParseText(value);
        if srch.Err? then Err(BadSearch(srch.error))
        else Ok(make(srch.value, TimeArg("startTime", args), TimeArg("endTime", args)))
  }

  function CompileOne(defs: Definitions, i: nat, p: ParsedStep, start: Option<string>, end: Option<string>)
    : Result<Step, CompileError>
  {
    if p.stepType !in defs then Err(NoDefinition(p.stepType))
    else if NeverReturns(defs[p.stepType], p.value, ArgsFor(i, p, start, end)) then Err(Hangs(i))
    else
      var r := RunCompiler(defs[p.stepType], p.value, ArgsFor(i, p, start, end));
      if r.Ok? then Ok(r.value) else Err(StepFailed(i, r.error))
  }

  /** The first `n` steps, or the error of the first step that does not compile. */
  function CompileSteps(defs: Definitions, ps: seq<ParsedStep>, start: Option<string>, end: Option<string>, n: nat)
    : (r: Result<seq<Step>, CompileError>)
    requires n <= |ps|
    ensures r.Ok? ==> |r.value| == n
  {
    if n == 0 then Ok([])
    else match CompileSteps(defs, ps, start, end, n - 1)
      case Err(e) => Err(e)
      case Ok(steps) =>
        match CompileOne(defs, n - 1, ps[n - 1], start, end)
        case Err(e) => Err(e)
        case Ok(step) => Ok(steps + [step])
  }

  // ---- Dropping the steps before the last generator ----

  function LastGenerator(steps: seq<Step>): (g: nat)
    requires steps != []
    ensures g < |steps|
    ensures g > 0 ==> steps[g].IsGenerator()
    ensures forall i :: g < i < |steps| ==> !steps[i].IsGenerator()
  {
    if |steps| == 1 || steps[|steps| - 1].IsGenerator() then |steps| - 1 else LastGenerator(steps[..|steps| - 1])
  }

  // ---- Types ----

  /** The type of the data after step i: a propagating step leaves it as it was. */
  function Resolved(steps: seq<Step>, i: nat): PipeType
    requires i < |steps|
  {
    if steps[i].output != Propagate || i == 0 then steps[i].output else Resolved(steps, i - 1)
  }

  predicate StepFits(steps: seq<Step>, i: nat)
    requires i < |steps|
  {
    && (steps[i].input == Propagate <==> steps[i].output == Propagate)
    && (if i == |steps| - 1
        then Resolved(steps, i) == Events || Resolved(steps, i) == Rows
        else steps[i + 1].input == Propagate || steps[i + 1].input == Resolved(steps, i))
  }

  predicate WellTyped(steps: seq<Step>) {
    forall i :: 0 <= i < |steps| ==> StepFits(steps, i)
  }

  /** The error that the check loop reports for step i. */
  function StepError(steps: seq<Step>, i: nat): CompileError
    requires i < |steps|
  {
    if !(steps[i].input == Propagate <==> steps[i].output == Propagate) then BadPropagation(i)
    else if i == |steps| - 1 then BadLastOutput(i)
    else TypeMismatch(i)
  }

  ghost predicate IsFirstError(steps: seq<Step>, e: CompileError) {
    exists i :: 0 <= i < |steps| && !StepFits(steps, i) && e == StepError(steps, i) &&
                (forall j :: 0 <= j < i ==> StepFits(steps, j))
  }

  /** No error exactly for well-typed steps; otherwise the error of the first step that does not fit. */
  method CheckTypes(steps: seq<Step>) returns (r: Option<CompileError>)
    requires steps != []
    ensures r.None? <==> WellTyped(steps)
    ensures r.Some? ==> IsFirstError(steps, r.value)
  {
    var outputType := steps[0].output;
    for i := 0 to |steps|
      invariant forall j :: 0 <= j < i ==> StepFits(steps, j)
      invariant outputType == if i == 0 then steps[0].output else Resolved(steps, i - 1)
    {
      var compiled := steps[i];
      if (compiled.input == Propagate || compiled.output == Propagate) && compiled.input != compiled.output {
        assert !StepFits(steps, i);
        return Some(BadPropagation(i));
      }
      if compiled.output != Propagate {
        outputType := compiled.output;
      }
      assert outputType == Resolved(steps, i);
      if i == |steps| - 1 {
        if outputType != Events && outputType != Rows {
          assert !StepFits(steps, i);
          return Some(BadLastOutput(i));
        }
      } else if outputType != steps[i + 1].input && steps[i + 1].input != Propagate {
        assert !StepFits(steps, i);
        return Some(TypeMismatch(i));
      }
    }
    return None;
  }

  /** Channel 0 is the closed one the first step gets; step i writes channel i + 1. Every pipe carries the resolved
      types, so that the output of each pipe is the input of the next, as a channel and as a type. */
  predicate PipeFits(steps: seq<Step>, pipe: Pipe, i: nat)
    requires i < |steps|
  {
    pipe == Pipe.Pipe(i, if i == 0 then steps[0].output else Resolved(steps, i - 1), i + 1, Resolved(steps, i))
  }

  predicate Wired(steps: seq<Step>, pipes: seq<Pipe>) {
    && |pipes| == |steps|
    && forall i :: 0 <= i < |steps| ==> PipeFits(steps, pipes[i], i)
  }

  method Wire(steps: seq<Step>) returns (pipes: seq<Pipe>, outChan: nat)
    requires steps != []
    ensures Wired(steps, pipes) && outChan == |steps|
  {
    var lastOutput: nat := 0;
    var lastOutputType := steps[0].output;
    pipes := [];
    for i := 0 to |steps|
      invariant |pipes| == i && lastOutput == i
      invariant lastOutputType == if i == 0 then steps[0].output else Resolved(steps, i - 1)
      invariant forall j :: 0 <= j < i ==> PipeFits(steps, pipes[j], j)
    {
      var currentOutputType := steps[i].output;
      if currentOutputType == Propagate {
        currentOutputType := lastOutputType;
      }
      var outputEvents: nat := i + 1;
      pipes := pipes + [Pipe.Pipe(lastOutput, lastOutputType, outputEvents, currentOutputType)];
      lastOutput := outputEvents;
      lastOutputType := currentOutputType;
    }
    outChan := lastOutput;
  }

  // ---- Compile ----

  /** Of the first n steps the last one that prescribes an order decides. */
  function SortModeOf(steps: seq<Step>, n: nat): SortMode
    requires n <= |steps|
  {
    if n == 0 then TimestampDesc
    else if steps[n - 1].sortMode.Some? then steps[n - 1].sortMode.value
    else SortModeOf(steps, n - 1)
  }

  class CompiledPipeline {
    const steps: seq<Step>
    const pipes: seq<Pipe>
    const outChan: nat

    constructor (steps: seq<Step>, pipes: seq<Pipe>, outChan: nat)
      ensures this.steps == steps && this.pipes == pipes && this.outChan == outChan
    {
      this.steps, this.pipes, this.outChan := steps, pipes, outChan;
    }

    /** The declared type of the result is the type of the last pipe. */
    method OutputType() returns (outputType: PipeType)
      requires steps != []
      ensures outputType == Resolved(steps, |steps| - 1)
      ensures Wired(steps, pipes) ==> outputType == pipes[|pipes| - 1].outputType
    {
      outputType := steps[0].output;
      for i := 0 to |steps|
        invariant outputType == if i == 0 then steps[0].output else Resolved(steps, i - 1)
      {
        if steps[i].output != Propagate {
          outputType := steps[i].output;
        }
      }
    }

    method SortMode() returns (mode: SortMode)
      ensures mode == SortModeOf(steps, |steps|)
    {
      mode := TimestampDesc;
      for i := 0 to |steps|
        invariant mode == SortModeOf(steps, i)
      {
        if steps[i].sortMode.Some? {
          mode := steps[i].sortMode.value;
        }
      }
    }
  }

  /** What a successful compilation yields for the steps of a query. */
  ghost predicate CompilesTo(steps: seq<Step>, p: CompiledPipeline) {
    && steps != []
    && p.steps == steps[LastGenerator(steps)..]
    && WellTyped(p.steps)
    && Wired(p.steps, p.pipes)
    && p.outChan == |p.steps|
  }

  lemma {:induction false} SamePrefix(defs: Definitions, ps: seq<ParsedStep>, qs: seq<ParsedStep>,
                                      start: Option<string>,
                                      end: Option<string>, n: nat)
    requires n <= |ps| && n <= |qs| && forall i :: 0 <= i < n ==> ps[i] == qs[i]
    ensures CompileSteps(defs, ps, start, end, n) == CompileSteps(defs, qs, start, end, n)
  {
    if n > 0 {
      SamePrefix(defs, ps, qs, start, end, n - 1);
    }
  }

  predicate FirstFailure(defs: Definitions, ps: seq<ParsedStep>, start: Option<string>, end: Option<string>, i: nat,
                         e: CompileError) {
    && i < |ps| && CompileOne(defs, i, ps[i], start, end) == Err(e)
    && forall j :: 0 <= j < i ==> CompileOne(defs, j, ps[j], start, end).Ok?
  }

  /** Compiling a list of steps: each one on its own and in its place, or the error of the first that fails. */
  ghost predicate IsCompilation(defs: Definitions, ps: seq<ParsedStep>, start: Option<string>, end: Option<string>,
                                r: Result<seq<Step>, CompileError>) {
    && (r.Ok? ==> |r.value| == |ps| && forall i :: 0 <= i < |ps| ==>
      CompileOne(defs, i, ps[i], start, end) == Ok(r.value[i]))
    && (r.Err? ==> exists i :: FirstFailure(defs, ps, start, end, i, r.error))
  }

  lemma {:induction false} CompilationHolds(defs: Definitions, ps: seq<ParsedStep>, start: Option<string>,
                                            end: Option<string>)
    ensures IsCompilation(defs, ps, start, end, CompileSteps(defs, ps, start, end, |ps|))
    decreases |ps|
  {
    if ps != [] {
      var n := |ps| - 1;
      CompilationHolds(defs, ps[..n], start, end);
      SamePrefix(defs, ps, ps[..n], start, end, n);
      var before := CompileSteps(defs, ps[..n], start, end, n);
      assert forall i :: 0 <= i < n ==> ps[..n][i] == ps[i];
      if before.Err? {
        var i :| FirstFailure(defs, ps[..n], start, end, i, before.error);
        assert FirstFailure(defs, ps, start, end, i, before.error);
      } else if CompileOne(defs, n, ps[n], start, end).Err? {
        assert forall j :: 0 <= j < n ==> CompileOne(defs, j, ps[..n][j], start, end).Ok?;
        assert FirstFailure(defs, ps, start, end, n, CompileOne(defs, n, ps[n], start, end).error);
      }
    }
  }

  /** There is exactly one such result, the one of the recursion. */
  lemma CompilationIff(defs: Definitions, ps: seq<ParsedStep>, start: Option<string>, end: Option<string>,
                       r: Result<seq<Step>, CompileError>)
    ensures IsCompilation(defs, ps, start, end, r) <==> r == CompileSteps(defs, ps, start, end, |ps|)
  {
    CompilationHolds(defs, ps, start, end);
    if IsCompilation(defs, ps, start, end, r) {
      CompilationUnique(defs, ps, start, end, r, CompileSteps(defs, ps, start, end, |ps|));
    }
  }

  lemma CompilationUnique(defs: Definitions, ps: seq<ParsedStep>, start: Option<string>, end: Option<string>,
                          r: Result<seq<Step>, CompileError>, q: Result<seq<Step>, CompileError>)
    requires IsCompilation(defs, ps, start, end, r) && IsCompilation(defs, ps, start, end, q)
    ensures r == q
  {
    if r.Err? {
      var i :| FirstFailure(defs, ps, start, end, i, r.error);
      assert q.Err?;
      var j :| FirstFailure(defs, ps, start, end, j, q.error);
      assert i == j;
    } else {
      assert q.Ok? by {
        assert forall i, e :: !FirstFailure(defs, ps, start, end, i, e);
      }
      forall i | 0 <= i < |ps|
        ensures r.value[i] == q.value[i]
      {
        assert Ok(r.value[i]) == CompileOne(defs, i, ps[i], start, end) == Ok(q.value[i]);
      }
      assert r.value == q.value;
    }
  }

  /** compileSearchStep, on the values and options it returns on. */
  method CompileSearchStep(c: StepCompiler, input: string, options: map<string, string>)
    returns (r: Result<Step, StepFailure>)
    requires c.SearchCompiler? && !NeverReturns(c, input, options)
    ensures r == RunCompiler(c, input, options)
  {
    var startTime, endTime := None, None;
    if "startTime" in options {
      if !c.timeOk(options["startTime"]) {
        return Err(BadTime);
      }
      startTime := Some(options["startTime"]);
    }
    if "endTime" in options {
      if !c.timeOk(options["endTime"]) {
        return Err(BadTime);
      }
      endTime := Some(options["endTime"]);
    }
    var srch := SearchParser.ParseSearch(input);
    if srch.Err? {
      return Err(BadSearch(srch.error));
    }
    return Ok(c.make(srch.value, startTime, endTime));
  }

  predicate StepsReturn(defs: Definitions, ps: seq<ParsedStep>, start: Option<string>, end: Option<string>) {
    var r := CompileSteps(defs, ps, start, end, |ps|);
    r.Err? ==> !r.error.Hangs?
  }

  method CompileParsed(defs: Definitions, ps: seq<ParsedStep>, start: Option<string>, end: Option<string>)
    returns (r: Result<seq<Step>, CompileError>)
    requires StepsReturn(defs, ps, start, end)
    ensures IsCompilation(defs, ps, start, end, r)
    ensures r == CompileSteps(defs, ps, start, end, |ps|)
  {
    CompilationHolds(defs, ps, start, end);
    var compiled: seq<Step> := [];
    for i := 0 to |ps|
      invariant CompileSteps(defs, ps, start, end, i) == Ok(compiled)
    {
      FirstErrorStays(defs, ps, start, end, i + 1, |ps|);
      var res := CompileStep(defs, i, ps[i], start, end);
      if res.Err? {
        return Err(res.error);
      }
      compiled := compiled + [res.value];
    }
    return Ok(compiled);
  }

  method CompileStep(defs: Definitions, i: nat, p: ParsedStep, start: Option<string>, end: Option<string>)
    returns (r: Result<Step, CompileError>)
    requires CompileOne(defs, i, p, start, end) != Err(Hangs(i))
    ensures r == CompileOne(defs, i, p, start, end)
  {
    if p.stepType !in defs {
      return Err(NoDefinition(p.stepType));
    }
    var args := p.args;
    if i == 0 && p.stepType == "search" {
      if start.Some? {
        args := args["startTime" := start.value];
      }
      if end.Some? {
        args := args["endTime" := end.value];
      }
    }
    assert args == ArgsFor(i, p, start, end);
    var compiler := defs[p.stepType];
    var res: Result<Step, StepFailure>;
    if compiler.SearchCompiler? {
      res := CompileSearchStep(compiler, p.value, args);
    } else {
      var plain := compiler.compile(p.value, args);
      res := if plain.Ok? then Ok(plain.value) else Err(Message(plain.error));
    }
    r := if res.Ok? then Ok(res.value) else Err(StepFailed(i, res.error));
  }

  /** What connecting the steps of a query has to result in. */
  ghost predicate IsConnected(steps: seq<Step>, r: Result<CompiledPipeline, CompileError>) {
    && steps != []
    && (r.Ok? <==> WellTyped(steps[LastGenerator(steps)..]))
    && (r.Ok? ==> CompilesTo(steps, r.value))
    && (r.Err? ==> IsFirstError(steps[LastGenerator(steps)..], r.error))
  }

  method Connect(steps: seq<Step>) returns (r: Result<CompiledPipeline, CompileError>)
    requires steps != []
    ensures IsConnected(steps, r)
  {
    var lastGeneratorIndex := FindLastGenerator(steps);
    var compiled := steps[lastGeneratorIndex..];
    var e := CheckTypes(compiled);
    if e.Some? {
      return Err(e.value);
    }
    var pipes, outChan := Wire(compiled);
    var pipeline := new CompiledPipeline(compiled, pipes, outChan);
    return Ok(pipeline);
  }

  /** Whether compiling a query comes to an end: its text is tokenized, and then the value of each search step that is
      reached. */
  predicate CompileReturns(defs: Definitions, input: string, start: Option<string>, end: Option<string>) {
    !BareBang(input) &&
    (DivergesIff(input);
     ParsePipelineText(input).Ok? ==> StepsReturn(defs, ParsePipelineText(input).value, start, end))
  }

  method Compile(defs: Definitions, input: string, start: Option<string>, end: Option<string>)
    returns (r: Result<CompiledPipeline, CompileError>)
    requires CompileReturns(defs, input, start, end)
    ensures !Lex(input).Diverges?
    ensures var parsed := ParsePipelineText(input);
            if parsed.Err? then r == Err(ParseFailed(parsed.error))
            else
              var steps := CompileSteps(defs, parsed.value, start, end, |parsed.value|);
              if steps.Err? then r == Err(steps.error) && !steps.error.Hangs? else IsConnected(steps.value, r)
  {
    var pr := ParsePipeline(input);
    if pr.Err? {
      return Err(ParseFailed(pr.error));
    }
    PipelineLaws.AlwaysStartsWithSearch(input);
    var steps := CompileParsed(defs, pr.value, start, end);
    if steps.Err? {
      return Err(steps.error);
    }
    r := Connect(steps.value);
  }

  method FindLastGenerator(steps: seq<Step>) returns (g: nat)
    requires steps != []
    ensures g == LastGenerator(steps)
  {
    g := 0;
    for i := 0 to |steps|
      invariant g < |steps|
      invariant i > 0 ==> g == LastGenerator(steps[..i])
      invariant i == 0 ==> g == 0
    {
      assert steps[..i + 1][..i] == steps[..i];
      if steps[i].IsGenerator() {
        g := i;
      }
    }
    assert steps[..|steps|] == steps;
  }

  lemma {:induction false} FirstErrorStays(defs: Definitions, ps: seq<ParsedStep>, start: Option<string>,
                                           end: Option<string>, i: nat, n: nat)
    requires i <= n <= |ps|
    ensures CompileSteps(defs, ps, start, end, i).Err? ==>
            CompileSteps(defs, ps, start, end, n) == CompileSteps(defs, ps, start, end, i)
  {
    if i < n {
      FirstErrorStays(defs, ps, start, end, i, n - 1);
    }
  }

  // ---- Laws ----

  /** Compiling one step, written out. The times of a search step are the request's for the implicit search, if it has
      any, and otherwise its own options; they are looked at before the value is tokenized. Every other step is made of
      its value and its own options. */
  lemma CompileOneMeaning(defs: Definitions, i: nat, p: ParsedStep, start: Option<string>, end: Option<string>)
    requires Standard(defs)
    ensures p.stepType !in defs ==> CompileOne(defs, i, p, start, end) == Err(NoDefinition(p.stepType))
    ensures p.stepType in defs && p.stepType != "search" ==>
      var made := defs[p.stepType].compile(p.value, p.args);
      CompileOne(defs, i, p, start, end) == if made.Ok? then Ok(made.value) else Err(StepFailed(i, Message(made.error)))
    ensures p.stepType == "search" ==>
      var from := if i == 0 && start.Some? then start else TimeArg("startTime", p.args);
      var to := if i == 0 && end.Some? then end else TimeArg("endTime", p.args);
      CompileOne(defs, i, p, start, end) ==
      if (from.Some? && !defs["search"].timeOk(from.value)) || (to.Some? && !defs["search"].timeOk(to.value))
      then Err(StepFailed(i, BadTime))
      else if BareBang(p.value) then Err(Hangs(i))
      else
        (DivergesIff(p.value);
         var parsed := SearchParser.ParseText(p.value);
         if parsed.Err? then Err(StepFailed(i, BadSearch(parsed.error)))
         else Ok(defs["search"].make(parsed.value, from, to)))
  {
  }

  /** What kind of data is there after each step. */
  ghost predicate AreTypes(types: seq<PipeType>, steps: seq<Step>) {
    && |types| == |steps|
    && (forall i :: 0 <= i < |steps| && (i == 0 || steps[i].output != Propagate) ==> types[i] == steps[i].output)
    && (forall i :: 0 < i < |steps| && steps[i].output == Propagate ==> types[i] == types[i - 1])
  }

  /** What is wrong with step i: it propagates on one side only; or it is the last one and yields neither events nor
      rows; or the next step asks for something else. */
  ghost predicate IsMisfit(steps: seq<Step>, types: seq<PipeType>, i: nat, e: CompileError)
    requires |types| == |steps|
  {
    && i < |steps|
    && if (steps[i].input == Propagate) != (steps[i].output == Propagate) then e == BadPropagation(i)
       else if i == |steps| - 1 then types[i] != Events && types[i] != Rows && e == BadLastOutput(i)
       else steps[i + 1].input != Propagate && steps[i + 1].input != types[i] && e == TypeMismatch(i)
  }

  lemma {:induction false} TypesAreResolved(types: seq<PipeType>, steps: seq<Step>, i: nat)
    requires AreTypes(types, steps) && i < |steps|
    ensures types[i] == Resolved(steps, i)
  {
    if i > 0 {
      TypesAreResolved(types, steps, i - 1);
    }
  }

  lemma TypesExist(steps: seq<Step>) returns (types: seq<PipeType>)
    ensures AreTypes(types, steps)
  {
    types := seq(|steps|, i requires 0 <= i < |steps| => Resolved(steps, i));
  }

  /** A chain is well typed if and only if no step is wrong, and otherwise the error is that of the first that is. */
  lemma WellTypedMeaning(steps: seq<Step>, types: seq<PipeType>)
    requires AreTypes(types, steps)
    ensures WellTyped(steps) <==> forall i: nat, e :: !IsMisfit(steps, types, i, e)
    ensures forall e :: IsFirstError(steps, e) <==>
      exists i: nat :: IsMisfit(steps, types, i, e) && forall j: nat, f :: j < i ==> !IsMisfit(steps, types, j, f)
  {
    forall i: nat, e | i < |steps|
      ensures IsMisfit(steps, types, i, e) <==> !StepFits(steps, i) && e == StepError(steps, i)
    {
      TypesAreResolved(types, steps, i);
    }
    forall j: nat | j < |steps| && forall f :: !IsMisfit(steps, types, j, f)
      ensures StepFits(steps, j)
    {
      assert !IsMisfit(steps, types, j, StepError(steps, j));
    }
  }

  /** The channels: every pipe has one of its own for its output, which is the input of the next pipe and carries the
      type of the data there; the last one is the pipeline's. */
  lemma WiredMeaning(steps: seq<Step>, types: seq<PipeType>, pipes: seq<Pipe>)
    requires steps != [] && AreTypes(types, steps) && Wired(steps, pipes)
    ensures forall i, j :: 0 <= i < j < |pipes| ==> pipes[i].output != pipes[j].output
    ensures forall i :: 0 <= i < |pipes| ==> pipes[i].output != pipes[0].input && pipes[i].outputType == types[i]
    ensures forall i :: 0 < i < |pipes| ==>
      pipes[i].input == pipes[i - 1].output && pipes[i].inputType == pipes[i - 1].outputType
    ensures pipes[0].inputType == steps[0].output && pipes[|pipes| - 1].output == |steps|
  {
    assert forall i :: 0 <= i < |pipes| ==> PipeFits(steps, pipes[i], i);
    forall i | 0 <= i < |steps|
      ensures types[i] == Resolved(steps, i)
    {
      TypesAreResolved(types, steps, i);
    }
  }

  /** Of the first n steps, step i prescribes an order, and none after it. */
  ghost predicate LastOrders(steps: seq<Step>, n: nat, i: nat, mode: SortMode) {
    && i < n <= |steps| && steps[i].sortMode == Some(mode)
    && forall j :: i < j < n ==> steps[j].sortMode.None?
  }

  /** The last step that prescribes an order decides; without any the newest events come first. */
  lemma {:induction false} SortModeMeaning(steps: seq<Step>, n: nat)
    requires n <= |steps|
    ensures (exists i: nat :: LastOrders(steps, n, i, SortModeOf(steps, n))) ||
            (SortModeOf(steps, n) == TimestampDesc && forall i :: 0 <= i < n ==> steps[i].sortMode.None?)
  {
    if n > 0 {
      if steps[n - 1].sortMode.Some? {
        assert LastOrders(steps, n, n - 1, SortModeOf(steps, n));
      } else {
        var m, mode := n - 1, SortModeOf(steps, n - 1);
        SortModeMeaning(steps, m);
        if i: nat :| LastOrders(steps, m, i, mode) {
          assert LastOrders(steps, n, i, mode);
        }
      }
    }
  }

  /** Steps in turn: a generator forgets what was before it, every other step maps each batch. */
  lemma RunAllMeaning(steps: seq<Step>, last: Step, input: seq<StepResult>)
    ensures RunAll([], input) == input
    ensures last.behaviour.Generate? ==> RunAll(steps + [last], input) == last.behaviour.batches
    ensures last.behaviour.Transform? ==>
      var before, after := RunAll(steps, input), RunAll(steps + [last], input);
      |after| == |before| && forall k :: 0 <= k < |after| ==> after[k] == last.behaviour.f(before[k])
  {
    assert (steps + [last])[..|steps|] == steps;
  }

  /** On a well-typed chain no pipe carries the pseudo type, and every step after the first gets the type it asks for.
      */
  lemma PipesFitSteps(steps: seq<Step>, pipes: seq<Pipe>, i: nat)
    requires steps != [] && WellTyped(steps) && Wired(steps, pipes) && i < |steps|
    ensures pipes[i].outputType != Propagate
    ensures i > 0 ==> pipes[i].input == pipes[i - 1].output && pipes[i].inputType == pipes[i - 1].outputType
    ensures i > 0 ==> steps[i].input == Propagate || steps[i].input == pipes[i].inputType
    ensures i == |steps| - 1 ==> pipes[i].outputType == Events || pipes[i].outputType == Rows
  {
    ResolvedIsProper(steps, i);
    assert StepFits(steps, i) && PipeFits(steps, pipes[i], i);
    if i > 0 {
      assert StepFits(steps, i - 1) && PipeFits(steps, pipes[i - 1], i - 1);
    }
  }

  lemma {:induction false} ResolvedIsProper(steps: seq<Step>, i: nat)
    requires WellTyped(steps) && i < |steps|
    ensures Resolved(steps, i) != Propagate
    decreases |steps| - i
  {
    assert StepFits(steps, i);
    if i < |steps| - 1 {
      ResolvedIsProper(steps, i + 1);
      assert StepFits(steps, i + 1);
    }
  }

  /** What the steps yield when each of them processes everything before the next one starts. */
  function RunAll(steps: seq<Step>, input: seq<StepResult>): seq<StepResult> {
    if steps == [] then input
    else
      var before := RunAll(steps[..|steps| - 1], input);
      match steps[|steps| - 1].behaviour
      case Generate(batches, _) => batches
      case Transform(f) => Map(f, before)
  }

  lemma {:induction false} GeneratorForgets(steps: seq<Step>, g: nat, before: seq<StepResult>, input: seq<StepResult>)
    requires g < |steps| && steps[g].behaviour.Generate?
    ensures RunAll(steps, before) == RunAll(steps[g..], input)
  {
    if g < |steps| - 1 {
      var init := steps[..|steps| - 1];
      GeneratorForgets(init, g, before, input);
      assert steps[g..][..|steps[g..]| - 1] == init[g..];
    } else {
      assert steps[g..] == [steps[g]];
    }
  }

  /** Dropping the steps before the last generator does not change the result. */
  lemma TruncationKeepsMeaning(steps: seq<Step>, input: seq<StepResult>)
    requires steps != []
    requires forall i :: 0 <= i < |steps| ==> steps[i].Honest()
    ensures RunAll(steps, input) == RunAll(steps[LastGenerator(steps)..], input)
  {
    var g := LastGenerator(steps);
    if g > 0 {
      GeneratorForgets(steps, g, input, input);
    } else {
      assert steps[0..] == steps;
    }
  }

  /** The program that the goroutines of a pipeline execute. */
  function ProgramOf(steps: seq<Step>): Program<StepResult>
    requires steps != [] && steps[0].behaviour.Generate?
    requires forall i :: 1 <= i < |steps| ==> steps[i].behaviour.Transform?
  {
    Program(steps[0].behaviour.batches, steps[0].behaviour.watches,
            seq(|steps| - 1, k requires 0 <= k < |steps| - 1 => steps[k + 1].behaviour.f))
  }

  lemma {:induction false} ImageIsRunAll(steps: seq<Step>, k: nat, input: seq<StepResult>)
    requires steps != [] && steps[0].behaviour.Generate? && k < |steps|
    requires forall i :: 1 <= i < |steps| ==> steps[i].behaviour.Transform?
    ensures Image(ProgramOf(steps), k) == RunAll(steps[..k + 1], input)
  {
    if k > 0 {
      ImageIsRunAll(steps, k - 1, input);
      assert steps[..k + 1][..k] == steps[..k];
    } else {
      assert steps[..1] == [steps[0]];
    }
  }

  /** A compiled query, executed concurrently under any schedule and to the end, delivers what running all the steps
      the user wrote one after the other would. */
  lemma ExecutionRefinesQuery(steps: seq<Step>, input: seq<StepResult>, run: seq<Action>)
    requires steps != []
    requires forall i :: 0 <= i < |steps| ==> steps[i].Honest()
    requires steps[0].IsGenerator()
    ensures var compiled := steps[LastGenerator(steps)..];
            && compiled != []
            && compiled[0].behaviour.Generate?
            && (forall i :: 1 <= i < |compiled| ==> compiled[i].behaviour.Transform?)
            && var p := ProgramOf(compiled);
               IsRun(p, run) ==>
                 && StateAfter(p, run).received <= RunAll(steps, input)
                 && (StateAfter(p, run).consumer.Finished? && !StateAfter(p, run).cancelled ==>
                       StateAfter(p, run).received == RunAll(steps, input))
  {
    CompiledShape(steps);
    TruncationKeepsMeaning(steps, input);
    hide RunAll, LastGenerator, IsRun, StateAfter;
    var compiled := steps[LastGenerator(steps)..];
    if IsRun(ProgramOf(compiled), run) {
      NetworkRunsAll(compiled, input, run);
    }
  }

  lemma CompiledShape(steps: seq<Step>)
    requires steps != [] && steps[0].IsGenerator()
    requires forall i :: 0 <= i < |steps| ==> steps[i].Honest()
    ensures var compiled := steps[LastGenerator(steps)..];
            && compiled != []
            && compiled[0].behaviour.Generate?
            && (forall i :: 1 <= i < |compiled| ==> compiled[i].behaviour.Transform?)
  {
    var g := LastGenerator(steps);
    var compiled := steps[g..];
    assert compiled[0] == steps[g];
    forall i | 1 <= i < |compiled|
      ensures compiled[i].behaviour.Transform?
    {
      assert compiled[i] == steps[g + i];
    }
  }

  lemma NetworkRunsAll(compiled: seq<Step>, input: seq<StepResult>, run: seq<Action>)
    requires compiled != [] && compiled[0].behaviour.Generate?
    requires forall i :: 1 <= i < |compiled| ==> compiled[i].behaviour.Transform?
    requires IsRun(ProgramOf(compiled), run)
    ensures var n := StateAfter(ProgramOf(compiled), run);
            && n.received <= RunAll(compiled, input)
            && (n.consumer.Finished? && !n.cancelled ==> n.received == RunAll(compiled, input))
  {
    hide RunAll, Image, IsRun, StateAfter;
    var p := ProgramOf(compiled);
    ImageIsRunAll(compiled, |compiled| - 1, input);
    assert compiled[..|compiled|] == compiled;
    ReceivedIsPrefix(p, run);
    if StateAfter(p, run).consumer.Finished? && !StateAfter(p, run).cancelled {
      FinishedIsComplete(p, run);
    }
  }

  ghost predicate SameFromSecond(a: seq<Step>, b: seq<Step>) {
    |a| == |b| && forall i :: 1 <= i < |a| ==> a[i] == b[i]
  }

  lemma SameSnoc(a: seq<Step>, b: seq<Step>, x: Step, y: Step)
    requires SameFromSecond(a, b) && (a != [] ==> x == y)
    ensures SameFromSecond(a + [x], b + [y])
  {
  }

  lemma {:induction false} TimesOnlyReachFirst(defs: Definitions, ps: seq<ParsedStep>, start: Option<string>,
                                               end: Option<string>, n: nat)
    requires n <= |ps|
    ensures var a, b := CompileSteps(defs, ps, start, end, n), CompileSteps(defs, ps, None, None, n);
            a.Ok? && b.Ok? ==> SameFromSecond(a.value, b.value)
  {
    assert SameFromSecond([], []);
    hide SameFromSecond;
    if n > 0 {
      TimesOnlyReachFirst(defs, ps, start, end, n - 1);
      var a, b := CompileSteps(defs, ps, start, end, n - 1), CompileSteps(defs, ps, None, None, n - 1);
      var x, y := CompileOne(defs, n - 1, ps[n - 1], start, end), CompileOne(defs, n - 1, ps[n - 1], None, None);
      if a.Ok? && b.Ok? && x.Ok? && y.Ok? {
        SameSnoc(a.value, b.value, x.value, y.value);
      }
    }
  }

  /** The time range of a request is lost if and only if the query has a generator of its own after the implicit search:
      then the step that got it is dropped, and what is executed does not depend on it. Otherwise what is executed
      starts with that very step. */
  lemma TimeRangeIgnored(defs: Definitions, ps: seq<ParsedStep>, start: Option<string>, end: Option<string>)
    requires ps != []
    requires CompileSteps(defs, ps, start, end, |ps|).Ok? && CompileSteps(defs, ps, None, None, |ps|).Ok?
    ensures var a, b := CompileSteps(defs, ps, start, end, |ps|).value, CompileSteps(defs, ps, None, None, |ps|).value;
            && (LastGenerator(a) > 0 ==> a[LastGenerator(a)..] == b[LastGenerator(b)..])
            && (LastGenerator(a) == 0 ==>
                  CompileOne(defs, 0, ps[0], start, end) == Ok(a[LastGenerator(a)..][0]) && a[LastGenerator(a)..] == a)
            && (LastGenerator(a) > 0 <==> exists i :: 0 < i < |a| && a[i].IsGenerator())
  {
    TimesOnlyReachFirst(defs, ps, start, end, |ps|);
    FirstStepIs(defs, ps, start, end);
    TruncationsAgree(CompileSteps(defs, ps, start, end, |ps|).value, CompileSteps(defs, ps, None, None, |ps|).value);
  }

  lemma FirstStepIs(defs: Definitions, ps: seq<ParsedStep>, start: Option<string>, end: Option<string>)
    requires ps != [] && CompileSteps(defs, ps, start, end, |ps|).Ok?
    ensures CompileOne(defs, 0, ps[0], start, end) == Ok(CompileSteps(defs, ps, start, end, |ps|).value[0])
  {
    CompilationHolds(defs, ps, start, end);
  }

  lemma TruncationsAgree(a: seq<Step>, b: seq<Step>)
    requires a != [] && SameFromSecond(a, b)
    ensures LastGenerator(a) > 0 ==> a[LastGenerator(a)..] == b[LastGenerator(b)..]
    ensures LastGenerator(a) == 0 ==> a[LastGenerator(a)..] == a
    ensures LastGenerator(a) > 0 <==> exists i :: 0 < i < |a| && a[i].IsGenerator()
  {
    var g := LastGenerator(a);
    if g > 0 {
      SameLastGenerator(a, b, g);
      assert a[g..] == b[g..];
    }
  }

  lemma {:induction false} SameLastGenerator(a: seq<Step>, b: seq<Step>, g: nat)
    requires 0 < g < |b| == |a| && b[g].IsGenerator() && forall i :: 1 <= i < |a| ==> a[i] == b[i]
    requires forall i :: g < i < |a| ==> !a[i].IsGenerator()
    ensures LastGenerator(b) == g
  {
    var h := LastGenerator(b);
    assert forall i :: g < i < |b| ==> b[i] == a[i] && !b[i].IsGenerator();
  }

  /** A query that loses its time range: the surrounding step after an empty search. */
  lemma TimeRangeLost(defs: Definitions, eventId: PipelineLaws.CommandOption, start: Option<string>,
                      end: Option<string>)
    returns (text: string)
    requires PipelineLaws.ValidOption(eventId) && "search" in defs && "surrounding" in defs
    requires CompileOne(defs, 0, ParsedStep("search", map[], ""), start, end).Ok?
    requires var r := CompileOne(defs, 1, ParsedStep("surrounding", PipelineLaws.ArgsOf([eventId], map[]), ""),
      start, end);
             r.Ok? && r.value.IsGenerator()
    ensures !Lex(text).Diverges? && ParsePipelineText(text).Ok?
    ensures var ps := ParsePipelineText(text).value;
            var r := CompileSteps(defs, ps, start, end, |ps|);
            r.Ok? && |r.value| == 2 && LastGenerator(r.value) == 1
  {
    hide CompileOne, CompileSteps, PipelineLaws.CommandTokens, ParsePipelineText, Lex, LastGenerator;
    var c := PipelineLaws.Command.Command("", "surrounding", [eventId], [], "");
    text := "" + LexerLaws.Print(PipelineLaws.CommandTokens([c]));
    assert PipelineLaws.ValidCommands([c]) && !BareBang("");
    PipelineLaws.PipelineTextRoundTrip("", [c]);
    PipelineLaws.AcceptedIff([c]);
    var first, second := ParsedStep("search", map[], ""), ParsedStep("surrounding", PipelineLaws.ArgsOf([eventId],
      map[]), "");
    assert PipelineLaws.StepsOf([c])[0] == second;
    assert [first] + PipelineLaws.StepsOf([c]) == [first, second];
    CompileTwo(defs, first, second, start, end);
  }

  lemma CompileTwo(defs: Definitions, p: ParsedStep, q: ParsedStep, start: Option<string>, end: Option<string>)
    requires CompileOne(defs, 0, p, start, end).Ok?
    requires CompileOne(defs, 1, q, start, end).Ok? && CompileOne(defs, 1, q, start, end).value.IsGenerator()
    ensures var r := CompileSteps(defs, [p, q], start, end, 2); r.Ok? && |r.value| == 2 && LastGenerator(r.value) == 1
  {
    hide CompileOne;
    var ps := [p, q];
    assert CompileSteps(defs, ps, start, end, 0) == Ok([]);
    var x, y := CompileOne(defs, 0, p, start, end).value, CompileOne(defs, 1, q, start, end).value;
    assert ps[0] == p && ps[1] == q && [] + [x] == [x];
    assert CompileSteps(defs, ps, start, end, 1) == Ok([x]);
    assert CompileSteps(defs, ps, start, end, 2) == Ok([x] + [y]);
  }

  // ---- When compiling never returns ----

  /** All the steps before it compile. */
  predicate Reached(defs: Definitions, ps: seq<ParsedStep>, start: Option<string>, end: Option<string>, i: nat)
    requires i <= |ps|
  {
    forall j :: 0 <= j < i ==> CompileOne(defs, j, ps[j], start, end).Ok?
  }

  /** A search command with times that can be read and with a bare `!` in its value. */
  predicate HangingSearch(defs: Definitions, ps: seq<ParsedStep>, start: Option<string>, end: Option<string>, i: nat)
    requires Standard(defs) && i < |ps|
  {
    && ps[i].stepType == "search"
    && TimesOk(defs["search"], ArgsFor(i, ps[i], start, end))
    && BareBang(ps[i].value)
  }

  lemma StepsReturnIff(defs: Definitions, ps: seq<ParsedStep>, start: Option<string>, end: Option<string>)
    requires Standard(defs)
    ensures StepsReturn(defs, ps, start, end) <==>
            forall i :: 0 <= i < |ps| && Reached(defs, ps, start, end, i) ==> !HangingSearch(defs, ps, start, end, i)
  {
    var r := CompileSteps(defs, ps, start, end, |ps|);
    CompilationHolds(defs, ps, start, end);
    forall i | 0 <= i < |ps| && Reached(defs, ps, start, end, i) && HangingSearch(defs, ps, start, end, i)
      ensures r == Err(Hangs(i))
    {
      HangsFirst(defs, ps, start, end, i);
    }
    if r.Err? && r.error.Hangs? {
      var i :| FirstFailure(defs, ps, start, end, i, r.error);
      assert Reached(defs, ps, start, end, i) && HangingSearch(defs, ps, start, end, i);
    }
  }

  lemma HangsFirst(defs: Definitions, ps: seq<ParsedStep>, start: Option<string>, end: Option<string>, i: nat)
    requires i < |ps| && Reached(defs, ps, start, end, i) && CompileOne(defs, i, ps[i], start, end).Err?
    ensures CompileSteps(defs, ps, start, end, |ps|) == Err(CompileOne(defs, i, ps[i], start, end).error)
  {
    var e := CompileOne(defs, i, ps[i], start, end).error;
    assert FirstFailure(defs, ps, start, end, i, e);
    CompilationIff(defs, ps, start, end, Err(e));
  }

  /** Exactly when compiling a query returns: its own text has no bare `!` outside quotes, and, if it parses, neither
      has the value of any search step that is reached and whose times can be read. */
  lemma {:induction false} CompileReturnsIff(defs: Definitions, input: string, start: Option<string>,
                                             end: Option<string>)
    requires Standard(defs)
    ensures !BareBang(input) ==> !Lex(input).Diverges?
    ensures CompileReturns(defs, input, start, end) <==>
            !BareBang(input) &&
            (ParsePipelineText(input).Ok? ==>
               var ps := ParsePipelineText(input).value;
               forall i :: 0 <= i < |ps| && Reached(defs, ps, start, end, i) ==>
                 !HangingSearch(defs, ps, start, end, i))
  {
    DivergesIff(input);
    if !BareBang(input) && ParsePipelineText(input).Ok? {
      StepsReturnIff(defs, ParsePipelineText(input).value, start, end);
    }
  }

  /** The time range of a request can be read by the search step: it is the program that has written it. */
  predicate RequestTimesOk(defs: Definitions, start: Option<string>, end: Option<string>)
    requires Standard(defs)
  {
    (start.Some? ==> defs["search"].timeOk(start.value)) && (end.Some? ==> defs["search"].timeOk(end.value))
  }

  /** For a query that names no search command itself the joined values of the tokens before the first pipe decide, that
      is the text before the pipe without its quotes. */
  lemma {:induction false} ImplicitSearchReturnsIff(defs: Definitions, input: string, start: Option<string>,
                                                    end: Option<string>)
    requires Standard(defs) && RequestTimesOk(defs, start, end)
    requires !BareBang(input) ==> !Lex(input).Diverges?
    requires !BareBang(input) && ParsePipelineText(input).Ok? ==>
               var ps := ParsePipelineText(input).value; forall i :: 0 < i < |ps| ==> ps[i].stepType != "search"
    ensures !BareBang(input) && ParsePipelineText(input).Ok? ==> Lex(input).Lexed?
    ensures CompileReturns(defs, input, start, end) <==>
            !BareBang(input) &&
            (ParsePipelineText(input).Ok? ==>
               !BareBang(JoinValues(Lex(input).tokens[..PipeIndex(Lex(input).tokens)])))
  {
    CompileReturnsIff(defs, input, start, end);
    if !BareBang(input) && ParsePipelineText(input).Ok? {
      PipelineLaws.AlwaysStartsWithSearch(input);
      var ps := ParsePipelineText(input).value;
      assert Reached(defs, ps, start, end, 0);
      assert HangingSearch(defs, ps, start, end, 0) <==> BareBang(ps[0].value);
    }
  }

  /** A query without quotes that can be tokenized can be compiled: none of its values has a bare `!`. */
  lemma {:induction false} QuoteFreeReturns(defs: Definitions, input: string, start: Option<string>,
                                            end: Option<string>)
    requires Standard(defs) && '"' !in input && !BareBang(input)
    ensures CompileReturns(defs, input, start, end)
  {
    CompileReturnsIff(defs, input, start, end);
    if ParsePipelineText(input).Ok? {
      PipelineLaws.QuoteFreeValuesHaveNoBang(input);
    }
  }

  /** In quotes any text passes the first tokenizing, and the second one gets it without the quotes: `"wow!"` is a query
      that is never compiled. */
  lemma {:induction false} QuotedTextReturnsIff(defs: Definitions, v: string, start: Option<string>,
                                                end: Option<string>)
    requires Standard(defs) && RequestTimesOk(defs, start, end) && LexerLaws.IsQuotable(v)
    ensures var text := "\"" + LexerLaws.Escape(v) + "\"";
            && !BareBang(text)
            && (CompileReturns(defs, text, start, end) <==> !BareBang(v))
    ensures v == "wow!" ==> BareBang(v)
  {
    var text := "\"" + LexerLaws.Escape(v) + "\"";
    PipelineLaws.QuotedSearch(v);
    ImplicitSearchReturnsIff(defs, text, start, end);
    PipelineLaws.AlwaysStartsWithSearch(text);
    if v == "wow!" {
      LexerLaws.QuoteFreeBang(v);
      assert LexerLaws.HasBang(v, 3);
    }
  }

  // ---- The built-in steps ----

  datatype BuiltIn =
    | Search(batches: seq<StepResult>)
    | Surrounding(batches: seq<StepResult>)
    | WhereStep(wanted: Fields)
    | RexStep(field: string, extract: string -> Fields)
    | TableStep(columns: seq<string>)

  function ToStep(b: BuiltIn): Step {
    match b
    case Search(batches) => Step("search", NoInput, Events, None, Generate(batches, true))
    case Surrounding(batches) => Step("surrounding", NoInput, Events, Some(PreserveArgOrder), Generate(batches, false))
    case WhereStep(wanted) => Step("where", Propagate, Propagate, None, Transform(r => Where(wanted, r)))
    case RexStep(field, extract) => Step("rex", Events, Events, None, Transform(r => Rex(field, extract, r)))
    case TableStep(columns) => Step("table", Events, Rows, None, Transform(r => Table(columns, r)))
  }

  /** What one more built-in step makes of a query's result. */
  lemma BuiltInRuns(bs: seq<BuiltIn>, b: BuiltIn, input: seq<StepResult>)
    ensures var before, after := RunAll(Map(ToStep, bs), input), RunAll(Map(ToStep, bs + [b]), input);
            && (b.Search? || b.Surrounding? ==> after == b.batches)
            && (!b.Search? && !b.Surrounding? ==> |after| == |before|)
            && (b.WhereStep? ==> forall k :: 0 <= k < |after| ==> after[k] == Where(b.wanted, before[k]))
            && (b.RexStep? ==> forall k :: 0 <= k < |after| ==> after[k] == Rex(b.field, b.extract, before[k]))
            && (b.TableStep? ==> forall k :: 0 <= k < |after| ==> after[k] == Table(b.columns, before[k]))
  {
    hide RunAll, Where, Rex, Table;
    assert Map(ToStep, bs + [b]) == Map(ToStep, bs) + [ToStep(b)];
    RunAllMeaning(Map(ToStep, bs), ToStep(b), input);
  }

  /** A query keeps the order of its results exactly if it has a surrounding step, and its first step looks at a
      cancellation exactly if it is a search. */
  lemma {:induction false} BuiltInModes(bs: seq<BuiltIn>, n: nat)
    requires n <= |bs|
    ensures SortModeOf(Map(ToStep, bs), n) ==
            if exists k :: 0 <= k < n && bs[k].Surrounding? then PreserveArgOrder else TimestampDesc
    ensures bs != [] && IsSource(bs[0]) ==>
      ToStep(bs[0]).behaviour.Generate? && (ToStep(bs[0]).behaviour.watches <==> bs[0].Search?)
  {
    if n > 0 {
      BuiltInModes(bs, n - 1);
    }
  }

  predicate IsSource(b: BuiltIn) {
    b.Search? || b.Surrounding?
  }

  /** A table step before position i. */
  predicate TableBefore(bs: seq<BuiltIn>, i: nat)
    requires i <= |bs|
  {
    exists k :: 0 <= k < i && bs[k].TableStep?
  }

  lemma {:induction false} ResolvedBuiltIn(bs: seq<BuiltIn>, i: nat)
    requires i < |bs| && IsSource(bs[0])
    requires forall k :: 1 <= k <= i ==> !IsSource(bs[k])
    requires forall k :: 1 <= k <= i && bs[k].RexStep? ==> !TableBefore(bs, k)
    ensures Resolved(Map(ToStep, bs), i) == if TableBefore(bs, i + 1) then Rows else Events
  {
    if i > 0 {
      ResolvedBuiltIn(bs, i - 1);
    }
  }

  /** Which queries over the built-in steps are well typed: after a table step only where steps. */
  lemma BuiltInWellTyped(bs: seq<BuiltIn>)
    requires bs != [] && IsSource(bs[0])
    requires forall k :: 1 <= k < |bs| ==> !IsSource(bs[k])
    ensures WellTyped(Map(ToStep, bs)) <==> forall k :: 1 <= k < |bs| && TableBefore(bs, k) ==> bs[k].WhereStep?
  {
    var steps := Map(ToStep, bs);
    if forall k :: 1 <= k < |bs| && TableBefore(bs, k) ==> bs[k].WhereStep? {
      forall i | 0 <= i < |steps|
        ensures StepFits(steps, i)
      {
        ResolvedBuiltIn(bs, i);
      }
    } else {
      var k :| 1 <= k < |bs| && TableBefore(bs, k) && !bs[k].WhereStep?;
      FirstAfterTable(bs, k);
    }
  }

  lemma {:induction false} FirstAfterTable(bs: seq<BuiltIn>, k: nat)
    requires bs != [] && IsSource(bs[0])
    requires forall i :: 1 <= i < |bs| ==> !IsSource(bs[i])
    requires 1 <= k < |bs| && TableBefore(bs, k) && !bs[k].WhereStep?
    ensures !WellTyped(Map(ToStep, bs))
  {
    var steps := Map(ToStep, bs);
    if j :| 1 <= j < k && TableBefore(bs, j) && !bs[j].WhereStep? {
      FirstAfterTable(bs, j);
    } else {
      ResolvedBuiltIn(bs, k - 1);
      assert !StepFits(steps, k - 1);
    }
  }
}
