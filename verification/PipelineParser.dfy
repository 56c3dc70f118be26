/** The command pipeline around a search (pkg/logsuck/parser/PipelineParser.go). */
module PipelineParser {
  import opened Common
  import opened Lexer
  import opened TokenCursor

  datatype ParsedStep = ParsedStep(stepType: string, args: map<string, string>, value: string)

  /** Where the implicit search ends: at the first pipe, or at the end. */
  function PipeIndex(ts: seq<Token>): (i: nat)
    ensures i <= |ts|
    ensures forall k :: 0 <= k < i ==> ts[k].typ != Pipe
    ensures i < |ts| ==> ts[i].typ == Pipe
  {
    if ts == [] || ts[0].typ == Pipe then 0 else 1 + PipeIndex(ts[1..])
  }

  /** The text the implicit search gets: token values joined without anything between them. */
  function JoinValues(ts: seq<Token>): string {
    if ts == [] then "" else ts[0].value + JoinValues(ts[1..])
  }

  function RequireError(ts: seq<Token>, expected: TokenType): ParseError {
    if ts == [] then UnexpectedEnd(expected) else UnexpectedToken(ts[0].typ, expected)
  }

  /** key=value pairs. A word that no `=` follows is consumed too, and ends the list. */
  function Options(step: string, ts: seq<Token>, args: map<string, string>)
    : (r: Result<(map<string, string>, seq<Token>), ParseError>)
    ensures r.Ok? ==> |r.value.1| <= |ts|
    decreases |ts|
  {
    if TypeAt(ts) == Str then
      var next := SkipSpace(ts[1..]);
      if TypeAt(next) != Equals then Ok((args, next))
      else
        var value := SkipSpace(next[1..]);
        if FragmentAt(value)
        then Options(step, SkipSpace(value[1..]), args[ts[0].value := value[0].value])
        else Err(ExpectedOptionValue(step))
    else
      Ok((args, ts))
  }

  function OneStep(ts: seq<Token>): (r: Result<(ParsedStep, seq<Token>), ParseError>)
    ensures r.Ok? ==> |r.value.1| < |ts|
  {
    var pipe := SkipSpace(ts);
    if TypeAt(pipe) != Pipe then Err(RequireError(pipe, Pipe))
    else
      var name := SkipSpace(pipe[1..]);
      if TypeAt(name) != Str then Err(RequireError(name, Str))
      else
        match Options(name[0].value, SkipSpace(name[1..]), map[])
        case Err(e) => Err(e)
        case Ok((args, rest)) =>
          if FragmentAt(rest) then Ok((ParsedStep(name[0].value, args, rest[0].value), rest[1..]))
          else Ok((ParsedStep(name[0].value, args, ""), rest))
  }

  function Steps(ts: seq<Token>, done: seq<ParsedStep>): Result<seq<ParsedStep>, ParseError>
    decreases |ts|
  {
    if ts == [] then Ok(done)
    else match OneStep(ts)
      case Err(e) => Err(e)
      case Ok((step, rest)) => Steps(rest, done + [step])
  }

  function PipelineOf(ts: seq<Token>): Result<seq<ParsedStep>, ParseError> {
    var i := PipeIndex(ts);
    Steps(ts[i..], [ParsedStep("search", map[], JoinValues(ts[..i]))])
  }

  function ParsePipelineText(input: string): Result<seq<ParsedStep>, ParseError>
    requires !Lex(input).Diverges?
  {
    match Lex(input)
    case Lexed(tokens) => PipelineOf(tokens)
    case Unclosed(offset) => Err(UnclosedQuote(offset))
  }

  // ---- The parser as written ----

  lemma {:induction false} JoinSnoc(ts: seq<Token>, t: Token)
    ensures JoinValues(ts + [t]) == JoinValues(ts) + t.value
  {
    if ts == [] {
      assert ts + [t] == [t];
      assert JoinValues([t][1..]) == "";
    } else {
      assert (ts + [t])[1..] == ts[1..] + [t];
      JoinSnoc(ts[1..], t);
    }
  }

  lemma {:induction false} PipeIndexIs(ts: seq<Token>, i: nat)
    requires i <= |ts|
    requires forall k :: 0 <= k < i ==> ts[k].typ != Pipe
    requires i < |ts| ==> ts[i].typ == Pipe
    ensures PipeIndex(ts) == i
  {
  }

  method ParseImplicitSearch(p: Parser) returns (value: string)
    modifies p
    ensures var i := PipeIndex(old(p.tokens));
            value == JoinValues(old(p.tokens)[..i]) && p.tokens == old(p.tokens)[i..]
  {
    value := "";
    ghost var all, i := p.tokens, 0;
    while |p.tokens| > 0 && p.Peek() != Pipe
      invariant 0 <= i <= |all| && p.tokens == all[i..]
      invariant forall k :: 0 <= k < i ==> all[k].typ != Pipe
      invariant value == JoinValues(all[..i])
      decreases |p.tokens|
    {
      JoinSnoc(all[..i], all[i]);
      assert all[..i + 1] == all[..i] + [all[i]];
      var t := p.Take();
      value := value + t.value;
      i := i + 1;
    }
    PipeIndexIs(all, i);
  }

  method ParseOptions(p: Parser, step: string) returns (r: Result<map<string, string>, ParseError>)
    modifies p
    ensures match Options(step, old(p.tokens), map[])
            case Ok((args, rest)) => r == Ok(args) && p.tokens == rest
            case Err(e) => r == Err(e)
  {
    var args: map<string, string> := map[];
    while p.Peek() == Str
      invariant Options(step, old(p.tokens), map[]) == Options(step, p.tokens, args)
      decreases |p.tokens|
    {
      var key := p.Take();
      p.SkipWhitespace();
      if p.Peek() != Equals {
        return Ok(args);
      }
      var eq := p.Require(Equals);
      assert eq.Ok?;
      p.SkipWhitespace();
      if p.Peek() != Str && p.Peek() != Quoted {
        return Err(ExpectedOptionValue(step));
      }
      var value := p.Take();
      args := args[key.value := value.value];
      p.SkipWhitespace();
    }
    return Ok(args);
  }

  method ParseStep(p: Parser) returns (r: Result<ParsedStep, ParseError>)
    modifies p
    ensures match OneStep(old(p.tokens))
            case Ok((step, rest)) => r == Ok(step) && p.tokens == rest
            case Err(e) => r == Err(e)
  {
    p.SkipWhitespace();
    var pipe := p.Require(Pipe);
    if pipe.Err? {
      return Err(pipe.error);
    }
    p.SkipWhitespace();
    var stepType := p.Require(Str);
    if stepType.Err? {
      return Err(stepType.error);
    }
    p.SkipWhitespace();
    var args := ParseOptions(p, stepType.value.value);
    if args.Err? {
      return Err(args.error);
    }
    var value := "";
    if p.Peek() == Quoted || p.Peek() == Str {
      var t := p.Take();
      value := t.value;
    }
    return Ok(ParsedStep(stepType.value.value, args.value, value));
  }

  method ParsePipeline(input: string) returns (r: Result<seq<ParsedStep>, ParseError>)
    requires !BareBang(input)
    ensures !Lex(input).Diverges? && r == ParsePipelineText(input)
  {
    DivergesIff(input);
    var tk := new Tokenizer();
    var tokens := tk.Tokenize(input);
    if tokens.Err? {
      return Err(UnclosedQuote(tokens.error));
    }
    var p := new Parser(tokens.value);
    var steps: seq<ParsedStep>;
    if p.Peek() != Pipe {
      var value := ParseImplicitSearch(p);
      steps := [ParsedStep("search", map[], value)];
    } else {
      assert PipeIndex(tokens.value) == 0;
      assert tokens.value[..0] == [] && tokens.value[0..] == tokens.value;
      steps := [ParsedStep("search", map[], "")];
    }
    while |p.tokens| > 0
      invariant PipelineOf(tokens.value) == Steps(p.tokens, steps)
      decreases |p.tokens|
    {
      var step := ParseStep(p);
      if step.Err? {
        return Err(step.error);
      }
      steps := steps + [step.value];
    }
    return Ok(steps);
  }
}
