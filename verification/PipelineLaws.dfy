/** What a pipeline text means, stated on a search text and a list of commands. */
module PipelineLaws {
  import opened Common
  import opened Lexer
  import opened LexerLaws
  import opened TokenCursor
  import opened PipelineParser
  import opened SearchLaws

  /** key=value, with `gap` in front and optional white space around the `=`. */
  datatype CommandOption = Opt(gap: string, key: string, opt: string, lit: Literal)

  /** What follows the options: a quoted text, a bare word, keyword or not, or behind one of these another key=value,
      with `opt` around its `=`. */
  datatype Argument = Arg(gap: string, lit: Literal, opt: string, setTo: Option<Literal>)

  /** A command: `| <stepType> <options> <arguments>`. As documented it has at most one argument, which is quoted. */
  datatype Command = Command(afterPipe: string, stepType: string, options: seq<CommandOption>, args: seq<Argument>,
    sep: string)

  predicate ValidOption(o: CommandOption) {
    AllSpace(o.gap) && o.gap != "" && AllSpace(o.opt) && PlainWord(o.key) && ValidLiteral(o.lit)
  }

  predicate ValidOptions(os: seq<CommandOption>) {
    forall k :: 0 <= k < |os| ==> ValidOption(os[k])
  }

  predicate ValidArgument(a: Argument) {
    && AllSpace(a.gap) && a.gap != "" && AllSpace(a.opt)
    && (if a.lit.quoted then IsQuotable(a.lit.text) else IsWord(a.lit.text))
    && (a.setTo.Some? ==> !a.lit.quoted && ValidLiteral(a.setTo.value))
  }

  /** A key=value directly after the options is one of them. */
  predicate ValidArguments(args: seq<Argument>) {
    && (forall k :: 0 <= k < |args| ==> ValidArgument(args[k]))
    && (args != [] ==> args[0].setTo.None?)
  }

  predicate ValidCommand(c: Command) {
    && AllSpace(c.afterPipe) && PlainWord(c.stepType) && ValidOptions(c.options) && ValidArguments(c.args)
    && AllSpace(c.sep)
  }

  predicate ValidCommands(cs: seq<Command>) {
    forall k :: 0 <= k < |cs| ==> ValidCommand(cs[k])
  }

  function ArgumentToken(a: Argument): Token {
    Token(if a.lit.quoted then Quoted else if IsKeyword(a.lit.text) then Keyword else Str, a.lit.text)
  }

  /** The rest of an argument after its first token. */
  function AssignedThen(a: Argument, rest: seq<Token>): seq<Token> {
    match a.setTo
    case None => rest
    case Some(lit) => SpacesThen(a.opt, [Token(Equals, "=")] + SpacesThen(a.opt, [LiteralToken(lit)] + rest))
  }

  function ArgumentsThen(args: seq<Argument>, rest: seq<Token>): seq<Token> {
    if args == [] then rest
    else SpacesThen(args[0].gap, [ArgumentToken(args[0])] + AssignedThen(args[0], ArgumentsThen(args[1..], rest)))
  }

  function OptionsThen(os: seq<CommandOption>, rest: seq<Token>): seq<Token> {
    if os == [] then rest
    else SpacesThen(os[0].gap, [Token(Str, os[0].key)] + SpacesThen(os[0].opt, [Token(Equals, "=")] +
           SpacesThen(os[0].opt, [LiteralToken(os[0].lit)] + OptionsThen(os[1..], rest))))
  }

  function CommandThen(c: Command, rest: seq<Token>): seq<Token> {
    [Token(Pipe, "|")] +
    SpacesThen(c.afterPipe, [Token(Str, c.stepType)] + OptionsThen(c.options, ArgumentsThen(c.args, rest)))
  }

  function CommandTokens(cs: seq<Command>): seq<Token> {
    if cs == [] then [] else CommandThen(cs[0], SpacesThen(cs[0].sep, CommandTokens(cs[1..])))
  }

  // ---- Which argument is the value ----

  predicate IsBare(a: Argument) {
    ArgumentToken(a).typ == Str
  }

  /** A bare word in front is taken for the name of an option, and dropped. */
  function Lead(args: seq<Argument>): seq<Argument> {
    if args != [] && IsBare(args[0]) then args[1..] else args
  }

  function ValueOf(args: seq<Argument>): string {
    var lead := Lead(args);
    if lead == [] || ArgumentToken(lead[0]).typ == Keyword then "" else lead[0].lit.text
  }

  /** What stands where a pipe should have come: a keyword, the `=` behind a word taken as the value, or one more
      argument. */
  function Problem(args: seq<Argument>): Option<TokenType> {
    var lead := Lead(args);
    if lead == [] then None
    else if ArgumentToken(lead[0]).typ == Keyword then Some(Keyword)
    else if lead[0].setTo.Some? then Some(Equals)
    else if |lead| > 1 then Some(ArgumentToken(lead[1]).typ)
    else None
  }

  predicate TakesValue(args: seq<Argument>) {
    Lead(args) != [] && ArgumentToken(Lead(args)[0]).typ != Keyword
  }

  /** Later options win. */
  function ArgsOf(os: seq<CommandOption>, args: map<string, string>): map<string, string> {
    if os == [] then args else ArgsOf(os[1..], args[os[0].key := os[0].lit.text])
  }

  function StepOf(c: Command): ParsedStep {
    ParsedStep(c.stepType, ArgsOf(c.options, map[]), ValueOf(c.args))
  }

  function StepsOf(cs: seq<Command>): (r: seq<ParsedStep>)
    ensures |r| == |cs|
  {
    seq(|cs|, k requires 0 <= k < |cs| => StepOf(cs[k]))
  }

  // ---- The printed tokens are canonical ----

  lemma {:induction false} OptionsCanonical(os: seq<CommandOption>, rest: seq<Token>)
    requires ValidOptions(os) && Canonical(rest) && Separate(rest)
    ensures Canonical(OptionsThen(os, rest)) && Separate(OptionsThen(os, rest))
  {
    if os != [] {
      var o := os[0];
      OptionsCanonical(os[1..], rest);
      var t1 := [LiteralToken(o.lit)] + OptionsThen(os[1..], rest);
      ConsCanonical(LiteralToken(o.lit), OptionsThen(os[1..], rest));
      SpacesCanonical(o.opt, t1);
      var t2 := [Token(Equals, "=")] + SpacesThen(o.opt, t1);
      ConsCanonical(Token(Equals, "="), SpacesThen(o.opt, t1));
      SpacesSeparate(o.opt, t2);
      var t3 := [Token(Str, o.key)] + SpacesThen(o.opt, t2);
      ConsCanonical(Token(Str, o.key), SpacesThen(o.opt, t2));
      SpacesSeparate(o.gap, t3);
    }
  }

  lemma AssignedCanonical(a: Argument, rest: seq<Token>)
    requires ValidArgument(a) && Canonical(rest) && Separate(rest)
    ensures Canonical(AssignedThen(a, rest)) && Separate(AssignedThen(a, rest))
  {
    if a.setTo.Some? {
      var value := [LiteralToken(a.setTo.value)] + rest;
      ConsCanonical(LiteralToken(a.setTo.value), rest);
      SpacesCanonical(a.opt, value);
      ConsCanonical(Token(Equals, "="), SpacesThen(a.opt, value));
      SpacesSeparate(a.opt, [Token(Equals, "=")] + SpacesThen(a.opt, value));
    }
  }

  lemma {:induction false} ArgumentsCanonical(args: seq<Argument>, rest: seq<Token>)
    requires forall k :: 0 <= k < |args| ==> ValidArgument(args[k])
    requires Canonical(rest) && Separate(rest)
    ensures Canonical(ArgumentsThen(args, rest)) && Separate(ArgumentsThen(args, rest))
  {
    if args != [] {
      ArgumentsCanonical(args[1..], rest);
      var after := ArgumentsThen(args[1..], rest);
      AssignedCanonical(args[0], after);
      ConsCanonical(ArgumentToken(args[0]), AssignedThen(args[0], after));
      SpacesSeparate(args[0].gap, [ArgumentToken(args[0])] + AssignedThen(args[0], after));
    }
  }

  lemma CommandCanonical(c: Command, rest: seq<Token>)
    requires ValidCommand(c) && Canonical(rest) && Separate(rest)
    ensures Canonical(CommandThen(c, rest)) && Separate(CommandThen(c, rest))
  {
    var after := ArgumentsThen(c.args, rest);
    ArgumentsCanonical(c.args, rest);
    OptionsCanonical(c.options, after);
    var name := [Token(Str, c.stepType)] + OptionsThen(c.options, after);
    ConsCanonical(Token(Str, c.stepType), OptionsThen(c.options, after));
    SpacesCanonical(c.afterPipe, name);
    ConsCanonical(Token(Pipe, "|"), SpacesThen(c.afterPipe, name));
  }

  lemma {:induction false} CommandsCanonical(cs: seq<Command>)
    requires ValidCommands(cs)
    ensures Canonical(CommandTokens(cs)) && Separate(CommandTokens(cs))
  {
    if cs != [] {
      CommandsCanonical(cs[1..]);
      SpacesSeparate(cs[0].sep, CommandTokens(cs[1..]));
      CommandCanonical(cs[0], SpacesThen(cs[0].sep, CommandTokens(cs[1..])));
    }
  }

  // ---- Parsing the printed tokens ----

  lemma {:induction false} OptionsParse(step: string, os: seq<CommandOption>, rest: seq<Token>,
                                        args: map<string, string>)
    ensures Options(step, SkipSpace(OptionsThen(os, rest)), args) == Options(step, SkipSpace(rest), ArgsOf(os, args))
  {
    if os != [] {
      var o := os[0];
      var more := OptionsThen(os[1..], rest);
      var t1 := [LiteralToken(o.lit)] + more;
      var t2 := [Token(Equals, "=")] + SpacesThen(o.opt, t1);
      var t3 := [Token(Str, o.key)] + SpacesThen(o.opt, t2);
      SkipSpaces(o.gap, t3);
      SkipSpaces(o.opt, t2);
      SkipSpaces(o.opt, t1);
      assert t3[1..] == SpacesThen(o.opt, t2) && t2[1..] == SpacesThen(o.opt, t1) && t1[1..] == more;
      OptionsParse(step, os[1..], rest, args[o.key := o.lit.text]);
    }
  }

  /** What can follow a command: another one, or the end. */
  predicate CommandEnds(rest: seq<Token>) {
    TypeAt(SkipSpace(rest)) == Pipe || SkipSpace(rest) == []
  }

  lemma ArgumentsStart(args: seq<Argument>, rest: seq<Token>)
    requires args != []
    ensures var ts := SkipSpace(ArgumentsThen(args, rest));
            && ts == [ArgumentToken(args[0])] + AssignedThen(args[0], ArgumentsThen(args[1..], rest))
            && ts[0] == ArgumentToken(args[0])
            && ts[1..] == AssignedThen(args[0], ArgumentsThen(args[1..], rest))
  {
    SkipSpaces(args[0].gap, [ArgumentToken(args[0])] + AssignedThen(args[0], ArgumentsThen(args[1..], rest)));
  }

  lemma LeadParse(step: string, args: seq<Argument>, rest: seq<Token>, opts: map<string, string>)
    requires CommandEnds(rest) && (args != [] ==> args[0].setTo.None?)
    ensures Options(step, SkipSpace(ArgumentsThen(args, rest)), opts) ==
            Ok((opts, SkipSpace(ArgumentsThen(Lead(args), rest))))
  {
    if args != [] {
      ArgumentsStart(args, rest);
      if IsBare(args[0]) && |args| > 1 {
        ArgumentsStart(args[1..], rest);
      }
    }
  }

  /** What is left after a command: white space is consumed with it unless it has taken a value. */
  function LeftOver(args: seq<Argument>, rest: seq<Token>): seq<Token> {
    var lead := Lead(args);
    if TakesValue(args) then AssignedThen(lead[0], ArgumentsThen(lead[1..], rest))
      else SkipSpace(ArgumentsThen(lead, rest))
  }

  /** Where the options end, the value is taken if there is one. */
  lemma ValueParse(args: seq<Argument>, rest: seq<Token>)
    requires CommandEnds(rest)
    ensures var ts := SkipSpace(ArgumentsThen(Lead(args), rest));
            && (FragmentAt(ts) <==> TakesValue(args))
            && (TakesValue(args) ==> ts[0].value == ValueOf(args) && ts[1..] == LeftOver(args, rest))
            && (!TakesValue(args) ==> ValueOf(args) == "" && ts == LeftOver(args, rest))
  {
    var lead := Lead(args);
    if lead != [] {
      ArgumentsStart(lead, rest);
    }
  }

  lemma CommandParse(c: Command, rest: seq<Token>)
    requires CommandEnds(rest) && (c.args != [] ==> c.args[0].setTo.None?)
    ensures OneStep(CommandThen(c, rest)) == Ok((StepOf(c), LeftOver(c.args, rest)))
  {
    var after := ArgumentsThen(c.args, rest);
    var name := [Token(Str, c.stepType)] + OptionsThen(c.options, after);
    var ts := CommandThen(c, rest);
    assert ts[1..] == SpacesThen(c.afterPipe, name) && name[1..] == OptionsThen(c.options, after);
    SkipSpaces(c.afterPipe, name);
    OptionsParse(c.stepType, c.options, after, map[]);
    LeadParse(c.stepType, c.args, rest, ArgsOf(c.options, map[]));
    ValueParse(c.args, rest);
    hide OptionsThen, ArgumentsThen, AssignedThen, Options, ArgsOf, LeftOver, Lead, TakesValue, ValueOf, SpacesThen;
  }

  lemma CommandsStart(cs: seq<Command>)
    ensures SkipSpace(CommandTokens(cs)) == CommandTokens(cs)
    ensures TypeAt(CommandTokens(cs)) == if cs == [] then Invalid else Pipe
  {
  }

  /** A key is among the options of a command if and only if one of them has it, and of several the last one counts. */
  lemma {:induction false} OptionsMeaning(os: seq<CommandOption>, args: map<string, string>, key: string)
    ensures key in ArgsOf(os, args) <==> key in args || exists k :: 0 <= k < |os| && os[k].key == key
    ensures (forall k :: 0 <= k < |os| ==> os[k].key != key) && key in args ==> ArgsOf(os, args)[key] == args[key]
    ensures forall k :: 0 <= k < |os| && os[k].key == key && (forall j :: k < j < |os| ==> os[j].key != key) ==>
      key in ArgsOf(os, args) && ArgsOf(os, args)[key] == os[k].lit.text
  {
    if os != [] {
      var rest := os[1..];
      OptionsMeaning(rest, args[os[0].key := os[0].lit.text], key);
      assert forall k :: 0 <= k < |rest| ==> rest[k] == os[k + 1];
      if k :| 0 <= k < |os| && os[k].key == key {
        assert k > 0 ==> rest[k - 1].key == key;
      }
      forall k | 0 <= k < |os| && os[k].key == key && (forall j :: k < j < |os| ==> os[j].key != key)
        ensures key in ArgsOf(os, args) && ArgsOf(os, args)[key] == os[k].lit.text
      {
        if k > 0 {
          assert rest[k - 1].key == key && forall j :: k - 1 < j < |rest| ==> rest[j].key != key;
        } else {
          assert forall j :: 0 <= j < |rest| ==> rest[j].key != key;
        }
      }
    }
  }

  /** What goes wrong in a command, in any spacing: no pipe, no bare word for its name, or an option without a value. */
  lemma StepErrors(afterPipe: string, name: string, os: seq<CommandOption>, o: CommandOption, before: string,
                   rest: seq<Token>)
    requires TypeAt(rest) != Whitespace
    ensures TypeAt(rest) != Pipe ==>
      OneStep(SpacesThen(before, rest)) ==
      Err(if rest == [] then UnexpectedEnd(Pipe) else UnexpectedToken(rest[0].typ, Pipe))
    ensures TypeAt(rest) != Str ==>
      OneStep(SpacesThen(before, [Token(Pipe, "|")] + SpacesThen(afterPipe, rest))) ==
      Err(if rest == [] then UnexpectedEnd(Str) else UnexpectedToken(rest[0].typ, Str))
    ensures TypeAt(rest) != Str && TypeAt(rest) != Quoted ==>
      OneStep(SpacesThen(before, [Token(Pipe, "|")] + SpacesThen(afterPipe, [Token(Str, name)] +
        OptionsThen(os, SpacesThen(o.gap, [Token(Str, o.key)] + SpacesThen(o.opt, [Token(Equals, "=")] +
          SpacesThen(o.opt, rest))))))) == Err(ExpectedOptionValue(name))
  {
    SkipSpaces(before, rest);
    NamelessStep(afterPipe, before, rest);
    if TypeAt(rest) != Str && TypeAt(rest) != Quoted {
      OptionWithoutValue(name, o, rest, ArgsOf(os, map[]));
      var last := SpacesThen(o.gap, [Token(Str, o.key)] + SpacesThen(o.opt, [Token(Equals, "=")] +
        SpacesThen(o.opt, rest)));
      OptionsParse(name, os, last, map[]);
      var named := [Token(Str, name)] + OptionsThen(os, last);
      NamedStep(afterPipe, before, named);
      assert named[1..] == OptionsThen(os, last);
    }
  }

  lemma NamelessStep(afterPipe: string, before: string, rest: seq<Token>)
    requires TypeAt(rest) != Whitespace
    ensures TypeAt(rest) != Str ==>
      OneStep(SpacesThen(before, [Token(Pipe, "|")] + SpacesThen(afterPipe, rest))) ==
      Err(if rest == [] then UnexpectedEnd(Str) else UnexpectedToken(rest[0].typ, Str))
  {
    var pipe := [Token(Pipe, "|")] + SpacesThen(afterPipe, rest);
    SkipSpaces(before, pipe);
    assert pipe[1..] == SpacesThen(afterPipe, rest);
    SkipSpaces(afterPipe, rest);
  }

  lemma NamedStep(afterPipe: string, before: string, named: seq<Token>)
    requires TypeAt(named) == Str && Options(named[0].value, SkipSpace(named[1..]), map[]).Err?
    ensures OneStep(SpacesThen(before, [Token(Pipe, "|")] + SpacesThen(afterPipe, named))) ==
            Err(Options(named[0].value, SkipSpace(named[1..]), map[]).error)
  {
    var pipe := [Token(Pipe, "|")] + SpacesThen(afterPipe, named);
    SkipSpaces(before, pipe);
    assert pipe[1..] == SpacesThen(afterPipe, named);
    SkipSpaces(afterPipe, named);
  }

  lemma OptionWithoutValue(name: string, o: CommandOption, rest: seq<Token>, args: map<string, string>)
    requires TypeAt(rest) != Whitespace && TypeAt(rest) != Str && TypeAt(rest) != Quoted
    ensures var ts := SpacesThen(o.gap, [Token(Str, o.key)] + SpacesThen(o.opt, [Token(Equals, "=")] +
              SpacesThen(o.opt, rest)));
            Options(name, SkipSpace(ts), args) == Err(ExpectedOptionValue(name))
  {
    var equals := [Token(Equals, "=")] + SpacesThen(o.opt, rest);
    var key := [Token(Str, o.key)] + SpacesThen(o.opt, equals);
    SkipSpaces(o.gap, key);
    SkipSpaces(o.opt, equals);
    SkipSpaces(o.opt, rest);
    assert key[1..] == SpacesThen(o.opt, equals) && equals[1..] == SpacesThen(o.opt, rest);
  }

  /** Why a list of commands is not accepted. The first command with something left over fails at that place; and
      white space after the value of the last command is an error, although it is allowed everywhere else. */
  function Failure(cs: seq<Command>): Option<ParseError> {
    if cs == [] then None
    else if Problem(cs[0].args).Some? then Some(UnexpectedToken(Problem(cs[0].args).value, Pipe))
    else if |cs| == 1 && TakesValue(cs[0].args) && cs[0].sep != "" then Some(UnexpectedEnd(Pipe))
    else Failure(cs[1..])
  }

  lemma StepsSkip(ts: seq<Token>, done: seq<ParsedStep>)
    requires SkipSpace(ts) != []
    ensures Steps(ts, done) == Steps(SkipSpace(ts), done)
  {
    SkipTwice(ts);
  }

  lemma {:induction false} SkipTwice(ts: seq<Token>)
    ensures SkipSpace(SkipSpace(ts)) == SkipSpace(ts)
  {
    if TypeAt(ts) == Whitespace {
      SkipTwice(ts[1..]);
    }
  }

  lemma StepsOne(ts: seq<Token>, done: seq<ParsedStep>, step: ParsedStep, rest: seq<Token>)
    requires ts != [] && OneStep(ts) == Ok((step, rest))
    ensures Steps(ts, done) == Steps(rest, done + [step])
  {
  }

  lemma NoPipe(ts: seq<Token>, done: seq<ParsedStep>)
    requires ts != [] && TypeAt(SkipSpace(ts)) != Pipe
    ensures Steps(ts, done) == Err(RequireError(SkipSpace(ts), Pipe))
  {
  }

  lemma ProblemStart(args: seq<Argument>, rest: seq<Token>)
    requires Problem(args).Some?
    ensures LeftOver(args, rest) != [] && TypeAt(SkipSpace(LeftOver(args, rest))) == Problem(args).value
  {
    var lead := Lead(args);
    ArgumentsStart(lead, rest);
    if !TakesValue(args) {
      SkipTwice(ArgumentsThen(lead, rest));
    } else if lead[0].setTo.Some? {
      var a := lead[0];
      SkipSpaces(a.opt, [Token(Equals, "=")] + SpacesThen(a.opt,
        [LiteralToken(a.setTo.value)] + ArgumentsThen(lead[1..], rest)));
    } else {
      ArgumentsStart(lead[1..], rest);
    }
  }

  lemma ProblemFails(args: seq<Argument>, rest: seq<Token>, done: seq<ParsedStep>)
    requires Problem(args).Some?
    ensures Steps(LeftOver(args, rest), done) == Err(UnexpectedToken(Problem(args).value, Pipe))
  {
    ProblemStart(args, rest);
    NoPipe(LeftOver(args, rest), done);
  }

  lemma NoProblem(args: seq<Argument>, rest: seq<Token>)
    requires Problem(args).None?
    ensures LeftOver(args, rest) == if TakesValue(args) then rest else SkipSpace(rest)
  {
  }

  lemma FirstCommand(cs: seq<Command>, done: seq<ParsedStep>)
    requires cs != [] && (cs[0].args != [] ==> cs[0].args[0].setTo.None?)
    ensures Steps(CommandTokens(cs), done) ==
            if Problem(cs[0].args).Some? then Err(UnexpectedToken(Problem(cs[0].args).value, Pipe))
            else if |cs| == 1 && TakesValue(cs[0].args) && cs[0].sep != "" then Err(UnexpectedEnd(Pipe))
            else Steps(CommandTokens(cs[1..]), done + [StepOf(cs[0])])
  {
    var c, tail := cs[0], CommandTokens(cs[1..]);
    var rest := SpacesThen(c.sep, tail);
    var done' := done + [StepOf(c)];
    CommandsStart(cs[1..]);
    SkipSpaces(c.sep, tail);
    CommandParse(c, rest);
    StepsOne(CommandTokens(cs), done, StepOf(c), LeftOver(c.args, rest));
    hide OneStep, CommandThen, LeftOver;
    if Problem(c.args).Some? {
      ProblemFails(c.args, rest, done');
    } else {
      NoProblem(c.args, rest);
      if |cs| > 1 {
        StepsSkip(rest, done');
      } else if c.sep != "" && TakesValue(c.args) {
        NoPipe(rest, done');
      }
    }
  }

  lemma StepsOfCons(cs: seq<Command>, done: seq<ParsedStep>)
    requires cs != []
    ensures done + [StepOf(cs[0])] + StepsOf(cs[1..]) == done + StepsOf(cs)
  {
  }

  lemma {:induction false} CommandsParse(cs: seq<Command>, done: seq<ParsedStep>)
    requires ValidCommands(cs)
    ensures Steps(CommandTokens(cs), done) ==
            if Failure(cs).Some? then Err(Failure(cs).value) else Ok(done + StepsOf(cs))
  {
    if cs == [] {
      assert done + StepsOf(cs) == done;
    } else {
      FirstCommand(cs, done);
      CommandsParse(cs[1..], done + [StepOf(cs[0])]);
      StepsOfCons(cs, done);
    }
  }

  // ---- The implicit search ----

  /** Text without quotes lexes, or runs into a bare `!`; its tokens have no quotes, nor pipes if it has none. */
  lemma {:induction false} PlainText(s: string)
    requires '"' !in s && '|' !in s && !Lex(s).Diverges?
    ensures Lex(s).Lexed? && QuoteFree(Lex(s).tokens)
    ensures forall k :: 0 <= k < |Lex(s).tokens| ==> Lex(s).tokens[k].typ != Pipe
    decreases |s|
  {
    if s != "" {
      assert s[0] in s;
      var first := FirstToken(s);
      var tail := s[first.width..];
      assert forall c :: c in tail ==> c in s;
      PlainText(tail);
      var ts := Lex(s).tokens;
      assert ts[0] == first.tok && ts[1..] == Lex(tail).tokens;
      forall k | 0 <= k < |ts|
        ensures ts[k].typ != Quoted && ts[k].typ != Pipe
      {
        if k > 0 {
          assert ts[k] == Lex(tail).tokens[k - 1];
        }
      }
    }
  }

  lemma {:induction false} JoinIsValues(ts: seq<Token>)
    ensures JoinValues(ts) == Values(ts)
  {
    if ts != [] {
      JoinIsValues(ts[1..]);
    }
  }

  /** Where the first pipe character stands, or the end. */
  function PipeAt(s: string): (p: nat)
    ensures p <= |s|
    ensures p < |s| ==> s[p] == '|'
    ensures forall k :: 0 <= k < p ==> s[k] != '|'
  {
    if s == "" || s[0] == '|' then 0 else 1 + PipeAt(s[1..])
  }

  lemma PipeAtIs(s: string, p: nat)
    requires p <= |s| && (p < |s| ==> s[p] == '|') && forall k :: 0 <= k < p ==> s[k] != '|'
    ensures PipeAt(s) == p
  {
  }

  lemma FirstTokenHasNoPipe(s: string)
    requires s != "" && s[0] != '"' && FirstToken(s).Emit?
    ensures var first := FirstToken(s);
            && first.tok.typ != Quoted
            && first.tok.value == s[..first.width]
            && (first.tok.typ == Pipe <==> s[0] == '|')
            && (s[0] != '|' ==> forall k :: 0 <= k < first.width ==> s[k] != '|')
  {
    hide FindStringEnd, Unescape;
    if IsSpace(s[0]) {
      assert [s[0]] == s[..1];
    }
  }

  lemma PipeAtStep(s: string, w: nat)
    requires w <= |s| && forall k :: 0 <= k < w ==> s[k] != '|'
    ensures PipeAt(s) == w + PipeAt(s[w..])
  {
    PipeAtIs(s, w + PipeAt(s[w..]));
  }

  lemma LexStep(s: string)
    requires s != "" && s[0] != '"' && !Lex(s).Diverges?
    ensures var first := FirstToken(s);
            && first.Emit? && 0 < first.width <= |s|
            && var tail := Lex(s[first.width..]);
               !tail.Diverges? && (tail.Lexed? ==> Lex(s) == Lexed([first.tok] + tail.tokens))
  {
  }

  lemma JoinFirst(t: Token, more: seq<Token>)
    ensures var ts := [t] + more;
            JoinValues(ts[..PipeIndex(ts)]) ==
            if t.typ == Pipe then "" else t.value + JoinValues(more[..PipeIndex(more)])
  {
    var ts := [t] + more;
    assert ts[1..] == more;
    if t.typ != Pipe {
      assert ts[..PipeIndex(ts)][1..] == more[..PipeIndex(more)];
    }
  }

  /** On a text without quotes the implicit search gets exactly the text before the first pipe. */
  lemma {:induction false} ImplicitSearchText(s: string)
    requires '"' !in s && !Lex(s).Diverges?
    ensures Lex(s).Lexed?
    ensures var ts := Lex(s).tokens; JoinValues(ts[..PipeIndex(ts)]) == s[..PipeAt(s)]
    decreases |s|
  {
    hide Lex, FirstToken, PipeAt, JoinValues, PipeIndex;
    if s == "" {
      LexEmpty();
      NothingToJoin();
    } else {
      assert s[0] in s;
      LexStep(s);
      FirstTokenHasNoPipe(s);
      var first := FirstToken(s);
      var w := first.width;
      var tail := s[w..];
      assert forall c :: c in tail ==> c in s;
      ImplicitSearchText(tail);
      JoinFirst(first.tok, Lex(tail).tokens);
      if s[0] == '|' {
        PipeAtIs(s, 0);
      } else {
        PipeAtStep(s, w);
        assert s[..w + PipeAt(tail)] == s[..w] + tail[..PipeAt(tail)];
      }
    }
  }

  lemma NothingToJoin()
    ensures JoinValues([]) == "" && PipeIndex([]) == 0
  {
  }

  lemma {:induction false} UnescapeShorter(v: string)
    ensures |Unescape(v)| <= |v|
  {
    if |v| >= 2 {
      if v[0] == '\\' && v[1] == '"' {
        UnescapeShorter(v[2..]);
      } else {
        UnescapeShorter(v[1..]);
      }
    }
  }

  lemma SpelledLength(piece: string, t: Token)
    requires Spells(piece, t)
    ensures |t.value| <= |piece|
    ensures |t.value| == |piece| <==> t.typ != Quoted
  {
    if t.typ == Quoted {
      var cut :| 1 < cut <= |piece| && t.value == Unescape(piece[1..cut]);
      UnescapeShorter(piece[1..cut]);
    }
  }

  lemma {:induction false} JoinedLength(pieces: seq<string>, ts: seq<Token>)
    requires |pieces| == |ts| && forall k :: 0 <= k < |ts| ==> Spells(pieces[k], ts[k])
    ensures |JoinValues(ts)| <= |Flatten(pieces)|
    ensures JoinValues(ts) == Flatten(pieces) <==> QuoteFree(ts)
    ensures |JoinValues(ts)| == |Flatten(pieces)| ==> QuoteFree(ts)
  {
    if ts != [] {
      SpelledLength(pieces[0], ts[0]);
      JoinedLength(pieces[1..], ts[1..]);
      if QuoteFree(ts) {
        assert QuoteFree(ts[1..]);
      }
      if QuoteFree(ts[1..]) && ts[0].typ != Quoted {
        assert forall k :: 0 < k < |ts| ==> ts[k] == ts[1..][k - 1];
      }
    }
  }

  /** On any text, the implicit search gets the text before the first pipe token unchanged if and only if that text
      has no quoted part. */
  lemma {:induction false} ImplicitSearchUnchangedIff(s: string)
    requires Lex(s).Lexed?
    ensures |Pieces(s)| == |Lex(s).tokens| && Flatten(Pieces(s)) == s
    ensures var ts := Lex(s).tokens;
            var i := PipeIndex(ts);
            JoinValues(ts[..i]) == Flatten(Pieces(s)[..i]) <==> QuoteFree(ts[..i])
  {
    Tiling(s);
    var i := PipeIndex(Lex(s).tokens);
    JoinedLength(Pieces(s)[..i], Lex(s).tokens[..i]);
  }

  /** A search text without quotes, pipes and bare `!`, followed by any list of commands: the text is handed to the
      search step unchanged, and every command comes back with its options and its value, or the text is refused at the
      place the list itself tells. */
  lemma {:induction false} PipelineTextRoundTrip(search: string, cs: seq<Command>)
    requires ValidText(search) && '"' !in search && '|' !in search && !BareBang(search)
    requires ValidCommands(cs)
    ensures var text := search + Print(CommandTokens(cs));
            && !BareBang(text)
            && !Lex(text).Diverges?
            && ParsePipelineText(text) ==
               if Failure(cs).Some? then Err(Failure(cs).value)
               else Ok([ParsedStep("search", map[], search)] + StepsOf(cs))
  {
    DivergesIff(search);
    PlainText(search);
    LexedIsCanonical(search);
    QuoteFreeValues(search);
    var a, b := Lex(search).tokens, CommandTokens(cs);
    QuoteFreePrint(a);
    CommandsCanonical(cs);
    CanonicalAppend(a, b);
    PrintAppend(a, b);
    LexPrint(a + b);
    DivergesIff(Print(a + b));
    CommandsStart(cs);
    PipeIndexIs(a + b, |a|);
    assert (a + b)[..|a|] == a && (a + b)[|a|..] == b;
    JoinIsValues(a);
    CommandsParse(cs, [ParsedStep("search", map[], search)]);
  }

  /** Whatever is typed, a pipeline that parses starts with a search step without options. Its value are the joined
      values of the tokens before the first pipe; for a text without quotes this is the text before the first pipe
      itself. */
  lemma {:induction false} AlwaysStartsWithSearch(input: string)
    requires !Lex(input).Diverges?
    ensures var r := ParsePipelineText(input);
            r.Ok? ==>
              && Lex(input).Lexed?
              && |r.value| >= 1
              && r.value[0] == ParsedStep("search", map[],
                JoinValues(Lex(input).tokens[..PipeIndex(Lex(input).tokens)]))
              && ('"' !in input ==> r.value[0].value == input[..PipeAt(input)])
  {
    if Lex(input).Lexed? {
      var ts := Lex(input).tokens;
      var i := PipeIndex(ts);
      StepsExtend(ts[i..], [ParsedStep("search", map[], JoinValues(ts[..i]))]);
      if '"' !in input {
        ImplicitSearchText(input);
      }
    }
  }

  lemma {:induction false} StepsExtend(ts: seq<Token>, done: seq<ParsedStep>)
    ensures var r := Steps(ts, done); r.Ok? ==> done <= r.value
    decreases |ts|
  {
    if ts != [] {
      var step := OneStep(ts);
      if step.Ok? {
        StepsExtend(step.value.1, done + [step.value.0]);
      }
    }
  }

  // ---- Values and quotes ----

  predicate Within(a: seq<Token>, b: seq<Token>) {
    forall t :: t in a ==> t in b
  }

  lemma {:induction false} SkipWithin(ts: seq<Token>)
    ensures Within(SkipSpace(ts), ts)
  {
    if TypeAt(ts) == Whitespace {
      SkipWithin(ts[1..]);
    }
  }

  lemma TailWithin(ts: seq<Token>)
    ensures ts != [] ==> Within(ts[1..], ts) && Within(SkipSpace(ts[1..]), ts)
  {
    if ts != [] {
      SkipWithin(ts[1..]);
    }
  }

  /** The value of a step is empty or that of a word or a quoted token. */
  predicate ValueFrom(value: string, ts: seq<Token>) {
    value == "" || exists t :: t in ts && (t.typ == Str || t.typ == Quoted) && t.value == value
  }

  lemma {:induction false} OptionsWithin(step: string, ts: seq<Token>, args: map<string, string>)
    ensures var r := Options(step, ts, args); r.Ok? ==> Within(r.value.1, ts)
    decreases |ts|
  {
    if TypeAt(ts) == Str {
      var next := SkipSpace(ts[1..]);
      TailWithin(ts);
      if TypeAt(next) == Equals {
        var value := SkipSpace(next[1..]);
        TailWithin(next);
        if FragmentAt(value) {
          TailWithin(value);
          OptionsWithin(step, SkipSpace(value[1..]), args[ts[0].value := value[0].value]);
        }
      }
    }
  }

  lemma OneStepValue(ts: seq<Token>)
    ensures var r := OneStep(ts); r.Ok? ==> ValueFrom(r.value.0.value, ts) && Within(r.value.1, ts)
  {
    var r := OneStep(ts);
    if r.Ok? {
      var pipe := SkipSpace(ts);
      var name := SkipSpace(pipe[1..]);
      SkipWithin(ts);
      TailWithin(pipe);
      TailWithin(name);
      var rest := SkipSpace(name[1..]);
      OptionsWithin(name[0].value, rest, map[]);
      var after := Options(name[0].value, rest, map[]).value.1;
      TailWithin(after);
      assert FragmentAt(after) ==> after[0] in after;
    }
  }

  lemma {:induction false} StepValues(ts: seq<Token>, done: seq<ParsedStep>, k: nat)
    requires Steps(ts, done).Ok? && |done| <= k < |Steps(ts, done).value|
    ensures ValueFrom(Steps(ts, done).value[k].value, ts)
    decreases |ts|
  {
    if ts != [] {
      OneStepValue(ts);
      var step := OneStep(ts).value;
      StepsExtend(step.1, done + [step.0]);
      if k > |done| {
        StepValues(step.1, done + [step.0], k);
      }
    }
  }

  lemma FirstWordHasNoBang(s: string)
    requires s != "" && s[0] != '"' && FirstToken(s).Emit?
    ensures var tok := FirstToken(s).tok; tok.typ != Quoted && (tok.typ == Str ==> '!' !in tok.value)
  {
    hide FindStringEnd, Unescape;
  }

  lemma {:induction false} WordsHaveNoBang(s: string)
    requires '"' !in s && Lex(s).Lexed?
    ensures forall t :: t in Lex(s).tokens ==> t.typ != Quoted && (t.typ == Str ==> '!' !in t.value)
    decreases |s|
  {
    if s != "" {
      assert s[0] in s;
      FirstWordHasNoBang(s);
      LexStep(s);
      var tail := s[FirstToken(s).width..];
      assert forall c :: c in tail ==> c in s;
      WordsHaveNoBang(tail);
    }
  }

  /** In a query without quotes that can be tokenized, no step has a value with a bare `!`. */
  lemma QuoteFreeValuesHaveNoBang(input: string)
    requires '"' !in input && !BareBang(input)
    ensures !Lex(input).Diverges?
    ensures var r := ParsePipelineText(input); r.Ok? ==> forall k :: 0 <= k < |r.value| ==> !BareBang(r.value[k].value)
  {
    DivergesIff(input);
    var r := ParsePipelineText(input);
    if r.Ok? {
      AlwaysStartsWithSearch(input);
      var ts := Lex(input).tokens;
      var i := PipeIndex(ts);
      var first := ParsedStep("search", map[], JoinValues(ts[..i]));
      WordsHaveNoBang(input);
      StepsExtend(ts[i..], [first]);
      forall k | 0 <= k < |r.value|
        ensures !BareBang(r.value[k].value)
      {
        if k == 0 {
          BeforePipeHasNoBang(input);
        } else {
          StepValues(ts[i..], [first], k);
          NoBangAtAll(ts[i..], r.value[k].value);
        }
      }
    }
  }

  lemma BeforePipeHasNoBang(s: string)
    requires '"' !in s && !BareBang(s)
    ensures !BareBang(s[..PipeAt(s)])
  {
    var before := s[..PipeAt(s)];
    assert forall c :: c in before ==> c in s;
    QuoteFreeBang(s);
    QuoteFreeBang(before);
    if k: nat :| HasBang(before, k) {
      assert HasBang(s, k);
    }
  }

  lemma NoBangAtAll(ts: seq<Token>, value: string)
    requires forall t :: t in ts ==> t.typ != Quoted && (t.typ == Str ==> '!' !in t.value)
    requires ValueFrom(value, ts)
    ensures !BareBang(value)
  {
    assert '!' !in value;
    NoBang(value);
  }

  lemma {:induction false} NoBang(v: string)
    requires '!' !in v
    ensures !BareBang(v) && !BareBangInWord(v) && forall c :: !BareBangInQuotes(v, c)
    decreases |v|
  {
    if v != "" {
      assert v[0] in v;
      NoBang(v[1..]);
      if |v| > 1 {
        assert v[1] in v;
        NoBang(v[2..]);
        if |v| > 2 {
          NoBang(v[3..]);
        }
      }
    }
  }

  /** A query that is one quoted text: the search step gets the text without the quotes. */
  lemma QuotedSearch(v: string)
    requires IsQuotable(v)
    ensures var text := "\"" + Escape(v) + "\"";
            && Lex(text) == Lexed([Token(Quoted, v)])
            && !BareBang(text)
            && ParsePipelineText(text) == Ok([ParsedStep("search", map[], v)])
  {
    var ts := [Token(Quoted, v)];
    OneQuoted(v);
    LexPrint(ts);
    DivergesIff(Print(ts));
    hide Lex, BareBang, Print, Escape, Canonical, CanonicalToken, JoinValues, PipeIndex;
    JoinOne(ts[0]);
    assert ts[..1] == ts && ts[1..] == [];
  }

  lemma OneQuoted(v: string)
    requires IsQuotable(v)
    ensures var ts := [Token(Quoted, v)]; Canonical(ts) && Print(ts) == "\"" + Escape(v) + "\""
  {
    var ts, text := [Token(Quoted, v)], "\"" + Escape(v) + "\"";
    assert ts[1..] == [] && text + "" == text;
  }

  lemma JoinOne(t: Token)
    requires t.typ != Pipe
    ensures PipeIndex([t]) == 1 && JoinValues([t]) == t.value
  {
    assert [t][1..] == [] && t.value + "" == t.value;
  }

  // ---- Bare words ----

  predicate IsReserved(a: Argument) {
    ArgumentToken(a).typ == Keyword
  }

  /** The argument lists a command is accepted with: none, one that is no keyword, or a bare word and one more. Options
      have to come first. */
  predicate Accepted(args: seq<Argument>) {
    && |args| <= 2
    && (forall k :: 0 <= k < |args| ==> !IsReserved(args[k]))
    && (forall k :: 0 <= k < |args| ==> args[k].setTo.None?)
    && (|args| == 2 ==> IsBare(args[0]))
  }

  /** What becomes of the arguments of an accepted command in a list of commands: the last one comes back as the value
      if and only if it is quoted or a bare word stands before it. A single bare word is lost, and the step has no
      value; so is the first of two, whichever bare word it is. */
  lemma {:induction false} ValueComesBackIff(search: string, cs: seq<Command>, k: nat)
    requires ValidText(search) && '"' !in search && '|' !in search && !BareBang(search)
    requires ValidCommands(cs) && Failure(cs).None? && k < |cs| && cs[k].args != []
    ensures var text := search + Print(CommandTokens(cs));
            && !Lex(text).Diverges?
            && ParsePipelineText(text).Ok? && |ParsePipelineText(text).value| == |cs| + 1
            && var args, value := cs[k].args, ParsePipelineText(text).value[k + 1].value;
               && (value == args[|args| - 1].lit.text <==> |args| == 2 || args[0].lit.quoted)
               && (|args| == 1 && !args[0].lit.quoted ==> value == "")
    ensures |cs[k].args| == 2 ==> forall w :: ValidArgument(w) && IsBare(w) && w.setTo.None? ==>
              SameParse(search, cs, cs[k := cs[k].(args := [w, cs[k].args[1]])])
  {
    hide ParsePipelineText, Lex, CommandTokens, Print, BareBang, ValidText, SameParse, Failure, ValueOf, TakesValue;
    StepAt(search, cs, k);
    AcceptedIff(cs);
    var args := cs[k].args;
    assert ValidArguments(args);
    ValueOfAccepted(args);
    forall w | |args| == 2 && ValidArgument(w) && IsBare(w) && w.setTo.None?
      ensures SameParse(search, cs, cs[k := cs[k].(args := [w, args[1]])])
    {
      hide *;
      FirstWordIsLost(search, cs, k, w);
    }
  }

  lemma StepAt(search: string, cs: seq<Command>, k: nat)
    requires ValidText(search) && '"' !in search && '|' !in search && !BareBang(search)
    requires ValidCommands(cs) && Failure(cs).None? && k < |cs|
    ensures var text := search + Print(CommandTokens(cs));
            && !Lex(text).Diverges?
            && ParsePipelineText(text).Ok? && |ParsePipelineText(text).value| == |cs| + 1
            && ParsePipelineText(text).value[k + 1].value == ValueOf(cs[k].args)
  {
    hide ParsePipelineText, Lex, CommandTokens, Print, Failure, ValidText, BareBang, ValidCommands, ValueOf;
    PipelineTextRoundTrip(search, cs);
  }

  /** Two lists of commands after the same search text parse to the same steps. */
  ghost predicate SameParse(search: string, cs: seq<Command>, others: seq<Command>) {
    var text, other := search + Print(CommandTokens(cs)), search + Print(CommandTokens(others));
    !Lex(text).Diverges? && !Lex(other).Diverges? && ParsePipelineText(other) == ParsePipelineText(text)
  }

  lemma FirstWordIsLost(search: string, cs: seq<Command>, k: nat, w: Argument)
    requires ValidText(search) && '"' !in search && '|' !in search && !BareBang(search)
    requires ValidCommands(cs) && Failure(cs).None? && k < |cs| && |cs[k].args| == 2
    requires ValidArgument(w) && IsBare(w) && w.setTo.None?
    ensures SameParse(search, cs, cs[k := cs[k].(args := [w, cs[k].args[1]])])
  {
    hide ParsePipelineText, Lex, CommandTokens, Print, Failure, ValidText, BareBang, ValidArgument, StepsOf;
    var others := cs[k := cs[k].(args := [w, cs[k].args[1]])];
    OtherFirstWord(cs, k, w);
    PipelineTextRoundTrip(search, cs);
    PipelineTextRoundTrip(search, others);
  }

  lemma ValueOfAccepted(args: seq<Argument>)
    requires ValidArguments(args) && Accepted(args) && args != []
    ensures var last := args[|args| - 1].lit.text;
            && last != ""
            && ValueOf(args) == if |args| == 2 || args[0].lit.quoted then last else ""
  {
    assert ValidArgument(args[|args| - 1]);
  }

  lemma OtherFirstWord(cs: seq<Command>, k: nat, w: Argument)
    requires ValidCommands(cs) && Failure(cs).None? && k < |cs| && |cs[k].args| == 2
    requires ValidArgument(w) && IsBare(w) && w.setTo.None?
    ensures var other := cs[k := cs[k].(args := [w, cs[k].args[1]])];
            ValidCommands(other) && Failure(other).None? && StepsOf(other) == StepsOf(cs)
  {
    AcceptedIff(cs);
    var c := cs[k];
    var args := [w, c.args[1]];
    var other := cs[k := c.(args := args)];
    assert ValidCommand(c) && Accepted(c.args);
    SameValue(c.args, w);
    hide Lead, TakesValue, Accepted, ValidArgument, ValueOf, Failure, ArgsOf;
    forall j | 0 <= j < |cs|
      ensures ValidCommand(other[j]) && Accepted(other[j].args) && StepOf(other[j]) == StepOf(cs[j])
    {
      assert j != k ==> other[j] == cs[j];
      assert ValidCommand(cs[j]) && Accepted(cs[j].args);
    }
    AcceptedIff(other);
  }

  lemma SameValue(args: seq<Argument>, w: Argument)
    requires |args| == 2 && ValidArguments(args) && Accepted(args)
    requires ValidArgument(w) && IsBare(w) && w.setTo.None?
    ensures var other := [w, args[1]];
            && ValidArguments(other) && Accepted(other)
            && ValueOf(other) == ValueOf(args) && TakesValue(other) == TakesValue(args)
  {
    var other := [w, args[1]];
    assert Lead(other) == [args[1]] == Lead(args);
  }

  lemma NoProblemIff(args: seq<Argument>)
    requires args != [] ==> args[0].setTo.None?
    ensures Problem(args).None? <==> Accepted(args)
  {
    if args != [] && IsBare(args[0]) && |args| > 1 {
      assert args[1..][0] == args[1];
    }
  }

  /** A list of commands with any options is accepted if and only if every command has acceptable arguments and no white
      space follows a final value. */
  lemma {:induction false} AcceptedIff(cs: seq<Command>)
    requires ValidCommands(cs)
    ensures Failure(cs).None? <==>
            (forall k :: 0 <= k < |cs| ==> Accepted(cs[k].args)) &&
            (cs != [] ==> !TakesValue(cs[|cs| - 1].args) || cs[|cs| - 1].sep == "")
  {
    if cs != [] {
      NoProblemIff(cs[0].args);
      AcceptedIff(cs[1..]);
      if forall k :: 0 <= k < |cs| ==> Accepted(cs[k].args) {
        assert forall k :: 0 <= k < |cs[1..]| ==> Accepted(cs[1..][k].args);
      }
      if Accepted(cs[0].args) && forall k :: 0 <= k < |cs[1..]| ==> Accepted(cs[1..][k].args) {
        assert forall k :: 0 < k < |cs| ==> cs[k] == cs[1..][k - 1];
      }
      if |cs| > 1 {
        assert cs[1..][|cs| - 2] == cs[|cs| - 1];
      }
    }
  }
}
