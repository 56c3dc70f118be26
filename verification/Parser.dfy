/** The token cursor both parsers work on (pkg/logsuck/parser/Parser.go). */
module TokenCursor {
  import opened Common
  import opened Lexer

  /** Where and why a parse stopped. */
  datatype ParseError =
    | UnclosedQuote(offset: nat)
    | UnexpectedEnd(expected: TokenType)
    | UnexpectedToken(found: TokenType, expected: TokenType)
    | ExpectedFragment       // after =, != or NOT
    | ExpectedParenList      // no '(' after IN
    | ExpectedSeparator      // neither ',' nor ')' after a list element
    | ExpectedListValue      // nothing after a comma
    | ExpectedRparen
    | ExpectedOptionValue(step: string)

  function TypeAt(ts: seq<Token>): TokenType {
    if ts == [] then Invalid else ts[0].typ
  }

  predicate FragmentAt(ts: seq<Token>) {
    TypeAt(ts) == Str || TypeAt(ts) == Quoted
  }

  predicate KeywordAt(ts: seq<Token>, word: string) {
    TypeAt(ts) == Keyword && ts[0].value == word
  }

  function SkipSpace(ts: seq<Token>): (r: seq<Token>)
    ensures |r| <= |ts|
    ensures TypeAt(r) != Whitespace
  {
    if TypeAt(ts) == Whitespace then SkipSpace(ts[1..]) else ts
  }

  /** The values of a parenthesised list from its first element on, and the tokens after the closing bracket. */
  function ListValues(ts: seq<Token>, done: seq<string>): (r: Result<(seq<string>, seq<Token>), ParseError>)
    ensures r.Ok? ==> |r.value.1| < |ts|
    decreases |ts|
  {
    if FragmentAt(ts) then
      var values := done + [ts[0].value];
      var next := SkipSpace(ts[1..]);
      if TypeAt(next) == Rparen then
        Ok((values, next[1..]))
      else if TypeAt(next) == Comma then
        var after := SkipSpace(next[1..]);
        if FragmentAt(after) then ListValues(after, values) else Err(ExpectedListValue)
      else
        Err(ExpectedSeparator)
    else
      var close := SkipSpace(ts);
      if TypeAt(close) == Rparen then Ok((done, close[1..])) else Err(ExpectedRparen)
  }

  function ParenList(ts: seq<Token>): (r: Result<(seq<string>, seq<Token>), ParseError>)
    ensures r.Ok? ==> |r.value.1| < |ts|
  {
    if TypeAt(ts) != Lparen then Err(ExpectedParenList) else ListValues(SkipSpace(ts[1..]), [])
  }

  class Parser {
    var tokens: seq<Token>

    constructor (tokens: seq<Token>)
      ensures this.tokens == tokens
    {
      this.tokens := tokens;
    }

    function Peek(): TokenType
      reads this
    {
      TypeAt(tokens)
    }

    function PeekValue(): string
      reads this
    {
      if tokens == [] then "" else tokens[0].value
    }

    /** take panics on an empty list: its callers have to know that a token is left. */
    method Take() returns (t: Token)
      requires tokens != []
      modifies this
      ensures t == old(tokens)[0] && tokens == old(tokens)[1..]
    {
      t := tokens[0];
      tokens := tokens[1..];
    }

    method Require(expected: TokenType) returns (r: Result<Token, ParseError>)
      requires expected != Invalid
      modifies this
      ensures r.Ok? <==> TypeAt(old(tokens)) == expected
      ensures r.Ok? ==> r.value == old(tokens)[0] && tokens == old(tokens)[1..]
      ensures r.Err? ==> tokens == old(tokens)
      ensures r.Err? ==> r.error == if tokens == [] then UnexpectedEnd(expected)
        else UnexpectedToken(tokens[0].typ, expected)
    {
      if |tokens| == 0 {
        return Err(UnexpectedEnd(expected));
      }
      if tokens[0].typ != expected {
        return Err(UnexpectedToken(tokens[0].typ, expected));
      }
      var t := Take();
      return Ok(t);
    }

    method SkipWhitespace()
      modifies this
      ensures tokens == SkipSpace(old(tokens))
    {
      while |tokens| > 0 && tokens[0].typ == Whitespace
        invariant SkipSpace(tokens) == SkipSpace(old(tokens))
        decreases |tokens|
      {
        tokens := tokens[1..];
      }
    }

    method ParseParenList() returns (r: Result<seq<string>, ParseError>)
      modifies this
      ensures match ParenList(old(tokens))
              case Ok((values, rest)) => r == Ok(values) && tokens == rest
              case Err(e) => r == Err(e)
    {
      var ret := [];
      if Peek() != Lparen {
        return Err(ExpectedParenList);
      }
      ghost var start := tokens;
      var _ := Take();
      SkipWhitespace();
      var closed := false;
      while !closed && (Peek() == Str || Peek() == Quoted)
        invariant !closed ==> ParenList(start) == ListValues(tokens, ret)
        invariant closed ==> Peek() == Rparen && ParenList(start) == Ok((ret, tokens[1..]))
        decreases !closed, |tokens|
      {
        var tok := Take();
        ret := ret + [tok.value];
        SkipWhitespace();
        if Peek() != Comma && Peek() != Rparen {
          return Err(ExpectedSeparator);
        }
        if Peek() == Rparen {
          closed := true;
        } else {
          var _ := Take();
          SkipWhitespace();
          if Peek() != Str && Peek() != Quoted {
            return Err(ExpectedListValue);
          }
        }
      }
      SkipWhitespace();
      if Peek() != Rparen {
        return Err(ExpectedRparen);
      }
      var _ := Take();
      return Ok(ret);
    }
  }
}
