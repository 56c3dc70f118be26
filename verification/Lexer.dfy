/** The query tokenizer (pkg/logsuck/parser/Lexer.go).
    A string is a Go string: one `char` stands for one byte of the UTF-8 text. */
module Lexer {
  import opened Common

  datatype TokenType =
    | Str | Quoted | Whitespace | Equals | NotEquals | Lparen | Rparen | Pipe | Comma | Keyword
    | Invalid  // what peek reports at the end of the token list; no token has this type

  datatype Token = Token(typ: TokenType, value: string)

  /** How a call of tokenize ends. `Unclosed` carries the offset of the opening quote.
      `Diverges` is the endless loop the Go code enters when an iteration does not move the index. */
  datatype LexOutcome = Lexed(tokens: seq<Token>) | Unclosed(offset: nat) | Diverges

  predicate IsSpace(c: char) {
    c == ' ' || c == '\n' || c == '\t'
  }

  predicate IsDelimiter(c: char) {
    c == '!' || c == '=' || c == '|' || c == '(' || c == ')' || c == ',' || IsSpace(c)
  }

  predicate IsKeyword(s: string) {
    s == "IN" || s == "NOT"
  }

  /** A byte that continues a multi-byte UTF-8 rune (10xxxxxx). */
  predicate IsContinuation(c: char) {
    128 <= c as int < 192
  }

  /** Index of the first byte of the rune that the byte at `j` belongs to. */
  function RuneStart(s: string, j: nat): (p: nat)
    requires j < |s|
    ensures p <= j
    ensures p < j ==> IsContinuation(s[j])
    ensures p > 0 ==> !IsContinuation(s[p])
    ensures forall k :: p < k <= j ==> IsContinuation(s[k])
  {
    if j == 0 || !IsContinuation(s[j]) then j else RuneStart(s, j - 1)
  }

  /** strings.IndexAny(s, wordDelimiters), with |s| for "not found". */
  function WordEnd(s: string): (e: nat)
    ensures e <= |s|
    ensures e < |s| ==> IsDelimiter(s[e])
    ensures forall k :: 0 <= k < e ==> !IsDelimiter(s[k])
  {
    if s == "" || IsDelimiter(s[0]) then 0 else 1 + WordEnd(s[1..])
  }

  /** The first quote at or after index `k` that the byte before it does not escape. */
  function UnescapedQuote(r: string, k: nat): (q: nat)
    requires 1 <= k
    ensures k <= q
    ensures q < |r| ==> r[q] == '"' && r[q - 1] != '\\'
    ensures forall j :: k <= j < q && j < |r| ==> !(r[j] == '"' && r[j - 1] != '\\')
    decreases |r| - k
  {
    if k >= |r| || (r[k] == '"' && r[k - 1] != '\\') then k else UnescapedQuote(r, k + 1)
  }

  /** The match of the regular expression ([^\\]|^)" in r: its start, which is the rune before the closing
      quote, and its end. The leftmost match wins, and [^\\] is tried before ^. */
  function FindStringEnd(r: string): (m: Option<(nat, nat)>)
    ensures m.Some? ==> m.value.0 < m.value.1 <= |r| && r[m.value.1 - 1] == '"'
  {
    if r == "" then
      None
    else if r[0] == '"' then
      Some((0, if |r| > 1 && r[1] == '"' then 2 else 1))
    else
      var q := UnescapedQuote(r, 1);
      if q < |r| then Some((RuneStart(r, q - 1), q + 1)) else None
  }

  /** strings.ReplaceAll(v, `\"`, `"`). */
  function Unescape(v: string): string {
    if |v| < 2 then v
    else if v[0] == '\\' && v[1] == '"' then "\"" + Unescape(v[2..])
    else [v[0]] + Unescape(v[1..])
  }

  /** The token at the start of `s`, and how far the loop index moves for it. */
  datatype Step = Emit(tok: Token, width: nat) | UnclosedHere

  function FirstToken(s: string): (r: Step)
    requires s != ""
    ensures r.Emit? ==> r.width <= |s|
  {
    var c := s[0];
    if IsSpace(c) then Emit(Token(Whitespace, [c]), 1)
    else if c == '=' then Emit(Token(Equals, "="), 1)
    else if c == '!' && |s| > 1 && s[1] == '=' then Emit(Token(NotEquals, "!="), 2)
    else if c == '(' then Emit(Token(Lparen, "("), 1)
    else if c == ')' then Emit(Token(Rparen, ")"), 1)
    else if c == '|' then Emit(Token(Pipe, "|"), 1)
    else if c == ',' then Emit(Token(Comma, ","), 1)
    else if c == '"' then
      match FindStringEnd(s[1..])
      case None => UnclosedHere
      case Some((start, end)) => Emit(Token(Quoted, Unescape(s[1..][..start + 1])), 1 + end)
    else
      var word := s[..WordEnd(s)];
      Emit(Token(if IsKeyword(word) then Keyword else Str, word), |word|)
  }

  /** The result of tokenizing `s` from its start. */
  function Lex(s: string): LexOutcome
    decreases |s|
  {
    if s == "" then Lexed([])
    else match FirstToken(s)
      case UnclosedHere => Unclosed(0)
      case Emit(tok, width) => if width == 0 then Diverges else Prepend(tok, width, Lex(s[width..]))
  }

  function Prepend(tok: Token, width: nat, out: LexOutcome): LexOutcome {
    match out
    case Lexed(ts) => Lexed([tok] + ts)
    case Unclosed(offset) => Unclosed(width + offset)
    case Diverges => Diverges
  }

  /** The outcome of the whole run when `done` has been emitted for the first `i` bytes. */
  function After(done: seq<Token>, i: nat, out: LexOutcome): LexOutcome {
    match out
    case Lexed(ts) => Lexed(done + ts)
    case Unclosed(offset) => Unclosed(i + offset)
    case Diverges => Diverges
  }

  /** One iteration at index `i` leaves the outcome of the whole run as it was. */
  lemma LoopStep(input: string, i: nat, done: seq<Token>)
    requires i < |input|
    ensures var first := FirstToken(input[i..]);
            After(done, i, Lex(input[i..])) ==
            if first.UnclosedHere? then Unclosed(i)
            else if first.width == 0 then Diverges
            else After(done + [first.tok], i + first.width, Lex(input[i + first.width..]))
  {
    var s := input[i..];
    var first := FirstToken(s);
    if first.Emit? && first.width > 0 {
      assert s[first.width..] == input[i + first.width..];
      var rest := Lex(s[first.width..]);
      if rest.Lexed? {
        assert done + ([first.tok] + rest.tokens) == (done + [first.tok]) + rest.tokens;
      }
    }
  }

  lemma LexEmpty()
    ensures Lex("") == Lexed([])
  {
  }

  /** The scanner's bare-bang automaton, one character at a time and without producing tokens: does the text
      reach a `!` that is outside quotes and not followed by `=`? */
  predicate BareBang(s: string)
    decreases |s|, 0
  {
    if s == "" then false
    else if s[0] == '!' then |s| < 2 || s[1] != '=' || BareBang(s[2..])
    else if IsDelimiter(s[0]) then BareBang(s[1..])
    else if s[0] == '"' then
      if |s| == 1 then false
      else if s[1] == '"' then BareBang(s[if |s| > 2 && s[2] == '"' then 3 else 2..])
      else BareBangInQuotes(s[2..], s[1])
    else BareBangInWord(s[1..])
  }

  predicate BareBangInWord(s: string)
    decreases |s|, 1
  {
    if s == "" then false
    else if IsDelimiter(s[0]) then BareBang(s)
    else BareBangInWord(s[1..])
  }

  predicate BareBangInQuotes(s: string, previous: char)
    decreases |s|, 1
  {
    if s == "" then false
    else if s[0] == '"' && previous != '\\' then BareBang(s[1..])
    else BareBangInQuotes(s[1..], s[0])
  }

  lemma {:induction false} WordScan(s: string)
    ensures BareBangInWord(s) <==> BareBang(s[WordEnd(s)..])
  {
    if s == "" || IsDelimiter(s[0]) {
      assert s[0..] == s;
    } else {
      WordScan(s[1..]);
      assert s[1..][WordEnd(s[1..])..] == s[WordEnd(s)..];
    }
  }

  lemma {:induction false} QuoteScan(r: string, k: nat)
    requires 1 <= k <= |r|
    ensures var q := UnescapedQuote(r, k);
            BareBangInQuotes(r[k..], r[k - 1]) <==> (q < |r| && BareBang(r[q + 1..]))
    decreases |r| - k
  {
    hide BareBang, BareBangInWord;
    if k < |r| {
      assert r[k..][0] == r[k] && r[k..][1..] == r[k + 1..];
      if !(r[k] == '"' && r[k - 1] != '\\') {
        QuoteScan(r, k + 1);
      }
    }
  }

  /** One iteration either stops at a bare `!`, or hands the same question on to the rest of the text. */
  lemma BareBangStep(s: string)
    requires s != ""
    ensures var first := FirstToken(s);
            BareBang(s) <==> first.Emit? && (first.width == 0 || BareBang(s[first.width..]))
  {
    if s[0] == '"' {
      var r := s[1..];
      if r != "" && r[0] != '"' {
        QuoteScan(r, 1);
        var q := UnescapedQuote(r, 1);
        assert s[2..] == r[1..];
        if q < |r| {
          assert s[q + 2..] == r[q + 1..];
        }
      }
    } else if !IsDelimiter(s[0]) {
      WordScan(s[1..]);
      assert s[1..][WordEnd(s[1..])..] == s[WordEnd(s)..];
    }
  }

  /** tokenize loops forever exactly on the texts with a reachable bare `!`. */
  lemma {:induction false} DivergesIff(s: string)
    ensures Lex(s).Diverges? <==> BareBang(s)
    decreases |s|
  {
    if s != "" {
      BareBangStep(s);
      var first := FirstToken(s);
      if first.Emit? && first.width > 0 {
        DivergesIff(s[first.width..]);
      }
    }
  }

  /** What the Go loop holds between two iterations. */
  datatype LoopState = Running(i: nat, tokens: seq<Token>) | Finished(outcome: LexOutcome)

  /** One iteration of the loop, with no test for progress, as in the source. */
  function LoopBody(input: string, st: LoopState): LoopState {
    if st.Finished? then st
    else if st.i >= |input| then Finished(Lexed(st.tokens))
    else
      var first := FirstToken(input[st.i..]);
      if first.UnclosedHere? then Finished(Unclosed(st.i))
      else Running(st.i + first.width, st.tokens + [first.tok])
  }

  function Iterate(input: string, n: nat): LoopState {
    if n == 0 then Running(0, []) else LoopBody(input, Iterate(input, n - 1))
  }

  /** Where the loop stands determines what is left to do. */
  ghost predicate LoopInvariant(input: string, st: LoopState) {
    match st
    case Finished(out) => Lex(input) == out && !out.Diverges?
    case Running(i, tokens) => i <= |input| && Lex(input) == After(tokens, i, Lex(input[i..]))
  }

  lemma LoopBodyKeepsInvariant(input: string, st: LoopState)
    requires LoopInvariant(input, st)
    ensures LoopInvariant(input, LoopBody(input, st))
    ensures st.Running? && !Lex(input).Diverges? ==>
              var st' := LoopBody(input, st); st'.Finished? || st'.i > st.i
  {
    hide Lex, FirstToken;
    if st.Running? {
      if st.i < |input| {
        LoopStep(input, st.i, st.tokens);
      } else {
        LexEmpty();
        assert input[st.i..] == [];
        assert st.tokens + [] == st.tokens;
      }
    }
  }

  lemma {:induction false} IterateInvariant(input: string, n: nat)
    ensures LoopInvariant(input, Iterate(input, n))
    ensures var st := Iterate(input, n); st.Running? && !Lex(input).Diverges? ==> n <= st.i
  {
    if n == 0 {
      assert input[0..] == input;
    } else {
      IterateInvariant(input, n - 1);
      LoopBodyKeepsInvariant(input, Iterate(input, n - 1));
    }
  }

  /** Without a bare `!` the loop ends within |input| + 1 iterations and with the result of Lex; with one it is
      still running after any number of iterations. */
  lemma {:induction false} LoopHaltsIff(input: string)
    ensures !BareBang(input) ==> Iterate(input, |input| + 1) == Finished(Lex(input))
    ensures BareBang(input) ==> forall n: nat :: Iterate(input, n).Running?
  {
    DivergesIff(input);
    IterateInvariant(input, |input| + 1);
    forall n: nat | BareBang(input)
      ensures Iterate(input, n).Running?
    {
      IterateInvariant(input, n);
    }
  }

  /** The tokenizer object: a token list that the loop appends to. */
  class Tokenizer {
    var tokens: seq<Token>

    constructor ()
      ensures tokens == []
    {
      tokens := [];
    }

    method AddToken(t: Token)
      modifies this
      ensures tokens == old(tokens) + [t]
    {
      tokens := tokens + [t];
    }

    /** On a text without a reachable bare `!` (the others never return) the loop computes Lex. */
    method Tokenize(input: string) returns (r: Result<seq<Token>, nat>)
      requires tokens == []
      requires !BareBang(input)
      modifies this
      ensures Lex(input) == match r case Ok(ts) => Lexed(ts) case Err(offset) => Unclosed(offset)
      ensures r.Ok? ==> tokens == r.value
    {
      hide Lex, BareBang, IsDelimiter, WordEnd, FindStringEnd, Unescape, IsKeyword;
      DivergesIff(input);
      LexEmpty();
      var i := 0;
      assert input[0..] == input;
      while i < |input|
        invariant 0 <= i <= |input|
        invariant Lex(input) == After(tokens, i, Lex(input[i..]))
        decreases |input| - i
      {
        var c := input[i];
        ghost var s := input[i..];
        ghost var before, first := tokens, FirstToken(s);
        LoopStep(input, i, tokens);
        assert first.UnclosedHere? || 0 < first.width;
        ghost var next := i + if first.Emit? then first.width else 0;
        if IsSpace(c) {
          AddToken(Token(Whitespace, [c]));
        } else if c == '=' {
          AddToken(Token(Equals, "="));
        } else if c == '!' && i + 1 < |input| && input[i + 1] == '=' {
          AddToken(Token(NotEquals, "!="));
          i := i + 1;
        } else if c == '(' {
          AddToken(Token(Lparen, "("));
        } else if c == ')' {
          AddToken(Token(Rparen, ")"));
        } else if c == '|' {
          AddToken(Token(Pipe, "|"));
        } else if c == ',' {
          AddToken(Token(Comma, ","));
        } else if c == '"' {
          if i == |input| - 1 {
            return Err(i);
          }
          var remainder := input[i + 1..];
          assert remainder == s[1..];
          var endLocation := FindStringEnd(remainder);
          if endLocation.None? {
            return Err(i);
          }
          var str := remainder[..endLocation.value.0 + 1];
          AddToken(Token(Quoted, Unescape(str)));
          i := i + endLocation.value.1;
        } else {
          var remainder := input[i..];
          var end := WordEnd(remainder);
          var str := remainder[..end];
          AddToken(Token(if IsKeyword(str) then Keyword else Str, str));
          if end == |remainder| {
            assert input[next..] == [];
            assert tokens + [] == tokens;
            break;
          }
          i := i + end - 1;
        }
        i := i + 1;
        assert tokens == before + [first.tok] && i == next;
      }
      assert input[|input|..] == [];
      assert tokens + [] == tokens;
      return Ok(tokens);
    }
  }
}
