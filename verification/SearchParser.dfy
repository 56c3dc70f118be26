/** The search language (pkg/logsuck/parser/SearchParser.go). */
module SearchParser {
  import opened Common
  import opened Lexer
  import opened TokenCursor

  datatype Search = Search(
    fragments: set<string>, notFragments: set<string>,
    fields: map<string, seq<string>>, notFields: map<string, seq<string>>,
    sources: set<string>, notSources: set<string>, hosts: set<string>, notHosts: set<string>)
  {
    function AddFragment(f: string): Search {
      this.(fragments := fragments + {f})
    }

    function AddNotFragment(f: string): Search {
      this.(notFragments := notFragments + {f})
    }

    function SetField(key: string, values: seq<string>): Search {
      this.(fields := fields[key := values])
    }

    function AddNotField(key: string, values: seq<string>): Search {
      this.(notFields := notFields[key := ValuesOf(notFields, key) + values])
    }
  }

  const EMPTY := Search({}, {}, map[], map[], {}, {}, {}, {})

  function ValuesOf(m: map<string, seq<string>>, key: string): seq<string> {
    if key in m then m[key] else []
  }

  /** strings.ToLower on ASCII letters. */
  function Lower(s: string): (r: string)
    ensures |r| == |s|
  {
    seq(|s|, k requires 0 <= k < |s| => if 'A' <= s[k] <= 'Z' then (s[k] as int + 32) as char else s[k])
  }

  const UPPER := "ABCDEFGHIJKLMNOPQRSTUVWXYZ"
  const LOWER := "abcdefghijklmnopqrstuvwxyz"

  /** Each capital becomes its small letter, everything else stays, and lowering again changes nothing. */
  lemma LowerMeaning(s: string)
    ensures forall k, i :: 0 <= k < |s| && 0 <= i < |UPPER| && s[k] == UPPER[i] ==> Lower(s)[k] == LOWER[i]
    ensures forall k :: 0 <= k < |s| && s[k] !in UPPER ==> Lower(s)[k] == s[k]
    ensures Lower(Lower(s)) == Lower(s)
  {
    forall c: char
      ensures c in UPPER <==> 'A' <= c <= 'Z'
    {
      if 'A' <= c <= 'Z' {
        assert UPPER[c as int - 65] == c;
      }
    }
  }

  /** One pass of the parse loop: what the tokens at the front do to the search, and what is left. */
  function Clause(ts: seq<Token>, acc: Search): (r: Result<(Search, seq<Token>), ParseError>)
    requires ts != []
    ensures r.Ok? ==> |r.value.1| < |ts|
  {
    var tok, rest := ts[0], ts[1..];
    if tok.typ == Str then
      WordClause(tok.value, rest, acc)
    else if tok.typ == Quoted then
      Ok((acc.AddFragment(tok.value), rest))
    else if tok.typ == Keyword && tok.value == "NOT" then
      var next := SkipSpace(rest);
      if FragmentAt(next) then Ok((acc.AddNotFragment(next[0].value), next[1..])) else Err(ExpectedFragment)
    else
      Ok((acc, rest))
  }

  function WordClause(word: string, rest: seq<Token>, acc: Search): (r: Result<(Search, seq<Token>), ParseError>)
    ensures r.Ok? ==> |r.value.1| <= |rest|
  {
    var key := Lower(word);
    if TypeAt(rest) == Equals then
      var next := rest[1..];
      if FragmentAt(next) then Ok((acc.SetField(key, [next[0].value]), next[1..])) else Err(ExpectedFragment)
    else if TypeAt(rest) == NotEquals then
      var next := rest[1..];
      if FragmentAt(next) then Ok((acc.AddNotField(key, [next[0].value]), next[1..])) else Err(ExpectedFragment)
    else if TypeAt(rest) == Whitespace then
      var next := SkipSpace(rest);
      if KeywordAt(next, "IN") then
        match ParenList(SkipSpace(next[1..]))
        case Ok((values, after)) => Ok((acc.SetField(key, values), after))
        case Err(e) => Err(e)
      else if KeywordAt(next, "NOT") then
        NotAfterWord(word, SkipSpace(next[1..]), acc)
      else
        Ok((acc.AddFragment(word), next))
    else
      Ok((acc.AddFragment(word), rest))
  }

  function NotAfterWord(word: string, ts: seq<Token>, acc: Search): (r: Result<(Search, seq<Token>), ParseError>)
    ensures r.Ok? ==> |r.value.1| < |ts|
  {
    if KeywordAt(ts, "IN") then
      match ParenList(SkipSpace(ts[1..]))
      case Ok((values, after)) => Ok((acc.AddNotField(Lower(word), values), after))
      case Err(e) => Err(e)
    else if FragmentAt(ts) then
      Ok((acc.AddFragment(word).AddNotFragment(ts[0].value), ts[1..]))
    else
      Err(ExpectedFragment)
  }

  function Clauses(ts: seq<Token>, acc: Search): Result<Search, ParseError>
    decreases |ts|
  {
    if ts == [] then Ok(acc)
    else match Clause(ts, acc)
      case Ok((acc', rest)) => Clauses(rest, acc')
      case Err(e) => Err(e)
  }

  function ToSet(values: seq<string>): set<string> {
    set v | v in values
  }

  /** The derived source and host sets. */
  function Derive(s: Search): Search {
    s.(sources := ToSet(ValuesOf(s.fields, "source")),
       notSources := ToSet(ValuesOf(s.notFields, "source")),
       hosts := ToSet(ValuesOf(s.fields, "host")),
       notHosts := ToSet(ValuesOf(s.notFields, "host")))
  }

  function SearchOf(tokens: seq<Token>): Result<Search, ParseError> {
    match Clauses(tokens, EMPTY)
    case Ok(s) => Ok(Derive(s))
    case Err(e) => Err(e)
  }

  /** The parse of a text; only defined for the texts tokenize returns on. */
  function ParseText(input: string): Result<Search, ParseError>
    requires !Lex(input).Diverges?
  {
    match Lex(input)
    case Lexed(tokens) => SearchOf(tokens)
    case Unclosed(offset) => Err(UnclosedQuote(offset))
  }

  // ---- The parser as written: a loop over a cursor ----

  method ParseNotAfterWord(p: Parser, word: string, acc: Search) returns (r: Result<Search, ParseError>)
    modifies p
    ensures match NotAfterWord(word, old(p.tokens), acc)
            case Ok((s, rest)) => r == Ok(s) && p.tokens == rest
            case Err(e) => r == Err(e)
  {
    var ret := acc;
    if p.Peek() == Keyword && p.PeekValue() == "IN" {
      var _ := p.Take();
      p.SkipWhitespace();
      var list := p.ParseParenList();
      if list.Err? {
        return Err(list.error);
      }
      var lowered := Lower(word);
      if lowered in ret.notFields {
        ret := ret.(notFields := ret.notFields[lowered := ret.notFields[lowered] + list.value]);
      } else {
        assert [] + list.value == list.value;
        ret := ret.(notFields := ret.notFields[lowered := list.value]);
      }
    } else if p.Peek() == Str || p.Peek() == Quoted {
      var notTok := p.Take();
      ret := ret.(fragments := ret.fragments + {word});
      ret := ret.(notFragments := ret.notFragments + {notTok.value});
    } else {
      return Err(ExpectedFragment);
    }
    return Ok(ret);
  }

  method ParseWordClause(p: Parser, word: string, acc: Search) returns (r: Result<Search, ParseError>)
    modifies p
    ensures match WordClause(word, old(p.tokens), acc)
            case Ok((s, rest)) => r == Ok(s) && p.tokens == rest
            case Err(e) => r == Err(e)
  {
    var ret := acc;
    var lowered := Lower(word);
    if p.Peek() == Equals {
      var _ := p.Take();
      if p.Peek() != Str && p.Peek() != Quoted {
        return Err(ExpectedFragment);
      }
      var value := p.Take();
      ret := ret.(fields := ret.fields[lowered := [value.value]]);
    } else if p.Peek() == NotEquals {
      var _ := p.Take();
      if p.Peek() != Str && p.Peek() != Quoted {
        return Err(ExpectedFragment);
      }
      var value := p.Take();
      if lowered in ret.notFields {
        ret := ret.(notFields := ret.notFields[lowered := ret.notFields[lowered] + [value.value]]);
      } else {
        assert [] + [value.value] == [value.value];
        ret := ret.(notFields := ret.notFields[lowered := [value.value]]);
      }
    } else if p.Peek() == Whitespace {
      p.SkipWhitespace();
      if p.Peek() == Keyword && p.PeekValue() == "IN" {
        var _ := p.Take();
        p.SkipWhitespace();
        var list := p.ParseParenList();
        if list.Err? {
          return Err(list.error);
        }
        ret := ret.(fields := ret.fields[lowered := list.value]);
      } else if p.Peek() == Keyword && p.PeekValue() == "NOT" {
        var _ := p.Take();
        p.SkipWhitespace();
        r := ParseNotAfterWord(p, word, ret);
        return;
      } else {
        ret := ret.(fragments := ret.fragments + {word});
      }
    } else {
      ret := ret.(fragments := ret.fragments + {word});
    }
    return Ok(ret);
  }

  method ParseClause(p: Parser, acc: Search) returns (r: Result<Search, ParseError>)
    requires p.tokens != []
    modifies p
    ensures match Clause(old(p.tokens), acc)
            case Ok((s, rest)) => r == Ok(s) && p.tokens == rest
            case Err(e) => r == Err(e)
  {
    var tok := p.Take();
    if tok.typ == Str {
      r := ParseWordClause(p, tok.value, acc);
    } else if tok.typ == Quoted {
      r := Ok(acc.(fragments := acc.fragments + {tok.value}));
    } else if tok.typ == Keyword {
      r := Ok(acc);
      if tok.value == "NOT" {
        p.SkipWhitespace();
        if p.Peek() != Str && p.Peek() != Quoted {
          return Err(ExpectedFragment);
        }
        var frag := p.Take();
        r := Ok(acc.(notFragments := acc.notFragments + {frag.value}));
      }
    } else {
      r := Ok(acc);
    }
  }

  method ParseSearch(input: string) returns (r: Result<Search, ParseError>)
    requires !BareBang(input)
    ensures !Lex(input).Diverges? && r == ParseText(input)
  {
    DivergesIff(input);
    var tk := new Tokenizer();
    var tokens := tk.Tokenize(input);
    if tokens.Err? {
      return Err(UnclosedQuote(tokens.error));
    }
    var p := new Parser(tokens.value);
    var ret := EMPTY;
    while |p.tokens| > 0
      invariant Clauses(tokens.value, EMPTY) == Clauses(p.tokens, ret)
      decreases |p.tokens|
    {
      var next := ParseClause(p, ret);
      if next.Err? {
        return Err(next.error);
      }
      ret := next.value;
    }
    ghost var parsed := ret;
    SourcesUntouched(tokens.value, EMPTY);
    if "source" in ret.fields {
      ret := ret.(sources := set v | v in ret.fields["source"]);
    }
    if "source" in ret.notFields {
      ret := ret.(notSources := set v | v in ret.notFields["source"]);
    }
    if "host" in ret.fields {
      ret := ret.(hosts := set v | v in ret.fields["host"]);
    }
    if "host" in ret.notFields {
      ret := ret.(notHosts := set v | v in ret.notFields["host"]);
    }
    assert ret == Derive(parsed);
    return Ok(ret);
  }

  /** The loop itself leaves the derived sets alone. */
  lemma {:induction false} SourcesUntouched(ts: seq<Token>, acc: Search)
    ensures var r := Clauses(ts, acc);
            r.Ok? ==>
              && r.value.sources == acc.sources && r.value.notSources == acc.notSources
              && r.value.hosts == acc.hosts && r.value.notHosts == acc.notHosts
    decreases |ts|
  {
    if ts != [] {
      var step := Clause(ts, acc);
      if step.Ok? {
        SourcesUntouched(step.value.1, step.value.0);
      }
    }
  }
}
