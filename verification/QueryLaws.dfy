/** The search that a query text amounts to: its implicit search is parsed a second time, as a search. */
module QueryLaws {
  import opened Common
  import opened Lexer
  import opened LexerLaws
  import opened TokenCursor
  import opened SearchParser
  import opened SearchLaws
  import opened PipelineParser
  import opened PipelineLaws

  /** Printed clauses without quoted literals, in front of any commands, are the search that runs: the first step gets
      their text unchanged, and its parse is their meaning. */
  lemma {:induction false} PlainSearchMeaning(lead: string, items: seq<Item>, cs: seq<Command>)
    requires ValidQuery(items) && AllSpace(lead) && ValidCommands(cs) && Failure(cs).None?
    requires var search := QueryText(lead, items); ValidText(search) && '"' !in search && '|' !in search
    ensures var search := QueryText(lead, items);
            var text := search + Print(CommandTokens(cs));
            && !Lex(text).Diverges? && !Lex(search).Diverges?
            && ParsePipelineText(text) == Ok([ParsedStep("search", map[], search)] + StepsOf(cs))
            && ParseText(search) == Ok(Meaning(ClausesOf(items)))
  {
    SearchTextMeaning(lead, items);
    PipelineTextRoundTrip(QueryText(lead, items), cs);
  }

  // ---- Where fragments come from ----

  lemma {:induction false} ListWithin(ts: seq<Token>, done: seq<string>)
    ensures var r := ListValues(ts, done); r.Ok? ==> Within(r.value.1, ts)
    decreases |ts|
  {
    if FragmentAt(ts) {
      var next := SkipSpace(ts[1..]);
      SkipWithin(ts[1..]);
      TailWithin(next);
      if TypeAt(next) == Comma {
        SkipWithin(next[1..]);
        ListWithin(SkipSpace(next[1..]), done + [ts[0].value]);
      }
    } else {
      SkipWithin(ts);
      TailWithin(SkipSpace(ts));
    }
  }

  lemma ParenWithin(ts: seq<Token>)
    ensures var r := ParenList(SkipSpace(ts)); r.Ok? ==> Within(r.value.1, ts)
  {
    SkipWithin(ts);
    var list := SkipSpace(ts);
    if TypeAt(list) == Lparen {
      SkipWithin(list[1..]);
      ListWithin(SkipSpace(list[1..]), []);
    }
  }

  lemma NotAfterWordWithin(word: string, ts: seq<Token>, acc: Search)
    ensures var r := NotAfterWord(word, ts, acc);
            r.Ok? ==> Within(r.value.1, ts) && r.value.0.fragments <= acc.fragments + {word}
  {
    if KeywordAt(ts, "IN") {
      ParenWithin(ts[1..]);
    }
  }

  lemma WordClauseWithin(word: string, rest: seq<Token>, acc: Search)
    ensures var r := WordClause(word, rest, acc);
            r.Ok? ==> Within(r.value.1, rest) && r.value.0.fragments <= acc.fragments + {word}
  {
    if TypeAt(rest) == Whitespace {
      var next := SkipSpace(rest);
      SkipWithin(rest);
      if KeywordAt(next, "IN") {
        ParenWithin(next[1..]);
      } else if KeywordAt(next, "NOT") {
        SkipWithin(next[1..]);
        NotAfterWordWithin(word, SkipSpace(next[1..]), acc);
      }
    }
  }

  lemma ClauseWithin(ts: seq<Token>, acc: Search)
    requires ts != []
    ensures var r := Clause(ts, acc);
            r.Ok? ==>
              && Within(r.value.1, ts)
              && r.value.0.fragments <= acc.fragments + if FragmentAt(ts) then {ts[0].value} else {}
  {
    var rest := ts[1..];
    if ts[0].typ == Str {
      WordClauseWithin(ts[0].value, rest, acc);
    } else if ts[0].typ == Keyword {
      SkipWithin(rest);
      TailWithin(SkipSpace(rest));
    }
  }

  /** Every fragment of a search is the value of a word or a quoted token. */
  lemma {:induction false} FragmentsAreTokens(ts: seq<Token>, acc: Search, f: string)
    requires Clauses(ts, acc).Ok? && f in Clauses(ts, acc).value.fragments && f !in acc.fragments
    ensures exists t :: t in ts && (t.typ == Str || t.typ == Quoted) && t.value == f
    decreases |ts|
  {
    if ts != [] {
      ClauseWithin(ts, acc);
      var step := Clause(ts, acc).value;
      if f in step.0.fragments {
        assert ts[0] in ts;
      } else {
        FragmentsAreTokens(step.1, step.0, f);
        var t :| t in step.1 && (t.typ == Str || t.typ == Quoted) && t.value == f;
        assert t in ts;
      }
    }
  }

  lemma {:induction false} PieceLength(pieces: seq<string>, k: nat)
    requires k < |pieces|
    ensures |pieces[k]| <= |Flatten(pieces)|
  {
    if k > 0 {
      PieceLength(pieces[1..], k - 1);
    }
  }

  /** A token whose value is the whole text is a word. */
  lemma WholeTextIsWord(v: string, t: Token)
    requires ValidText(v) && Lex(v).Lexed? && t in Lex(v).tokens
    requires (t.typ == Str || t.typ == Quoted) && t.value == v
    ensures PlainWord(v)
  {
    Tiling(v);
    LexedIsCanonical(v);
    var ts := Lex(v).tokens;
    var k :| 0 <= k < |ts| && ts[k] == t;
    PieceLength(Pieces(v), k);
    SpelledLength(Pieces(v)[k], t);
    AllCanonical(ts, k);
  }

  lemma {:induction false} AllCanonical(ts: seq<Token>, k: nat)
    requires Canonical(ts) && k < |ts|
    ensures CanonicalToken(ts[k])
  {
    if k > 0 {
      AllCanonical(ts[1..], k - 1);
    }
  }

  function OneFragment(v: string): seq<QueryClause> {
    [Fragment(Literal(v, true))]
  }

  /** A quoted text as a query. The documentation makes it one fragment, and so does the parser of searches. But the
      pipeline hands it on without its quotes, and what is searched for is its text, parsed again: the clauses that
      the text spells, if it spells any; an error for a quoted NOT; and the fragment itself if and only if the text is
      a plain word, which needs no quotes. */
  lemma {:induction false} QuotedFragmentIff(v: string)
    requires IsQuotable(v) && ValidText(v) && !BareBang(v)
    ensures var text := "\"" + Escape(v) + "\"";
            && !Lex(text).Diverges? && !Lex(v).Diverges?
            && ParseText(text) == Ok(Meaning(OneFragment(v)))
            && ParsePipelineText(text) == Ok([ParsedStep("search", map[], v)])
            && (ParseText(v) == Ok(Meaning(OneFragment(v))) <==> PlainWord(v))
            && (forall lead, items :: AllSpace(lead) && ValidQuery(items) && v == QueryText(lead, items) ==>
                  ParseText(v) == Ok(Meaning(ClausesOf(items))))
            && (v == "NOT" ==> ParseText(v) == Err(ExpectedFragment))
  {
    DivergesIff(v);
    QuotedSearch(v);
    QuotedIsFragment(v);
    forall lead, items | AllSpace(lead) && ValidQuery(items) && v == QueryText(lead, items)
      ensures ParseText(v) == Ok(Meaning(ClausesOf(items)))
    {
      SearchTextMeaning(lead, items);
    }
    if PlainWord(v) {
      WordIsFragment(v);
    }
    if ParseText(v) == Ok(Meaning(OneFragment(v))) {
      SearchingForItself(v);
    }
    if v == "NOT" {
      LoneNot();
    }
  }

  lemma FragmentItem(lit: Literal)
    requires ValidLiteral(lit)
    ensures var items := [Item(Fragment(lit), " ", "", "")];
            && ValidQuery(items)
            && QueryText("", items) == Print([LiteralToken(lit)])
            && ClausesOf(items) == [Fragment(lit)]
  {
    var items := [Item(Fragment(lit), " ", "", "")];
    assert QueryThen(items[1..], []) == [];
    assert [LiteralToken(lit)] + [] == [LiteralToken(lit)];
  }

  lemma QuotedIsFragment(v: string)
    requires IsQuotable(v)
    ensures var text := "\"" + Escape(v) + "\"";
            !Lex(text).Diverges? && ParseText(text) == Ok(Meaning(OneFragment(v)))
  {
    FragmentItem(Literal(v, true));
    OneQuoted(v);
    SearchTextMeaning("", [Item(Fragment(Literal(v, true)), " ", "", "")]);
  }

  lemma WordIsFragment(v: string)
    requires PlainWord(v)
    ensures !Lex(v).Diverges? && ParseText(v) == Ok(Meaning(OneFragment(v)))
  {
    var lit := Literal(v, false);
    FragmentItem(lit);
    assert [LiteralToken(lit)][1..] == [] && v + "" == v;
    assert Print([LiteralToken(lit)]) == v;
    SearchTextMeaning("", [Item(Fragment(lit), " ", "", "")]);
    SameMeaning(v);
  }

  lemma SameMeaning(v: string)
    ensures Meaning([Fragment(Literal(v, false))]) == Meaning(OneFragment(v))
  {
    var a, b := [Fragment(Literal(v, false))], OneFragment(v);
    assert a[..0] == [] && b[..0] == [];
    assert SetKeys(a) == SetKeys(b) == {} && ExcludedKeys(a) == ExcludedKeys(b) == {};
    assert forall key :: LastSet(a, key) == LastSet(b, key) && AllExcluded(a, key) == AllExcluded(b, key);
    assert a[0].lit.text == b[0].lit.text;
    assert Meaning(a).fragments == Meaning(b).fragments;
    assert Meaning(a).notFragments == Meaning(b).notFragments;
  }

  lemma SearchingForItself(v: string)
    requires v != "" && ValidText(v) && !Lex(v).Diverges? && ParseText(v) == Ok(Meaning(OneFragment(v)))
    ensures PlainWord(v)
  {
    var ts := Lex(v).tokens;
    assert OneFragment(v)[0].lit.text == v;
    assert v in Meaning(OneFragment(v)).fragments;
    assert Clauses(ts, EMPTY).Ok? && v in Clauses(ts, EMPTY).value.fragments;
    FragmentsAreTokens(ts, EMPTY, v);
    var t :| t in ts && (t.typ == Str || t.typ == Quoted) && t.value == v;
    WholeTextIsWord(v, t);
  }

  lemma LoneNot()
    ensures !Lex("NOT").Diverges? && ParseText("NOT") == Err(ExpectedFragment)
  {
    var ts := [Token(Keyword, "NOT")];
    assert ts[1..] == [] && Print(ts) == "NOT";
    LexPrint(ts);
    assert Clause(ts, EMPTY) == Err(ExpectedFragment);
  }
}
