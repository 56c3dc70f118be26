/** What a search text means, stated on the clauses of the query language and not on tokens. */
module SearchLaws {
  import opened Common
  import opened Lexer
  import opened LexerLaws
  import opened TokenCursor
  import opened SearchParser

  /** A fragment as the user writes it. */
  datatype Literal = Literal(text: string, quoted: bool)

  datatype QueryClause =
    | Fragment(lit: Literal)
    | NotFragment(lit: Literal)
    | FieldIs(field: string, lit: Literal)
    | FieldIsNot(field: string, lit: Literal)
    | FieldIn(field: string, lits: seq<Literal>)
    | FieldNotIn(field: string, lits: seq<Literal>)

  /** A clause with the white space it is written with: `gap` where some is needed, `opt` where it is optional,
      `sep` after the clause. */
  datatype Item = Item(clause: QueryClause, gap: string, opt: string, sep: string)

  // ---- Printing ----

  predicate AllSpace(s: string) {
    forall k :: 0 <= k < |s| ==> IsSpace(s[k])
  }

  predicate PlainWord(s: string) {
    IsWord(s) && !IsKeyword(s)
  }

  predicate ValidLiteral(l: Literal) {
    if l.quoted then IsQuotable(l.text) else PlainWord(l.text)
  }

  predicate ValidLiterals(ls: seq<Literal>) {
    forall k :: 0 <= k < |ls| ==> ValidLiteral(ls[k])
  }

  predicate ValidClause(c: QueryClause) {
    match c
    case Fragment(lit) => ValidLiteral(lit)
    case NotFragment(lit) => ValidLiteral(lit)
    case FieldIs(field, lit) => PlainWord(field) && ValidLiteral(lit)
    case FieldIsNot(field, lit) => PlainWord(field) && ValidLiteral(lit)
    case FieldIn(field, lits) => PlainWord(field) && ValidLiterals(lits)
    case FieldNotIn(field, lits) => PlainWord(field) && ValidLiterals(lits)
  }

  predicate ValidItem(i: Item) {
    && ValidClause(i.clause)
    && AllSpace(i.gap) && i.gap != ""
    && AllSpace(i.opt) && AllSpace(i.sep)
  }

  /** Clauses are separated; after the last one white space is optional. */
  predicate ValidQuery(items: seq<Item>) {
    && (forall k :: 0 <= k < |items| ==> ValidItem(items[k]))
    && (forall k :: 0 <= k < |items| - 1 ==> items[k].sep != "")
  }

  function LiteralToken(l: Literal): Token {
    Token(if l.quoted then Quoted else Str, l.text)
  }

  function SpacesThen(w: string, rest: seq<Token>): seq<Token> {
    if w == "" then rest else [Token(Whitespace, [w[0]])] + SpacesThen(w[1..], rest)
  }

  function LiteralsThen(ls: seq<Literal>, opt: string, rest: seq<Token>): seq<Token>
    requires ls != []
  {
    [LiteralToken(ls[0])] +
    SpacesThen(opt,
      if |ls| == 1 then [Token(Rparen, ")")] + rest
      else [Token(Comma, ",")] + SpacesThen(opt, LiteralsThen(ls[1..], opt, rest)))
  }

  function ListThen(ls: seq<Literal>, opt: string, rest: seq<Token>): seq<Token> {
    SpacesThen(opt, [Token(Lparen, "(")] +
      SpacesThen(opt, if ls == [] then [Token(Rparen, ")")] + rest else LiteralsThen(ls, opt, rest)))
  }

  function ClauseThen(c: QueryClause, gap: string, opt: string, rest: seq<Token>): seq<Token> {
    match c
    case Fragment(lit) => [LiteralToken(lit)] + rest
    case NotFragment(lit) => [Token(Keyword, "NOT")] + SpacesThen(gap, [LiteralToken(lit)] + rest)
    case FieldIs(field, lit) => [Token(Str, field), Token(Equals, "="), LiteralToken(lit)] + rest
    case FieldIsNot(field, lit) => [Token(Str, field), Token(NotEquals, "!="), LiteralToken(lit)] + rest
    case FieldIn(field, lits) =>
      [Token(Str, field)] + SpacesThen(gap, [Token(Keyword, "IN")] + ListThen(lits, opt, rest))
    case FieldNotIn(field, lits) =>
      [Token(Str, field)] + SpacesThen(gap, [Token(Keyword, "NOT")] +
        SpacesThen(gap, [Token(Keyword, "IN")] + ListThen(lits, opt, rest)))
  }

  function QueryThen(items: seq<Item>, tail: seq<Token>): seq<Token> {
    if items == [] then tail
    else ClauseThen(items[0].clause, items[0].gap, items[0].opt, SpacesThen(items[0].sep, QueryThen(items[1..], tail)))
  }

  function QueryTokens(items: seq<Item>): seq<Token> {
    QueryThen(items, [])
  }

  /** White space separates the last clause from what follows. */
  predicate Separated(items: seq<Item>, tail: seq<Token>) {
    items == [] || tail == [] || items[|items| - 1].sep != ""
  }

  /** The text of a query, with `lead` white space in front. */
  function QueryText(lead: string, items: seq<Item>): string {
    Print(SpacesThen(lead, QueryTokens(items)))
  }

  // ---- Meaning ----

  function Texts(ls: seq<Literal>): (r: seq<string>)
    ensures |r| == |ls|
  {
    seq(|ls|, k requires 0 <= k < |ls| => ls[k].text)
  }

  /** The field a clause sets, if any, and the values it sets it to. */
  function Positive(c: QueryClause): Option<(string, seq<string>)> {
    match c
    case FieldIs(field, lit) => Some((Lower(field), [lit.text]))
    case FieldIn(field, lits) => Some((Lower(field), Texts(lits)))
    case _ => None
  }

  /** The field a clause excludes values of, if any, and those values. */
  function Negative(c: QueryClause): Option<(string, seq<string>)> {
    match c
    case FieldIsNot(field, lit) => Some((Lower(field), [lit.text]))
    case FieldNotIn(field, lits) => Some((Lower(field), Texts(lits)))
    case _ => None
  }

  /** The values of the last clause that sets `key`. */
  function LastSet(cs: seq<QueryClause>, key: string): seq<string> {
    if cs == [] then []
    else
      var p := Positive(cs[|cs| - 1]);
      if p.Some? && p.value.0 == key then p.value.1 else LastSet(cs[..|cs| - 1], key)
  }

  /** The values all clauses together exclude for `key`, in order. */
  function AllExcluded(cs: seq<QueryClause>, key: string): seq<string> {
    if cs == [] then []
    else
      var n := Negative(cs[|cs| - 1]);
      AllExcluded(cs[..|cs| - 1], key) + if n.Some? && n.value.0 == key then n.value.1 else []
  }

  function SetKeys(cs: seq<QueryClause>): set<string> {
    set k | 0 <= k < |cs| && Positive(cs[k]).Some? :: Positive(cs[k]).value.0
  }

  function ExcludedKeys(cs: seq<QueryClause>): set<string> {
    set k | 0 <= k < |cs| && Negative(cs[k]).Some? :: Negative(cs[k]).value.0
  }

  /** What a list of clauses asks for. */
  function Meaning(cs: seq<QueryClause>): Search {
    Search(
      set k | 0 <= k < |cs| && cs[k].Fragment? :: cs[k].lit.text,
      set k | 0 <= k < |cs| && cs[k].NotFragment? :: cs[k].lit.text,
      map key | key in SetKeys(cs) :: LastSet(cs, key),
      map key | key in ExcludedKeys(cs) :: AllExcluded(cs, key),
      ToSet(LastSet(cs, "source")), ToSet(AllExcluded(cs, "source")),
      ToSet(LastSet(cs, "host")), ToSet(AllExcluded(cs, "host")))
  }

  function ClausesOf(items: seq<Item>): (r: seq<QueryClause>)
    ensures |r| == |items|
  {
    seq(|items|, k requires 0 <= k < |items| => items[k].clause)
  }

  // ---- The printed tokens are canonical ----

  lemma {:induction false} SpacesCanonical(w: string, rest: seq<Token>)
    requires AllSpace(w) && Canonical(rest)
    ensures Canonical(SpacesThen(w, rest))
    ensures w != "" ==> TypeAt(SpacesThen(w, rest)) == Whitespace
  {
    if w != "" {
      SpacesCanonical(w[1..], rest);
      assert SpacesThen(w, rest)[1..] == SpacesThen(w[1..], rest);
    }
  }

  lemma ConsCanonical(t: Token, rest: seq<Token>)
    requires CanonicalToken(t) && Canonical(rest) && CanFollow(t, rest)
    ensures Canonical([t] + rest)
  {
    assert ([t] + rest)[1..] == rest;
  }

  /** The next token does not run into a word before it. */
  predicate Separate(ts: seq<Token>) {
    ts == [] || (!IsWordToken(ts[0]) && ts[0].typ != Quoted)
  }

  lemma SpacesSeparate(w: string, rest: seq<Token>)
    requires AllSpace(w) && Canonical(rest) && (w == "" ==> Separate(rest))
    ensures Canonical(SpacesThen(w, rest)) && Separate(SpacesThen(w, rest))
  {
    SpacesCanonical(w, rest);
  }

  lemma {:induction false} LiteralsCanonical(ls: seq<Literal>, opt: string, rest: seq<Token>)
    requires ls != [] && ValidLiterals(ls) && AllSpace(opt) && Canonical(rest)
    ensures Canonical(LiteralsThen(ls, opt, rest))
    decreases |ls|
  {
    var after: seq<Token>;
    if |ls| == 1 {
      after := [Token(Rparen, ")")] + rest;
      ConsCanonical(Token(Rparen, ")"), rest);
    } else {
      LiteralsCanonical(ls[1..], opt, rest);
      var more := SpacesThen(opt, LiteralsThen(ls[1..], opt, rest));
      SpacesCanonical(opt, LiteralsThen(ls[1..], opt, rest));
      after := [Token(Comma, ",")] + more;
      ConsCanonical(Token(Comma, ","), more);
    }
    SpacesSeparate(opt, after);
    ConsCanonical(LiteralToken(ls[0]), SpacesThen(opt, after));
  }

  lemma ListCanonical(ls: seq<Literal>, opt: string, rest: seq<Token>)
    requires ValidLiterals(ls) && AllSpace(opt) && Canonical(rest)
    ensures Canonical(ListThen(ls, opt, rest)) && Separate(ListThen(ls, opt, rest))
  {
    var inner := if ls == [] then [Token(Rparen, ")")] + rest else LiteralsThen(ls, opt, rest);
    if ls == [] {
      ConsCanonical(Token(Rparen, ")"), rest);
    } else {
      LiteralsCanonical(ls, opt, rest);
    }
    SpacesCanonical(opt, inner);
    var list := [Token(Lparen, "(")] + SpacesThen(opt, inner);
    ConsCanonical(Token(Lparen, "("), SpacesThen(opt, inner));
    SpacesSeparate(opt, list);
  }

  lemma InListCanonical(ls: seq<Literal>, gap: string, opt: string, rest: seq<Token>)
    requires ValidLiterals(ls) && AllSpace(gap) && gap != "" && AllSpace(opt) && Canonical(rest)
    ensures var ts := SpacesThen(gap, [Token(Keyword, "IN")] + ListThen(ls, opt, rest));
            Canonical(ts) && Separate(ts)
  {
    ListCanonical(ls, opt, rest);
    ConsCanonical(Token(Keyword, "IN"), ListThen(ls, opt, rest));
    SpacesSeparate(gap, [Token(Keyword, "IN")] + ListThen(ls, opt, rest));
  }

  lemma ClauseCanonical(i: Item, rest: seq<Token>)
    requires ValidItem(i) && Canonical(rest) && Separate(rest)
    ensures Canonical(ClauseThen(i.clause, i.gap, i.opt, rest))
  {
    match i.clause
    case Fragment(lit) =>
      ConsCanonical(LiteralToken(lit), rest);
    case NotFragment(lit) =>
      ConsCanonical(LiteralToken(lit), rest);
      var after := [LiteralToken(lit)] + rest;
      SpacesSeparate(i.gap, after);
      ConsCanonical(Token(Keyword, "NOT"), SpacesThen(i.gap, after));
    case FieldIs(field, lit) =>
      ConsCanonical(LiteralToken(lit), rest);
      var after := [LiteralToken(lit)] + rest;
      ConsCanonical(Token(Equals, "="), after);
      ConsCanonical(Token(Str, field), [Token(Equals, "=")] + after);
      assert ClauseThen(i.clause, i.gap, i.opt, rest) == [Token(Str, field)] + ([Token(Equals, "=")] + after);
    case FieldIsNot(field, lit) =>
      ConsCanonical(LiteralToken(lit), rest);
      var after := [LiteralToken(lit)] + rest;
      ConsCanonical(Token(NotEquals, "!="), after);
      ConsCanonical(Token(Str, field), [Token(NotEquals, "!=")] + after);
      assert ClauseThen(i.clause, i.gap, i.opt, rest) == [Token(Str, field)] + ([Token(NotEquals, "!=")] + after);
    case FieldIn(field, lits) =>
      InListCanonical(lits, i.gap, i.opt, rest);
      ConsCanonical(Token(Str, field), SpacesThen(i.gap, [Token(Keyword, "IN")] + ListThen(lits, i.opt, rest)));
    case FieldNotIn(field, lits) =>
      InListCanonical(lits, i.gap, i.opt, rest);
      var inList := SpacesThen(i.gap, [Token(Keyword, "IN")] + ListThen(lits, i.opt, rest));
      ConsCanonical(Token(Keyword, "NOT"), inList);
      SpacesSeparate(i.gap, [Token(Keyword, "NOT")] + inList);
      ConsCanonical(Token(Str, field), SpacesThen(i.gap, [Token(Keyword, "NOT")] + inList));
  }

  lemma {:induction false} QueryCanonical(items: seq<Item>, tail: seq<Token>)
    requires ValidQuery(items) && Canonical(tail) && Separated(items, tail)
    ensures Canonical(QueryThen(items, tail))
  {
    if items != [] {
      QueryCanonical(items[1..], tail);
      SpacesSeparate(items[0].sep, QueryThen(items[1..], tail));
      ClauseCanonical(items[0], SpacesThen(items[0].sep, QueryThen(items[1..], tail)));
    }
  }

  // ---- Parsing the printed tokens ----

  lemma {:induction false} SkipSpaces(w: string, rest: seq<Token>)
    ensures SkipSpace(SpacesThen(w, rest)) == SkipSpace(rest)
    ensures w != "" ==> TypeAt(SpacesThen(w, rest)) == Whitespace
    ensures w == "" ==> SpacesThen(w, rest) == rest
  {
    if w != "" {
      SkipSpaces(w[1..], rest);
      assert SpacesThen(w, rest)[1..] == SpacesThen(w[1..], rest);
    }
  }

  lemma LastLiteral(lit: Literal, opt: string, rest: seq<Token>, done: seq<string>)
    ensures ListValues([LiteralToken(lit)] + SpacesThen(opt, [Token(Rparen, ")")] + rest), done) ==
            Ok((done + [lit.text], rest))
  {
    var after := [Token(Rparen, ")")] + rest;
    assert ([LiteralToken(lit)] + SpacesThen(opt, after))[1..] == SpacesThen(opt, after);
    SkipSpaces(opt, after);
    assert after[1..] == rest;
  }

  lemma NextLiteral(lit: Literal, opt: string, more: seq<Token>, done: seq<string>)
    requires FragmentAt(more)
    ensures ListValues([LiteralToken(lit)] + SpacesThen(opt, [Token(Comma, ",")] + SpacesThen(opt, more)), done) ==
            ListValues(more, done + [lit.text])
  {
    var after := [Token(Comma, ",")] + SpacesThen(opt, more);
    assert ([LiteralToken(lit)] + SpacesThen(opt, after))[1..] == SpacesThen(opt, after);
    SkipSpaces(opt, after);
    assert after[1..] == SpacesThen(opt, more);
    SkipSpaces(opt, more);
  }

  lemma {:induction false} LiteralsParse(ls: seq<Literal>, opt: string, rest: seq<Token>, done: seq<string>)
    requires ls != []
    ensures ListValues(LiteralsThen(ls, opt, rest), done) == Ok((done + Texts(ls), rest))
    decreases |ls|
  {
    hide ListValues, SpacesThen;
    var values := done + [ls[0].text];
    if |ls| == 1 {
      LastLiteral(ls[0], opt, rest, done);
      assert Texts(ls) == [ls[0].text];
    } else {
      NextLiteral(ls[0], opt, LiteralsThen(ls[1..], opt, rest), done);
      LiteralsParse(ls[1..], opt, rest, values);
      assert values + Texts(ls[1..]) == done + Texts(ls);
    }
  }

  lemma ListParse(ls: seq<Literal>, opt: string, rest: seq<Token>)
    ensures ParenList(SkipSpace(ListThen(ls, opt, rest))) == Ok((Texts(ls), rest))
  {
    var inner := if ls == [] then [Token(Rparen, ")")] + rest else LiteralsThen(ls, opt, rest);
    var list := [Token(Lparen, "(")] + SpacesThen(opt, inner);
    SkipSpaces(opt, list);
    assert list[1..] == SpacesThen(opt, inner);
    SkipSpaces(opt, inner);
    if ls == [] {
      assert inner[1..] == rest;
      assert Texts(ls) == [];
    } else {
      LiteralsParse(ls, opt, rest, []);
      assert [] + Texts(ls) == Texts(ls);
    }
  }

  // ---- Which tokens are a list ----

  function NoSpaces(ts: seq<Token>): seq<Token> {
    if ts == [] then []
    else (if ts[0].typ == Whitespace then [] else [ts[0]]) + NoSpaces(ts[1..])
  }

  /** The elements of a list, separated by commas, and its closing bracket. */
  predicate IsElements(ts: seq<Token>, values: seq<string>) {
    if values == [] then |ts| == 1 && ts[0].typ == Rparen
    else
      && |ts| >= 2
      && (ts[0].typ == Str || ts[0].typ == Quoted) && ts[0].value == values[0]
      && if |values| == 1 then |ts| == 2 && ts[1].typ == Rparen
         else ts[1].typ == Comma && IsElements(ts[2..], values[1..])
  }

  /** From its opening to its closing bracket, with white space anywhere in between. */
  predicate IsList(ts: seq<Token>, values: seq<string>) {
    && |ts| >= 2 && ts[0].typ == Lparen && ts[|ts| - 1].typ == Rparen
    && IsElements(NoSpaces(ts[1..]), values)
  }

  lemma {:induction false} NoSpacesAppend(a: seq<Token>, b: seq<Token>)
    ensures NoSpaces(a + b) == NoSpaces(a) + NoSpaces(b)
  {
    if a == [] {
      assert a + b == b;
    } else {
      assert (a + b)[1..] == a[1..] + b;
      NoSpacesAppend(a[1..], b);
    }
  }

  lemma {:induction false} SkippedPart(ts: seq<Token>) returns (space: seq<Token>)
    ensures ts == space + SkipSpace(ts) && NoSpaces(space) == []
  {
    space := [];
    if TypeAt(ts) == Whitespace {
      var more := SkippedPart(ts[1..]);
      space := [ts[0]] + more;
      assert space[1..] == more;
    }
  }

  /** Skipping white space in front of something that is not all white space. */
  lemma {:induction false} SkipInFront(pre: seq<Token>, rest: seq<Token>)
    requires NoSpaces(pre) != []
    ensures SkipSpace(pre + rest) == SkipSpace(pre) + rest
    ensures SkipSpace(pre) != [] && NoSpaces(SkipSpace(pre)) == NoSpaces(pre)
    ensures NoSpaces(pre) == [SkipSpace(pre)[0]] + NoSpaces(SkipSpace(pre)[1..])
    ensures SkipSpace(pre)[|SkipSpace(pre)| - 1] == pre[|pre| - 1]
  {
    if TypeAt(pre) == Whitespace {
      assert (pre + rest)[1..] == pre[1..] + rest;
      SkipInFront(pre[1..], rest);
    }
  }

  lemma SpacesDrop(t: Token, space: seq<Token>, more: seq<Token>)
    requires t.typ != Whitespace && NoSpaces(space) == []
    ensures NoSpaces([t] + space + more) == [t] + NoSpaces(more)
  {
    NoSpacesAppend([t] + space, more);
    NoSpacesAppend([t], space);
    assert NoSpaces([t]) == [t];
  }

  /** One turn of the list loop. */
  lemma ListTurn(ts: seq<Token>, done: seq<string>)
    requires FragmentAt(ts)
    ensures var next, values := SkipSpace(ts[1..]), done + [ts[0].value];
            ListValues(ts, done) ==
            if TypeAt(next) == Rparen then Ok((values, next[1..]))
            else if TypeAt(next) != Comma then Err(ExpectedSeparator)
            else if FragmentAt(SkipSpace(next[1..])) then ListValues(SkipSpace(next[1..]), values)
            else Err(ExpectedListValue)
  {
  }

  lemma MoreElements(t: Token, comma: Token, ts: seq<Token>, vs: seq<string>)
    requires (t.typ == Str || t.typ == Quoted) && comma.typ == Comma && vs != [] && IsElements(ts, vs)
    ensures IsElements([t] + ([comma] + ts), [t.value] + vs)
  {
    assert ([t] + ([comma] + ts))[2..] == ts;
    assert ([t.value] + vs)[1..] == vs;
  }

  lemma {:induction false} ElementsFound(ts: seq<Token>, done: seq<string>) returns (pre: seq<Token>, vs: seq<string>)
    requires ListValues(ts, done).Ok?
    ensures ListValues(ts, done).value.0 == done + vs && ts == pre + ListValues(ts, done).value.1
    ensures pre != [] && pre[|pre| - 1].typ == Rparen && IsElements(NoSpaces(pre), vs)
    ensures FragmentAt(ts) ==> vs != []
    decreases |ts|
  {
    hide ListValues, NoSpaces, SkipSpace, IsElements;
    if !FragmentAt(ts) {
      pre, vs := NoElements(ts, done);
    } else {
      ListTurn(ts, done);
      var next, values := SkipSpace(ts[1..]), done + [ts[0].value];
      var space := SkippedPart(ts[1..]);
      if TypeAt(next) == Rparen {
        pre, vs := [ts[0]] + space + [next[0]], [ts[0].value];
        OneElement(ts[0], space, next[0]);
      } else {
        var after := SkipSpace(next[1..]);
        var space2 := SkippedPart(next[1..]);
        var pre2, vs2 := ElementsFound(after, values);
        var more := [next[0]] + space2 + pre2;
        pre, vs := [ts[0]] + space + more, [ts[0].value] + vs2;
        assert next == [next[0]] + next[1..];
        assert values + vs2 == done + vs;
        SpacesDrop(next[0], space2, pre2);
        SpacesDrop(ts[0], space, more);
        MoreElements(ts[0], next[0], NoSpaces(pre2), vs2);
      }
    }
  }

  lemma OneElement(t: Token, space: seq<Token>, close: Token)
    requires (t.typ == Str || t.typ == Quoted) && close.typ == Rparen && NoSpaces(space) == []
    ensures IsElements(NoSpaces([t] + space + [close]), [t.value])
  {
    SpacesDrop(t, space, [close]);
    assert NoSpaces([close]) == [close];
  }

  lemma NoElements(ts: seq<Token>, done: seq<string>) returns (pre: seq<Token>, vs: seq<string>)
    requires ListValues(ts, done).Ok? && !FragmentAt(ts)
    ensures ListValues(ts, done).value.0 == done + vs && ts == pre + ListValues(ts, done).value.1
    ensures pre != [] && pre[|pre| - 1].typ == Rparen && IsElements(NoSpaces(pre), vs)
  {
    var space := SkippedPart(ts);
    var close := SkipSpace(ts);
    pre, vs := space + [close[0]], [];
    NoSpacesAppend(space, [close[0]]);
    assert NoSpaces([close[0]]) == [close[0]];
    assert done + [] == done;
  }

  lemma ElementsHead(ts: seq<Token>, vs: seq<string>)
    requires IsElements(ts, vs) && vs != []
    ensures |ts| >= 2 && FragmentAt(ts) && ts[0].value == vs[0]
    ensures |vs| == 1 ==> |ts[1..]| == 1 && ts[1].typ == Rparen
    ensures |vs| > 1 ==> ts[1].typ == Comma && IsElements(ts[1..][1..], vs[1..])
  {
    assert ts[1..][1..] == ts[2..];
  }

  lemma {:induction false} ElementsParse(pre: seq<Token>, rest: seq<Token>, vs: seq<string>, done: seq<string>)
    requires pre != [] && pre[|pre| - 1].typ == Rparen && IsElements(NoSpaces(pre), vs)
    ensures ListValues(SkipSpace(pre + rest), done) == Ok((done + vs, rest))
    ensures vs != [] ==> FragmentAt(SkipSpace(pre + rest))
    decreases |vs|, 1
  {
    hide ListValues, SkipSpace, NoSpaces, IsElements;
    if vs == [] {
      ClosingParse(pre, rest, done);
    } else {
      ElementsHead(NoSpaces(pre), vs);
      SkipInFront(pre, rest);
      var ts := SkipSpace(pre);
      var front := ts + rest;
      assert front[1..] == ts[1..] + rest && front[0] == ts[0];
      assert NoSpaces(pre)[1..] == NoSpaces(ts[1..]);
      ElementsBehind(ts[1..], rest, vs, done + [vs[0]]);
      ListTurn(front, done);
      assert done + [vs[0]] + vs[1..] == done + vs;
      assert |vs| == 1 ==> done + [vs[0]] == done + vs;
    }
  }

  /** Behind an element: the closing bracket, or a comma and the other elements. */
  lemma {:induction false} ElementsBehind(ts: seq<Token>, rest: seq<Token>, vs: seq<string>, done: seq<string>)
    requires vs != [] && ts != [] && ts[|ts| - 1].typ == Rparen && NoSpaces(ts) != []
    requires |vs| == 1 ==> |NoSpaces(ts)| == 1
    requires |vs| > 1 ==> NoSpaces(ts)[0].typ == Comma && IsElements(NoSpaces(ts)[1..], vs[1..])
    ensures var next := SkipSpace(ts + rest);
            if |vs| == 1 then TypeAt(next) == Rparen && next[1..] == rest
            else
              && TypeAt(next) == Comma
              && FragmentAt(SkipSpace(next[1..]))
              && ListValues(SkipSpace(next[1..]), done) == Ok((done + vs[1..], rest))
    decreases |vs|, 0
  {
    hide ListValues, SkipSpace, NoSpaces, IsElements;
    SkipInFront(ts, rest);
    var next := SkipSpace(ts);
    var front := next + rest;
    assert front[1..] == next[1..] + rest && front[0] == next[0];
    if |vs| == 1 {
      OnlyToken(next);
      assert front[1..] == rest;
    } else {
      assert NoSpaces(ts)[1..] == NoSpaces(next[1..]);
      EndStays(next);
      ElementsParse(next[1..], rest, vs[1..], done);
    }
  }

  lemma EndStays(ts: seq<Token>)
    requires ts != [] && ts[0].typ == Comma && ts[|ts| - 1].typ == Rparen
    ensures ts[1..] != [] && ts[1..][|ts[1..]| - 1].typ == Rparen
  {
  }

  lemma ClosingParse(pre: seq<Token>, rest: seq<Token>, done: seq<string>)
    requires pre != [] && pre[|pre| - 1].typ == Rparen && IsElements(NoSpaces(pre), [])
    ensures ListValues(SkipSpace(pre + rest), done) == Ok((done + [], rest))
  {
    hide ListValues, NoSpaces;
    SkipInFront(pre, rest);
    var ts := SkipSpace(pre);
    OnlyToken(ts);
    assert ts == [ts[0]];
    ClosingOnly(ts[0], rest, done);
  }

  lemma ClosingOnly(close: Token, rest: seq<Token>, done: seq<string>)
    requires close.typ == Rparen
    ensures ListValues([close] + rest, done) == Ok((done + [], rest))
  {
    assert ([close] + rest)[1..] == rest;
    assert done + [] == done;
  }

  /** A text that ends with its only token that is no white space, and does not start with any. */
  lemma OnlyToken(ts: seq<Token>)
    requires ts != [] && TypeAt(ts) != Whitespace && ts[|ts| - 1].typ != Whitespace && |NoSpaces(ts)| == 1
    ensures |ts| == 1
  {
    if |ts| > 1 {
      assert ts == [ts[0]] + ts[1..];
      LastStays(ts[1..]);
    }
  }

  lemma {:induction false} LastStays(ts: seq<Token>)
    requires ts != [] && ts[|ts| - 1].typ != Whitespace
    ensures NoSpaces(ts) != []
  {
    if ts[0].typ == Whitespace {
      LastStays(ts[1..]);
    }
  }

  /** Exactly the texts between brackets with fragments separated by commas are lists, with white space anywhere in
      between; no comma is left out, and none stands behind the last element. */
  lemma ListExactly(ts: seq<Token>, values: seq<string>, rest: seq<Token>)
    ensures ParenList(ts) == Ok((values, rest)) <==> exists list :: ts == list + rest && IsList(list, values)
  {
    hide ListValues, NoSpaces, SkipSpace, IsElements;
    if ParenList(ts) == Ok((values, rest)) {
      var space := SkippedPart(ts[1..]);
      var pre, vs := ElementsFound(SkipSpace(ts[1..]), []);
      assert [] + vs == vs;
      var list := [ts[0]] + (space + pre);
      NoSpacesAppend(space, pre);
      assert [] + NoSpaces(pre) == NoSpaces(pre);
      assert list[1..] == space + pre && list[|list| - 1] == pre[|pre| - 1];
      assert ts == list + rest && IsList(list, values);
    }
    forall list | ts == list + rest && IsList(list, values)
      ensures ParenList(ts) == Ok((values, rest))
    {
      ListParses(list, rest, values);
    }
  }

  lemma ListParses(list: seq<Token>, rest: seq<Token>, values: seq<string>)
    requires IsList(list, values)
    ensures ParenList(list + rest) == Ok((values, rest))
  {
    hide ListValues, NoSpaces, SkipSpace, IsElements;
    assert (list + rest)[1..] == list[1..] + rest;
    assert list[1..][|list[1..]| - 1] == list[|list| - 1];
    ElementsParse(list[1..], rest, values, []);
    assert [] + values == values;
  }

  /** The elements of a list up to the last one, with whatever comes behind it. */
  function ElementsThen(ls: seq<Literal>, opt: string, rest: seq<Token>): seq<Token>
    requires ls != []
  {
    [LiteralToken(ls[0])] +
    SpacesThen(opt, if |ls| == 1 then rest else [Token(Comma, ",")] + SpacesThen(opt, ElementsThen(ls[1..], opt, rest)))
  }

  lemma {:induction false} ElementsFail(ls: seq<Literal>, opt: string, rest: seq<Token>, done: seq<string>,
                                        e: ParseError)
    requires ls != []
    requires forall lit, values :: ListValues([LiteralToken(lit)] + SpacesThen(opt, rest), values) == Err(e)
    ensures ListValues(ElementsThen(ls, opt, rest), done) == Err(e)
    decreases |ls|
  {
    hide ListValues, SpacesThen;
    if |ls| > 1 {
      NextLiteral(ls[0], opt, ElementsThen(ls[1..], opt, rest), done);
      ElementsFail(ls[1..], opt, rest, done + [ls[0].text], e);
    }
  }

  /** What is wrong with a list that goes on with some other token: behind its opening bracket, behind any number of
      elements, and behind a comma. */
  lemma ListErrors(ls: seq<Literal>, opt: string, rest: seq<Token>)
    requires TypeAt(rest) != Whitespace && !FragmentAt(rest)
    ensures TypeAt(rest) != Rparen ==> ParenList([Token(Lparen, "(")] + SpacesThen(opt, rest)) == Err(ExpectedRparen)
    ensures ls != [] && TypeAt(rest) != Rparen && TypeAt(rest) != Comma ==>
      ParenList([Token(Lparen, "(")] + SpacesThen(opt, ElementsThen(ls, opt, rest))) == Err(ExpectedSeparator)
    ensures ls != [] ==>
      ParenList([Token(Lparen, "(")] +
        SpacesThen(opt, ElementsThen(ls, opt, [Token(Comma, ",")] + SpacesThen(opt, rest)))) == Err(ExpectedListValue)
  {
    OpenList(opt, rest);
    SkipSpaces(opt, rest);
    if ls != [] {
      var comma := [Token(Comma, ",")] + SpacesThen(opt, rest);
      OpenList(opt, ElementsThen(ls, opt, rest));
      OpenList(opt, ElementsThen(ls, opt, comma));
      forall lit, values
        ensures TypeAt(rest) != Rparen && TypeAt(rest) != Comma ==>
          ListValues([LiteralToken(lit)] + SpacesThen(opt, rest), values) == Err(ExpectedSeparator)
        ensures ListValues([LiteralToken(lit)] + SpacesThen(opt, comma), values) == Err(ExpectedListValue)
      {
        LastElement(lit, opt, rest, values);
      }
      if TypeAt(rest) != Rparen && TypeAt(rest) != Comma {
        ElementsFail(ls, opt, rest, [], ExpectedSeparator);
      }
      ElementsFail(ls, opt, comma, [], ExpectedListValue);
    }
  }

  lemma OpenList(opt: string, inner: seq<Token>)
    requires TypeAt(inner) != Whitespace
    ensures ParenList([Token(Lparen, "(")] + SpacesThen(opt, inner)) == ListValues(inner, [])
  {
    var list := [Token(Lparen, "(")] + SpacesThen(opt, inner);
    assert list[1..] == SpacesThen(opt, inner);
    SkipSpaces(opt, inner);
  }

  lemma LastElement(lit: Literal, opt: string, rest: seq<Token>, values: seq<string>)
    requires TypeAt(rest) != Whitespace && !FragmentAt(rest)
    ensures TypeAt(rest) != Rparen && TypeAt(rest) != Comma ==>
      ListValues([LiteralToken(lit)] + SpacesThen(opt, rest), values) == Err(ExpectedSeparator)
    ensures ListValues([LiteralToken(lit)] + SpacesThen(opt, [Token(Comma, ",")] + SpacesThen(opt, rest)), values) ==
            Err(ExpectedListValue)
  {
    var comma := [Token(Comma, ",")] + SpacesThen(opt, rest);
    SkipSpaces(opt, rest);
    SkipSpaces(opt, comma);
    assert ([LiteralToken(lit)] + SpacesThen(opt, rest))[1..] == SpacesThen(opt, rest);
    assert ([LiteralToken(lit)] + SpacesThen(opt, comma))[1..] == SpacesThen(opt, comma);
    assert comma[1..] == SpacesThen(opt, rest);
  }

  /** White space between clauses is ignored. */
  lemma {:induction false} ClausesSkip(ts: seq<Token>, acc: Search)
    ensures Clauses(ts, acc) == Clauses(SkipSpace(ts), acc)
  {
    if TypeAt(ts) == Whitespace {
      ClausesSkip(ts[1..], acc);
    }
  }

  /** What one clause does to the search built so far. */
  function Apply(c: QueryClause, acc: Search): Search {
    match c
    case Fragment(lit) => acc.AddFragment(lit.text)
    case NotFragment(lit) => acc.AddNotFragment(lit.text)
    case FieldIs(field, lit) => acc.SetField(Lower(field), [lit.text])
    case FieldIsNot(field, lit) => acc.AddNotField(Lower(field), [lit.text])
    case FieldIn(field, lits) => acc.SetField(Lower(field), Texts(lits))
    case FieldNotIn(field, lits) => acc.AddNotField(Lower(field), Texts(lits))
  }

  /** What may follow a word on its own: nothing that turns it into a field name. A NOT with a fragment after it
      is read together with the word, to the same effect. */
  predicate LeavesWordAlone(ts: seq<Token>) {
    TypeAt(ts) == Keyword ==> ts[0].value == "NOT" && FragmentAt(SkipSpace(ts[1..]))
  }

  /** The same for the tokens right behind the word, white space included. */
  predicate FreesWord(ts: seq<Token>) {
    && TypeAt(ts) != Equals && TypeAt(ts) != NotEquals
    && (TypeAt(ts) == Whitespace ==> LeavesWordAlone(SkipSpace(ts)))
  }

  lemma WordFragmentParse(word: string, rest: seq<Token>, acc: Search)
    requires FreesWord(rest)
    ensures Clauses([Token(Str, word)] + rest, acc) == Clauses(rest, acc.AddFragment(word))
  {
    var ts := [Token(Str, word)] + rest;
    assert ts[1..] == rest;
    ClausesSkip(rest, acc.AddFragment(word));
  }

  lemma NotFragmentParse(lit: Literal, gap: string, rest: seq<Token>, acc: Search)
    ensures Clauses([Token(Keyword, "NOT")] + SpacesThen(gap, [LiteralToken(lit)] + rest), acc) ==
            Clauses(rest, acc.AddNotFragment(lit.text))
  {
    var after := [LiteralToken(lit)] + rest;
    var ts := [Token(Keyword, "NOT")] + SpacesThen(gap, after);
    assert ts[1..] == SpacesThen(gap, after) && after[1..] == rest;
    SkipSpaces(gap, after);
    assert Clause(ts, acc) == Ok((acc.AddNotFragment(lit.text), rest));
  }

  lemma ComparisonParse(field: string, op: Token, lit: Literal, rest: seq<Token>, acc: Search)
    requires op.typ == Equals || op.typ == NotEquals
    ensures Clauses([Token(Str, field), op, LiteralToken(lit)] + rest, acc) ==
            Clauses(rest, if op.typ == Equals then acc.SetField(Lower(field), [lit.text])
                          else acc.AddNotField(Lower(field), [lit.text]))
  {
    var ts := [Token(Str, field), op, LiteralToken(lit)] + rest;
    assert ts[1..][1..] == [LiteralToken(lit)] + rest;
    assert ts[1..][1..][1..] == rest;
  }

  lemma InParse(field: string, lits: seq<Literal>, gap: string, opt: string, rest: seq<Token>, acc: Search)
    requires gap != ""
    ensures Clauses([Token(Str, field)] + SpacesThen(gap, [Token(Keyword, "IN")] + ListThen(lits, opt, rest)), acc) ==
            Clauses(rest, acc.SetField(Lower(field), Texts(lits)))
  {
    var list := ListThen(lits, opt, rest);
    var after := [Token(Keyword, "IN")] + list;
    var ts := [Token(Str, field)] + SpacesThen(gap, after);
    assert ts[1..] == SpacesThen(gap, after) && after[1..] == list;
    SkipSpaces(gap, after);
    ListParse(lits, opt, rest);
    assert Clause(ts, acc) == Ok((acc.SetField(Lower(field), Texts(lits)), rest));
  }

  lemma NotInParse(field: string, lits: seq<Literal>, gap: string, opt: string, rest: seq<Token>, acc: Search)
    requires gap != ""
    ensures Clauses([Token(Str, field)] + SpacesThen(gap, [Token(Keyword, "NOT")] +
                      SpacesThen(gap, [Token(Keyword, "IN")] + ListThen(lits, opt, rest))), acc) ==
            Clauses(rest, acc.AddNotField(Lower(field), Texts(lits)))
  {
    hide ListThen, Lower, Texts, SpacesThen, ListValues, ParenList;
    var list := ListThen(lits, opt, rest);
    var inList := [Token(Keyword, "IN")] + list;
    var after := [Token(Keyword, "NOT")] + SpacesThen(gap, inList);
    var ts := [Token(Str, field)] + SpacesThen(gap, after);
    assert ts[1..] == SpacesThen(gap, after) && after[1..] == SpacesThen(gap, inList) && inList[1..] == list;
    SkipSpaces(gap, after);
    SkipSpaces(gap, inList);
    ListParse(lits, opt, rest);
    assert Clause(ts, acc) == Ok((acc.AddNotField(Lower(field), Texts(lits)), rest));
  }

  predicate IsBareWord(c: QueryClause) {
    c.Fragment? && !c.lit.quoted
  }

  lemma ClauseParse(i: Item, rest: seq<Token>, acc: Search)
    requires ValidItem(i) && (IsBareWord(i.clause) ==> FreesWord(rest))
    ensures Clauses(ClauseThen(i.clause, i.gap, i.opt, rest), acc) == Clauses(rest, Apply(i.clause, acc))
  {
    match i.clause
    case Fragment(lit) =>
      if lit.quoted {
        assert ([LiteralToken(lit)] + rest)[1..] == rest;
      } else {
        WordFragmentParse(lit.text, rest, acc);
      }
    case NotFragment(lit) => NotFragmentParse(lit, i.gap, rest, acc);
    case FieldIs(field, lit) => ComparisonParse(field, Token(Equals, "="), lit, rest, acc);
    case FieldIsNot(field, lit) => ComparisonParse(field, Token(NotEquals, "!="), lit, rest, acc);
    case FieldIn(field, lits) => InParse(field, lits, i.gap, i.opt, rest, acc);
    case FieldNotIn(field, lits) => NotInParse(field, lits, i.gap, i.opt, rest, acc);
  }

  function Fold(items: seq<Item>, acc: Search): Search {
    if items == [] then acc else Fold(items[1..], Apply(items[0].clause, acc))
  }

  lemma QueryStart(items: seq<Item>, tail: seq<Token>)
    requires ValidQuery(items) && SkipSpace(tail) == tail && LeavesWordAlone(tail)
    ensures SkipSpace(QueryThen(items, tail)) == QueryThen(items, tail)
    ensures LeavesWordAlone(QueryThen(items, tail))
  {
    if items != [] && items[0].clause.NotFragment? {
      var i := items[0];
      var after := [LiteralToken(i.clause.lit)] + SpacesThen(i.sep, QueryThen(items[1..], tail));
      assert QueryThen(items, tail)[1..] == SpacesThen(i.gap, after);
      SkipSpaces(i.gap, after);
    }
  }

  /** The clauses in front of any tokens that a clause could start with are parsed one after the other. */
  lemma {:induction false} QueryParse(items: seq<Item>, tail: seq<Token>, acc: Search)
    requires ValidQuery(items) && Separated(items, tail) && SkipSpace(tail) == tail && LeavesWordAlone(tail)
    ensures Clauses(QueryThen(items, tail), acc) == Clauses(tail, Fold(items, acc))
  {
    if items != [] {
      var i, after := items[0], QueryThen(items[1..], tail);
      var rest := SpacesThen(i.sep, after);
      QueryStart(items[1..], tail);
      SkipSpaces(i.sep, after);
      ClauseParse(i, rest, acc);
      ClausesSkip(rest, Apply(i.clause, acc));
      QueryParse(items[1..], tail, Apply(i.clause, acc));
    }
  }

  // ---- Tokens that no clause uses ----

  /** A clause as written, or a token in a place where no clause takes it. */
  datatype Part = Written(item: Item) | Stray(tok: Token)

  /** The symbols, white space, and IN on its own. */
  predicate IsStray(t: Token) {
    t.typ in {Comma, Lparen, Rparen, Pipe, Equals, NotEquals, Whitespace} || t == Token(Keyword, "IN")
  }

  function PartsThen(parts: seq<Part>, tail: seq<Token>): seq<Token> {
    if parts == [] then tail
    else match parts[0]
      case Written(i) => ClauseThen(i.clause, i.gap, i.opt, SpacesThen(i.sep, PartsThen(parts[1..], tail)))
      case Stray(t) => [t] + PartsThen(parts[1..], tail)
  }

  /** No bare word stands where it would be read as a field name. */
  predicate WellPlaced(parts: seq<Part>, tail: seq<Token>) {
    parts == [] ||
    (WellPlaced(parts[1..], tail) &&
     match parts[0]
     case Written(i) =>
       ValidItem(i) && (IsBareWord(i.clause) ==> FreesWord(SpacesThen(i.sep, PartsThen(parts[1..], tail))))
     case Stray(t) => IsStray(t))
  }

  function ItemsOf(parts: seq<Part>): seq<Item> {
    if parts == [] then []
    else match parts[0]
      case Written(i) => [i] + ItemsOf(parts[1..])
      case Stray(_) => ItemsOf(parts[1..])
  }

  lemma StrayParse(t: Token, rest: seq<Token>, acc: Search)
    requires IsStray(t)
    ensures Clauses([t] + rest, acc) == Clauses(rest, acc)
  {
    var ts := [t] + rest;
    assert ts[1..] == rest;
    assert Clause(ts, acc) == Ok((acc, rest));
  }

  lemma {:induction false} PartsParse(parts: seq<Part>, tail: seq<Token>, acc: Search)
    requires WellPlaced(parts, tail)
    ensures Clauses(PartsThen(parts, tail), acc) == Clauses(tail, Fold(ItemsOf(parts), acc))
  {
    if parts != [] {
      var after := PartsThen(parts[1..], tail);
      match parts[0]
      case Written(i) =>
        var rest := SpacesThen(i.sep, after);
        ClauseParse(i, rest, acc);
        SkipSpaces(i.sep, after);
        ClausesSkip(rest, Apply(i.clause, acc));
        ClausesSkip(after, Apply(i.clause, acc));
        PartsParse(parts[1..], tail, Apply(i.clause, acc));
        assert ([i] + ItemsOf(parts[1..]))[1..] == ItemsOf(parts[1..]);
      case Stray(t) =>
        StrayParse(t, after, acc);
        PartsParse(parts[1..], tail, acc);
    }
  }

  // ---- The fold is the meaning ----

  lemma {:induction false} FoldSnoc(items: seq<Item>, last: Item, acc: Search)
    ensures Fold(items + [last], acc) == Apply(last.clause, Fold(items, acc))
  {
    if items == [] {
      assert items + [last] == [last];
      assert [last][1..] == [];
    } else {
      assert (items + [last])[1..] == items[1..] + [last];
      FoldSnoc(items[1..], last, Apply(items[0].clause, acc));
    }
  }

  /** A field without a value list, in the shape the derived sets need. */
  lemma {:induction false} AbsentKeys(cs: seq<QueryClause>, key: string)
    ensures key !in SetKeys(cs) ==> LastSet(cs, key) == []
    ensures key !in ExcludedKeys(cs) ==> AllExcluded(cs, key) == []
  {
    if cs != [] {
      var init, last := cs[..|cs| - 1], cs[|cs| - 1];
      AbsentKeys(init, key);
      assert key in SetKeys(init) ==> key in SetKeys(cs);
      assert key in ExcludedKeys(init) ==> key in ExcludedKeys(cs);
    }
  }

  lemma KeysSnoc(init: seq<QueryClause>, last: QueryClause)
    ensures var cs := init + [last];
            && SetKeys(cs) == SetKeys(init) + (if Positive(last).Some? then {Positive(last).value.0} else {})
            && ExcludedKeys(cs) == ExcludedKeys(init) + (if Negative(last).Some? then {Negative(last).value.0} else {})
  {
    var cs := init + [last];
    assert cs[|init|] == last;
    assert forall k :: 0 <= k < |init| ==> cs[k] == init[k];
  }

  lemma FragmentsSnoc(init: seq<QueryClause>, last: QueryClause)
    ensures var cs := init + [last];
            && Meaning(cs).fragments == Meaning(init).fragments + (if last.Fragment? then {last.lit.text} else {})
            && Meaning(cs).notFragments ==
               Meaning(init).notFragments + (if last.NotFragment? then {last.lit.text} else {})
  {
    var cs := init + [last];
    assert cs[|init|] == last;
    assert forall k :: 0 <= k < |init| ==> cs[k] == init[k];
  }

  lemma LastSetSnoc(init: seq<QueryClause>, last: QueryClause, fields: map<string, seq<string>>)
    requires fields == Meaning(init).fields
    ensures Meaning(init + [last]).fields ==
            if Positive(last).Some? then fields[Positive(last).value.0 := Positive(last).value.1] else fields
  {
    hide Positive, Negative, AllExcluded, ExcludedKeys, ToSet;
    var cs := init + [last];
    assert cs[..|init|] == init && cs[|cs| - 1] == last;
    KeysSnoc(init, last);
    var after :=
      if Positive(last).Some? then fields[Positive(last).value.0 := Positive(last).value.1] else fields;
    assert after.Keys == SetKeys(cs);
    assert forall key :: key in after ==> after[key] == LastSet(cs, key);
  }

  lemma ExcludedSnoc(init: seq<QueryClause>, last: QueryClause, nots: map<string, seq<string>>)
    requires nots == Meaning(init).notFields
    ensures Meaning(init + [last]).notFields ==
            if Negative(last).None? then nots
            else nots[Negative(last).value.0 := ValuesOf(nots, Negative(last).value.0) + Negative(last).value.1]
  {
    hide Positive, Negative, LastSet, SetKeys, ToSet;
    var cs := init + [last];
    assert cs[..|init|] == init && cs[|cs| - 1] == last;
    KeysSnoc(init, last);
    var n := Negative(last);
    if n.Some? {
      AbsentKeys(init, n.value.0);
    }
    var after := if n.None? then nots else nots[n.value.0 := ValuesOf(nots, n.value.0) + n.value.1];
    assert after.Keys == ExcludedKeys(cs);
    forall key | key in after
      ensures after[key] == AllExcluded(cs, key)
    {
      assert AllExcluded(init, key) + [] == AllExcluded(init, key);
    }
  }

  // ---- The meaning, clause by clause ----

  /** The clause wants the field to have one of these values. */
  ghost predicate Wants(c: QueryClause, key: string, values: seq<string>) {
    || (c.FieldIs? && Lower(c.field) == key && values == [c.lit.text])
    || (c.FieldIn? && Lower(c.field) == key && |values| == |c.lits| &&
        forall k :: 0 <= k < |values| ==> values[k] == c.lits[k].text)
  }

  /** The clause wants the field to have none of these values. */
  ghost predicate Rejects(c: QueryClause, key: string, values: seq<string>) {
    || (c.FieldIsNot? && Lower(c.field) == key && values == [c.lit.text])
    || (c.FieldNotIn? && Lower(c.field) == key && |values| == |c.lits| &&
        forall k :: 0 <= k < |values| ==> values[k] == c.lits[k].text)
  }

  lemma WantsIff(c: QueryClause, key: string, values: seq<string>)
    ensures Wants(c, key, values) <==> Positive(c) == Some((key, values))
    ensures Rejects(c, key, values) <==> Negative(c) == Some((key, values))
  {
    if c.FieldIn? && Wants(c, key, values) {
      assert values == Texts(c.lits);
    }
    if c.FieldNotIn? && Rejects(c, key, values) {
      assert values == Texts(c.lits);
    }
  }

  /** The words of the search are those of the clauses; of several clauses that want values of one field, in whatever
      case its name is written, the last one counts. */
  lemma WantedMeaning(cs: seq<QueryClause>, key: string)
    ensures forall f :: f in Meaning(cs).fragments <==>
      exists k :: 0 <= k < |cs| && cs[k].Fragment? && cs[k].lit.text == f
    ensures forall f :: f in Meaning(cs).notFragments <==>
      exists k :: 0 <= k < |cs| && cs[k].NotFragment? && cs[k].lit.text == f
    ensures key in Meaning(cs).fields <==> exists k, values :: 0 <= k < |cs| && Wants(cs[k], key, values)
    ensures forall k, values ::
      0 <= k < |cs| && Wants(cs[k], key, values) && (forall j, other :: k < j < |cs| ==> !Wants(cs[j], key, other)) ==>
        key in Meaning(cs).fields && Meaning(cs).fields[key] == values
  {
    forall k, values | 0 <= k < |cs| && Wants(cs[k], key, values)
      ensures key in SetKeys(cs)
    {
      WantsIff(cs[k], key, values);
    }
    if key in SetKeys(cs) {
      var k :| 0 <= k < |cs| && Positive(cs[k]).Some? && Positive(cs[k]).value.0 == key;
      WantsIff(cs[k], key, Positive(cs[k]).value.1);
    }
    forall k, values | 0 <= k < |cs| && Wants(cs[k], key, values) &&
        (forall j, other :: k < j < |cs| ==> !Wants(cs[j], key, other))
      ensures LastSet(cs, key) == values
    {
      LastWins(cs, key, k, values);
    }
  }

  lemma {:induction false} LastWins(cs: seq<QueryClause>, key: string, k: nat, values: seq<string>)
    requires k < |cs| && Wants(cs[k], key, values)
    requires forall j, other :: k < j < |cs| ==> !Wants(cs[j], key, other)
    ensures LastSet(cs, key) == values
  {
    var n := |cs| - 1;
    WantsIff(cs[k], key, values);
    if k < n {
      if Positive(cs[n]).Some? {
        WantsIff(cs[n], Positive(cs[n]).value.0, Positive(cs[n]).value.1);
      }
      LastWins(cs[..n], key, k, values);
    }
  }

  /** What each clause adds to the values rejected for a field. */
  ghost predicate AreRejected(parts: seq<seq<string>>, cs: seq<QueryClause>, key: string) {
    && |parts| == |cs|
    && forall k :: 0 <= k < |cs| ==>
         Rejects(cs[k], key, parts[k]) || (parts[k] == [] && forall other :: !Rejects(cs[k], key, other))
  }

  /** The values rejected for a field are those of all the clauses that reject any, in order. */
  lemma RejectedMeaning(cs: seq<QueryClause>, key: string)
    ensures key in Meaning(cs).notFields <==> exists k, values :: 0 <= k < |cs| && Rejects(cs[k], key, values)
    ensures key in Meaning(cs).notFields ==>
      exists parts :: AreRejected(parts, cs, key) && Meaning(cs).notFields[key] == Flatten(parts)
  {
    forall k, values | 0 <= k < |cs| && Rejects(cs[k], key, values)
      ensures key in ExcludedKeys(cs)
    {
      WantsIff(cs[k], key, values);
    }
    if key in ExcludedKeys(cs) {
      var k :| 0 <= k < |cs| && Negative(cs[k]).Some? && Negative(cs[k]).value.0 == key;
      WantsIff(cs[k], key, Negative(cs[k]).value.1);
      var parts := RejectedParts(cs, key);
    }
  }

  lemma {:induction false} RejectedParts(cs: seq<QueryClause>, key: string) returns (parts: seq<seq<string>>)
    ensures AreRejected(parts, cs, key) && AllExcluded(cs, key) == Flatten(parts)
  {
    hide Negative, Rejects, Flatten;
    parts := [];
    if cs == [] {
      FlattenNone<string>();
    } else {
      var init, last := cs[..|cs| - 1], cs[|cs| - 1];
      parts := RejectedParts(init, key);
      var n := Negative(last);
      var part := if n.Some? && n.value.0 == key then n.value.1 else [];
      forall other
        ensures Rejects(last, key, other) <==> n == Some((key, other))
      {
        WantsIff(last, key, other);
      }
      FlattenSnoc(parts, part);
      parts := parts + [part];
    }
  }

  /** The sources and hosts of a search are the values of the fields of these names. */
  lemma DerivedMeaning(cs: seq<QueryClause>, v: string)
    ensures var m := Meaning(cs);
            && (v in m.sources <==> "source" in m.fields && v in m.fields["source"])
            && (v in m.notSources <==> "source" in m.notFields && v in m.notFields["source"])
            && (v in m.hosts <==> "host" in m.fields && v in m.fields["host"])
            && (v in m.notHosts <==> "host" in m.notFields && v in m.notFields["host"])
  {
    AbsentKeys(cs, "source");
    AbsentKeys(cs, "host");
  }

  /** The two searches agree on everything the parse loop builds. */
  predicate SameParsed(a: Search, b: Search) {
    && a.fragments == b.fragments && a.notFragments == b.notFragments
    && a.fields == b.fields && a.notFields == b.notFields
  }

  lemma ApplyEffect(c: QueryClause, acc: Search)
    ensures var after := Apply(c, acc);
            && after.fragments == acc.fragments + (if c.Fragment? then {c.lit.text} else {})
            && after.notFragments == acc.notFragments + (if c.NotFragment? then {c.lit.text} else {})
            && after.fields ==
               (if Positive(c).Some? then acc.fields[Positive(c).value.0 := Positive(c).value.1] else acc.fields)
            && after.notFields ==
               (if Negative(c).None? then acc.notFields
                else acc.notFields[Negative(c).value.0 := ValuesOf(acc.notFields,
                  Negative(c).value.0) + Negative(c).value.1])
  {
  }

  lemma ApplyMeaning(init: seq<QueryClause>, last: QueryClause, acc: Search)
    requires SameParsed(acc, Meaning(init))
    ensures SameParsed(Apply(last, acc), Meaning(init + [last]))
  {
    ApplyEffect(last, acc);
    FragmentsSnoc(init, last);
    LastSetSnoc(init, last, acc.fields);
    ExcludedSnoc(init, last, acc.notFields);
  }

  lemma {:induction false} FoldMeaning(items: seq<Item>)
    ensures SameParsed(Fold(items, EMPTY), Meaning(ClausesOf(items)))
  {
    if items == [] {
      assert ClausesOf(items) == [];
    } else {
      var init, last := items[..|items| - 1], items[|items| - 1];
      assert items == init + [last];
      FoldMeaning(init);
      FoldSnoc(init, last, EMPTY);
      assert ClausesOf(items) == ClausesOf(init) + [last.clause];
      ApplyMeaning(ClausesOf(init), last.clause, Fold(init, EMPTY));
    }
  }

  /** The text of any list of clauses parses, and to exactly what the clauses mean. */
  lemma {:induction false} SearchTextMeaning(lead: string, items: seq<Item>)
    requires ValidQuery(items) && AllSpace(lead)
    ensures var text := QueryText(lead, items);
            && !BareBang(text)
            && !Lex(text).Diverges?
            && ParseText(text) == Ok(Meaning(ClausesOf(items)))
  {
    var tokens := SpacesThen(lead, QueryTokens(items));
    QueryCanonical(items, []);
    SpacesCanonical(lead, QueryTokens(items));
    LexPrint(tokens);
    DivergesIff(Print(tokens));
    ClausesSkip(tokens, EMPTY);
    SkipSpaces(lead, QueryTokens(items));
    QueryStart(items, []);
    QueryParse(items, [], EMPTY);
    FoldMeaning(items);
    AbsentKeys(ClausesOf(items), "source");
    AbsentKeys(ClausesOf(items), "host");
  }

  function Compared(field: string, op: Token, value: string, acc: Search): Search {
    if op.typ == Equals then acc.SetField(Lower(field), [value]) else acc.AddNotField(Lower(field), [value])
  }

  lemma OperatorParse(field: string, op: Token, rest: seq<Token>, acc: Search)
    requires op.typ == Equals || op.typ == NotEquals
    ensures Clauses([Token(Str, field), op] + rest, acc) ==
            if FragmentAt(rest) then Clauses(rest[1..], Compared(field, op, rest[0].value, acc))
              else Err(ExpectedFragment)
  {
    assert ([Token(Str, field), op] + rest)[1..][1..] == rest;
  }

  /** After any clauses an operator takes the token that directly follows it as its value; the text is an error there if
      and only if that token is no fragment, white space included. */
  lemma {:induction false} DanglingOperator(lead: string, items: seq<Item>, field: string, op: Token, rest: seq<Token>)
    requires AllSpace(lead) && ValidQuery(items) && PlainWord(field) && Canonical(rest)
    requires op == Token(Equals, "=") || op == Token(NotEquals, "!=")
    requires items == [] || items[|items| - 1].sep != ""
    ensures var text := Print(SpacesThen(lead, QueryThen(items, [Token(Str, field), op] + rest)));
            && !Lex(text).Diverges?
            && ParseText(text) ==
               if !FragmentAt(rest) then Err(ExpectedFragment)
               else
                 var more := Clauses(rest[1..], Compared(field, op, rest[0].value, Fold(items, EMPTY)));
                 if more.Ok? then Ok(Derive(more.value)) else more
  {
    var tail := [Token(Str, field), op] + rest;
    assert tail == [Token(Str, field)] + ([op] + rest);
    ConsCanonical(op, rest);
    ConsCanonical(Token(Str, field), [op] + rest);
    var tokens := SpacesThen(lead, QueryThen(items, tail));
    QueryCanonical(items, tail);
    SpacesCanonical(lead, QueryThen(items, tail));
    LexPrint(tokens);
    ClausesSkip(tokens, EMPTY);
    SkipSpaces(lead, QueryThen(items, tail));
    QueryStart(items, tail);
    QueryParse(items, tail, EMPTY);
    OperatorParse(field, op, rest, Fold(items, EMPTY));
  }

  /** Commas, brackets, pipes, operators and a lone IN have no effect where no clause takes them. Clauses written with
      any of them in between, in any number and with or without white space, mean what the clauses mean. */
  lemma {:induction false} StrayTokensMeanNothing(parts: seq<Part>)
    requires WellPlaced(parts, []) && Canonical(PartsThen(parts, []))
    ensures var text := Print(PartsThen(parts, []));
            && !BareBang(text) && !Lex(text).Diverges?
            && ParseText(text) == Ok(Meaning(ClausesOf(ItemsOf(parts))))
  {
    var tokens, items := PartsThen(parts, []), ItemsOf(parts);
    LexPrint(tokens);
    DivergesIff(Print(tokens));
    PartsParse(parts, [], EMPTY);
    FoldMeaning(items);
    AbsentKeys(ClausesOf(items), "source");
    AbsentKeys(ClausesOf(items), "host");
  }

  /** After any such parts: a NOT takes the next fragment, and is an error if there is none; so is a NOT behind a word,
      which may take a list as well; and an IN behind a word has to have a list. */
  lemma {:induction false} KeywordErrors(parts: seq<Part>, word: string, gap: string, rest: seq<Token>)
    requires gap != ""
    ensures var tail := [Token(Keyword, "NOT")] + rest;
            WellPlaced(parts, tail) && Canonical(PartsThen(parts, tail)) && !FragmentAt(SkipSpace(rest)) ==>
              FailsWith(PartsThen(parts, tail), ExpectedFragment)
    ensures var tail := [Token(Str, word)] + SpacesThen(gap, [Token(Keyword, "NOT")] + rest);
            WellPlaced(parts, tail) && Canonical(PartsThen(parts, tail)) &&
            !FragmentAt(SkipSpace(rest)) && !KeywordAt(SkipSpace(rest), "IN") ==>
              FailsWith(PartsThen(parts, tail), ExpectedFragment)
    ensures var tail := [Token(Str, word)] + SpacesThen(gap, [Token(Keyword, "IN")] + rest);
            WellPlaced(parts, tail) && Canonical(PartsThen(parts, tail)) && TypeAt(SkipSpace(rest)) != Lparen ==>
              FailsWith(PartsThen(parts, tail), ExpectedParenList)
  {
    var not, isIn := [Token(Keyword, "NOT")] + rest, [Token(Keyword, "IN")] + rest;
    assert not[1..] == rest && isIn[1..] == rest;
    SkipSpaces(gap, not);
    SkipSpaces(gap, isIn);
    var wordNot, wordIn := [Token(Str, word)] + SpacesThen(gap, not), [Token(Str, word)] + SpacesThen(gap, isIn);
    assert wordNot[1..] == SpacesThen(gap, not) && wordIn[1..] == SpacesThen(gap, isIn);
    var acc := Fold(ItemsOf(parts), EMPTY);
    if !FragmentAt(SkipSpace(rest)) {
      TailFails(parts, not, ExpectedFragment);
      if !KeywordAt(SkipSpace(rest), "IN") {
        TailFails(parts, wordNot, ExpectedFragment);
      }
    }
    if TypeAt(SkipSpace(rest)) != Lparen {
      TailFails(parts, wordIn, ExpectedParenList);
    }
  }

  /** The text that these tokens print to is not a search. */
  ghost predicate FailsWith(tokens: seq<Token>, e: ParseError) {
    Lex(Print(tokens)).Lexed? && ParseText(Print(tokens)) == Err(e)
  }

  lemma TailFails(parts: seq<Part>, tail: seq<Token>, e: ParseError)
    requires tail != [] && Clause(tail, Fold(ItemsOf(parts), EMPTY)) == Err(e)
    ensures WellPlaced(parts, tail) && Canonical(PartsThen(parts, tail)) ==> FailsWith(PartsThen(parts, tail), e)
  {
    if WellPlaced(parts, tail) && Canonical(PartsThen(parts, tail)) {
      LexPrint(PartsThen(parts, tail));
      PartsParse(parts, tail, EMPTY);
    }
  }
}
