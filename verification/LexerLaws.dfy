/** What tokenizing means: a printer for token lists, and the exact set of lists the lexer can produce. */
module LexerLaws {
  import opened Common
  import opened Lexer

  /** Quotes are the only characters that need escaping inside a quoted string. */
  function Escape(v: string): string {
    if v == "" then ""
    else if v[0] == '"' then "\\\"" + Escape(v[1..])
    else [v[0]] + Escape(v[1..])
  }

  function PrintToken(t: Token): string {
    if t.typ == Quoted then "\"" + Escape(t.value) + "\"" else t.value
  }

  function Print(ts: seq<Token>): string {
    if ts == [] then "" else PrintToken(ts[0]) + Print(ts[1..])
  }

  /** A text that is a single unquoted word. */
  predicate IsWord(v: string) {
    && v != ""
    && v[0] != '"'
    && forall k :: 0 <= k < |v| ==> !IsDelimiter(v[k])
  }

  /** Text in which every continuation byte continues something, as in all UTF-8 text. */
  predicate ValidText(s: string) {
    forall k :: 0 <= k < |s| && IsContinuation(s[k]) ==> k > 0 && s[k - 1] as int >= 128
  }

  /** A value a quoted string can have: not empty, and its last byte neither a backslash nor inside a rune. */
  predicate IsQuotable(v: string) {
    && v != ""
    && v[|v| - 1] != '\\'
    && !IsContinuation(v[|v| - 1])
  }

  predicate CanonicalToken(t: Token) {
    match t.typ
    case Str => IsWord(t.value) && !IsKeyword(t.value)
    case Keyword => IsKeyword(t.value)
    case Quoted => IsQuotable(t.value)
    case Whitespace => |t.value| == 1 && IsSpace(t.value[0])
    case Equals => t.value == "="
    case NotEquals => t.value == "!="
    case Lparen => t.value == "("
    case Rparen => t.value == ")"
    case Pipe => t.value == "|"
    case Comma => t.value == ","
    case Invalid => false
  }

  predicate IsWordToken(t: Token) {
    t.typ == Str || t.typ == Keyword
  }

  /** A word ends at a delimiter, and a quote is not one. */
  predicate CanFollow(t: Token, rest: seq<Token>) {
    IsWordToken(t) && rest != [] ==> !IsWordToken(rest[0]) && rest[0].typ != Quoted
  }

  predicate Canonical(ts: seq<Token>) {
    ts == [] || (CanonicalToken(ts[0]) && CanFollow(ts[0], ts[1..]) && Canonical(ts[1..]))
  }

  // ---- Escaping ----

  lemma {:induction false} UnescapeEscape(v: string)
    ensures Unescape(Escape(v)) == v
    ensures v != "" ==> Escape(v) != "" && Escape(v)[0] != '"'
  {
    if v != "" {
      UnescapeEscape(v[1..]);
      var rest := Escape(v[1..]);
      if v[0] == '"' {
        assert Escape(v)[2..] == rest;
      } else {
        assert Escape(v)[1..] == rest;
      }
    }
  }

  lemma {:induction false} EscapeKeepsEnd(v: string)
    requires v != ""
    ensures Escape(v) != "" && Escape(v)[|Escape(v)| - 1] == v[|v| - 1]
  {
    if |v| > 1 {
      EscapeKeepsEnd(v[1..]);
    } else {
      assert Escape(v[1..]) == "";
    }
  }

  /** In escaped text every quote directly follows a backslash. */
  lemma {:induction false} EscapedQuotes(v: string, k: nat)
    requires k < |Escape(v)| && Escape(v)[k] == '"'
    ensures k > 0 && Escape(v)[k - 1] == '\\'
  {
    if v[0] == '"' {
      if k >= 2 {
        EscapedQuotes(v[1..], k - 2);
      }
    } else if k >= 1 {
      EscapedQuotes(v[1..], k - 1);
    }
  }

  lemma UnescapedQuoteIs(r: string, k: nat, q: nat)
    requires 1 <= k <= q < |r|
    requires r[q] == '"' && r[q - 1] != '\\'
    requires forall j :: k <= j < q ==> !(r[j] == '"' && r[j - 1] != '\\')
    ensures UnescapedQuote(r, k) == q
  {
  }

  /** The closing quote of a printed text is the one the printer wrote; the match starts at the last rune before it. */
  lemma ClosingQuoteFound(v: string, rest: string)
    requires v != "" && v[|v| - 1] != '\\'
    ensures var e := Escape(v);
            e != "" && FindStringEnd(e + "\"" + rest) == Some((RuneStart(e, |e| - 1), |e| + 1))
  {
    UnescapeEscape(v);
    EscapeKeepsEnd(v);
    var e := Escape(v);
    var r := e + "\"" + rest;
    assert r[0] == e[0];
    assert r[|e| - 1] == e[|e| - 1] == v[|v| - 1];
    forall j | 1 <= j < |e|
      ensures !(r[j] == '"' && r[j - 1] != '\\')
    {
      if e[j] == '"' {
        EscapedQuotes(v, j);
      }
    }
    UnescapedQuoteIs(r, 1, |e|);
    RuneStartPrefix(e, r, |e| - 1);
  }

  /** The closing quote of a printed quoted string is the one the printer wrote. */
  lemma FindPrintedQuote(v: string, rest: string)
    requires IsQuotable(v)
    ensures var e := Escape(v);
            FindStringEnd(e + "\"" + rest) == Some((|e| - 1, |e| + 1))
  {
    ClosingQuoteFound(v, rest);
    EscapeKeepsEnd(v);
  }

  // ---- Lexing one printed token ----

  lemma {:induction false} WordEndOf(w: string, rest: string)
    requires forall k :: 0 <= k < |w| ==> !IsDelimiter(w[k])
    requires rest == "" || IsDelimiter(rest[0])
    ensures WordEnd(w + rest) == |w|
  {
    if w == "" {
      assert w + rest == rest;
    } else {
      assert (w + rest)[1..] == w[1..] + rest;
      WordEndOf(w[1..], rest);
    }
  }

  lemma FirstOfPrintedQuoted(v: string, rest: string)
    requires IsQuotable(v)
    ensures var piece := "\"" + Escape(v) + "\"";
            FirstToken(piece + rest) == Emit(Token(Quoted, v), |piece|)
  {
    hide Escape, Unescape, IsQuotable, FindStringEnd;
    var e := Escape(v);
    var s := "\"" + e + "\"" + rest;
    FindPrintedQuote(v, rest);
    UnescapeEscape(v);
    assert s[1..] == e + "\"" + rest;
    assert s[1..][..|e|] == e;
  }

  lemma FirstOfPrintedWord(t: Token, rest: string)
    requires CanonicalToken(t) && IsWordToken(t)
    requires rest == "" || IsDelimiter(rest[0])
    ensures FirstToken(t.value + rest) == Emit(t, |t.value|)
  {
    var s := t.value + rest;
    WordEndOf(t.value, rest);
    assert s[..|t.value|] == t.value;
    assert s[0] == t.value[0];
  }

  lemma FirstOfPrintedToken(t: Token, rest: string)
    requires CanonicalToken(t)
    requires IsWordToken(t) ==> rest == "" || IsDelimiter(rest[0])
    ensures PrintToken(t) != ""
    ensures FirstToken(PrintToken(t) + rest) == Emit(t, |PrintToken(t)|)
  {
    if t.typ == Quoted {
      FirstOfPrintedQuoted(t.value, rest);
    } else if IsWordToken(t) {
      FirstOfPrintedWord(t, rest);
    } else {
      var s := t.value + rest;
      assert s[0] == t.value[0];
      assert |t.value| == 2 ==> s[1] == t.value[1];
      assert [t.value[0]] == t.value[..1];
    }
  }

  lemma PrintedStart(ts: seq<Token>)
    requires Canonical(ts) && ts != []
    ensures Print(ts) != ""
    ensures !IsWordToken(ts[0]) && ts[0].typ != Quoted ==> IsDelimiter(Print(ts)[0])
  {
  }

  // ---- What the lexer emits ----

  lemma {:induction false} UnescapeKeepsEnd(v: string)
    requires v != ""
    ensures Unescape(v) != ""
    ensures Unescape(v)[|Unescape(v)| - 1] == v[|v| - 1]
  {
    if |v| >= 2 {
      if v[0] == '\\' && v[1] == '"' {
        if |v| > 2 {
          UnescapeKeepsEnd(v[2..]);
        }
      } else {
        UnescapeKeepsEnd(v[1..]);
      }
    }
  }

  lemma ValidSlice(s: string, lo: nat, hi: nat)
    requires ValidText(s) && lo <= hi <= |s|
    requires lo < hi ==> !IsContinuation(s[lo])
    ensures ValidText(s[lo..hi])
  {
  }

  lemma ClosedQuoteValue(r: string)
    requires ValidText(r) && FindStringEnd(r).Some?
    ensures var str := r[..FindStringEnd(r).value.0 + 1];
            str[|str| - 1] != '\\' && !IsContinuation(str[|str| - 1])
  {
    var m := FindStringEnd(r).value;
    if r[0] != '"' && m.0 + 2 < m.1 {
      assert IsContinuation(r[m.0 + 1]);
    }
  }

  lemma FirstQuotedIsCanonical(s: string)
    requires s != "" && s[0] == '"' && ValidText(s) && FirstToken(s).Emit?
    ensures CanonicalToken(FirstToken(s).tok) && FirstToken(s).tok.typ == Quoted
    ensures 0 < FirstToken(s).width <= |s| && s[FirstToken(s).width - 1] == '"'
  {
    hide Unescape;
    var r := s[1..];
    ValidSlice(s, 1, |s|);
    ClosedQuoteValue(r);
    UnescapeKeepsEnd(r[..FindStringEnd(r).value.0 + 1]);
    assert s[FirstToken(s).width - 1] == r[FirstToken(s).width - 2];
  }

  lemma FirstUnquotedIsCanonical(s: string)
    requires s != "" && s[0] != '"' && FirstToken(s).Emit? && FirstToken(s).width > 0
    ensures var first := FirstToken(s);
            && CanonicalToken(first.tok)
            && first.tok.typ != Quoted
            && (IsWordToken(first.tok) ==> !IsDelimiter(s[0]) && (first.width < |s| ==> IsDelimiter(s[first.width])))
            && (!IsWordToken(first.tok) ==> s[first.width - 1] as int < 128)
  {
    hide Unescape, FindStringEnd;
  }

  lemma FirstTokenIsCanonical(s: string)
    requires s != "" && ValidText(s)
    requires FirstToken(s).Emit? && FirstToken(s).width > 0
    ensures var first := FirstToken(s);
            && CanonicalToken(first.tok)
            && (IsWordToken(first.tok) && first.width < |s| ==> IsDelimiter(s[first.width]))
            && (IsWordToken(first.tok) || first.tok.typ == Quoted ==> !IsDelimiter(s[0]))
            && ValidText(s[first.width..])
  {
    var first := FirstToken(s);
    hide FirstToken, CanonicalToken;
    if s[0] == '"' {
      FirstQuotedIsCanonical(s);
    } else {
      FirstUnquotedIsCanonical(s);
    }
    if first.width < |s| {
      assert s[first.width - 1] as int < 128 || IsDelimiter(s[first.width]);
      ValidSlice(s, first.width, |s|);
    }
  }

  /** Every token list that tokenize returns is canonical. */
  lemma {:induction false} LexedIsCanonical(s: string)
    requires ValidText(s) && Lex(s).Lexed?
    ensures Canonical(Lex(s).tokens)
    ensures s != "" ==> Lex(s).tokens != [] && Lex(s).tokens[0] == FirstToken(s).tok
    decreases |s|
  {
    if s != "" {
      var first := FirstToken(s);
      FirstTokenIsCanonical(s);
      var tail := s[first.width..];
      LexedIsCanonical(tail);
      var ts := Lex(s).tokens;
      assert ts[0] == first.tok && ts[1..] == Lex(tail).tokens;
      if tail != "" {
        FirstTokenIsCanonical(tail);
        assert tail[0] == s[first.width];
      }
    }
  }

  // ---- Round trips ----

  lemma {:induction false} LexPrint(ts: seq<Token>)
    requires Canonical(ts)
    ensures Lex(Print(ts)) == Lexed(ts)
  {
    if ts != [] {
      var rest := Print(ts[1..]);
      if ts[1..] != [] {
        PrintedStart(ts[1..]);
      }
      FirstOfPrintedToken(ts[0], rest);
      LexPrint(ts[1..]);
      assert Print(ts)[|PrintToken(ts[0])|..] == rest;
      assert [ts[0]] + ts[1..] == ts;
    }
  }

  /** Printing a token list and tokenizing the text gives the list back exactly when it is canonical. */
  lemma {:induction false} RoundTripIff(ts: seq<Token>)
    requires ValidText(Print(ts))
    ensures Lex(Print(ts)) == Lexed(ts) <==> Canonical(ts)
  {
    if Canonical(ts) {
      LexPrint(ts);
    }
    if Lex(Print(ts)) == Lexed(ts) {
      LexedIsCanonical(Print(ts));
    }
  }

  /** Printing what was lexed normalises a text without changing its tokens. */
  lemma {:induction false} PrintIsNormalForm(s: string)
    requires ValidText(s) && Lex(s).Lexed?
    ensures Lex(Print(Lex(s).tokens)) == Lex(s)
  {
    LexedIsCanonical(s);
    LexPrint(Lex(s).tokens);
  }

  // ---- The tokens tile the text ----

  /** The piece of text each iteration consumed. */
  function Pieces(s: string): seq<string>
    decreases |s|
  {
    if s == "" || FirstToken(s).UnclosedHere? || FirstToken(s).width == 0 then []
    else [s[..FirstToken(s).width]] + Pieces(s[FirstToken(s).width..])
  }

  /** A piece spells its token: verbatim, or between quotes with some suffix of the last rune left out. */
  predicate Spells(piece: string, t: Token) {
    if t.typ == Quoted then
      && |piece| >= 2
      && piece[0] == '"' && piece[|piece| - 1] == '"'
      && exists cut :: 1 < cut <= |piece| && t.value == Unescape(piece[1..cut])
    else
      piece == t.value
  }

  lemma FirstPieceSpells(s: string)
    requires s != "" && FirstToken(s).Emit?
    ensures Spells(s[..FirstToken(s).width], FirstToken(s).tok) || FirstToken(s).width == 0
  {
    var first := FirstToken(s);
    var piece := s[..first.width];
    if s[0] == '"' {
      var m := FindStringEnd(s[1..]).value;
      assert s[1..][..m.0 + 1] == piece[1..m.0 + 2];
      assert piece[|piece| - 1] == s[1..][m.1 - 1];
    }
  }

  lemma PiecesStep(s: string)
    requires s != "" && Lex(s).Lexed?
    ensures var first := FirstToken(s);
            && first.Emit? && 0 < first.width <= |s|
            && Lex(s[first.width..]).Lexed?
            && Lex(s).tokens == [first.tok] + Lex(s[first.width..]).tokens
            && Pieces(s) == [s[..first.width]] + Pieces(s[first.width..])
  {
  }

  lemma NoPieces()
    ensures Lex("") == Lexed([]) && Pieces("") == [] && Flatten(Pieces("")) == ""
  {
  }

  /** The pieces rebuild the text, one piece for each token. */
  lemma {:induction false} Tiling(s: string)
    requires Lex(s).Lexed?
    ensures |Pieces(s)| == |Lex(s).tokens|
    ensures Flatten(Pieces(s)) == s
    ensures forall k :: 0 <= k < |Pieces(s)| ==> Spells(Pieces(s)[k], Lex(s).tokens[k])
    decreases |s|
  {
    hide Lex, Pieces, FirstToken, Spells, Flatten;
    NoPieces();
    if s != "" {
      PiecesStep(s);
      var w := FirstToken(s).width;
      var head, tail := s[..w], s[w..];
      FirstPieceSpells(s);
      Tiling(tail);
      TilingStep(head, Pieces(tail), FirstToken(s).tok, Lex(tail).tokens);
      assert s == head + tail;
      assert Pieces(s) == [head] + Pieces(tail);
      assert Lex(s).tokens == [FirstToken(s).tok] + Lex(tail).tokens;
    }
  }

  lemma TilingStep(head: string, pieces: seq<string>, t: Token, ts: seq<Token>)
    requires |pieces| == |ts| && Spells(head, t)
    requires forall k :: 0 <= k < |pieces| ==> Spells(pieces[k], ts[k])
    ensures Flatten([head] + pieces) == head + Flatten(pieces)
    ensures forall k :: 0 <= k < |pieces| + 1 ==> Spells(([head] + pieces)[k], ([t] + ts)[k])
  {
    assert ([head] + pieces)[1..] == pieces;
  }

  function Values(ts: seq<Token>): string {
    if ts == [] then "" else ts[0].value + Values(ts[1..])
  }

  predicate QuoteFree(ts: seq<Token>) {
    forall k :: 0 <= k < |ts| ==> ts[k].typ != Quoted
  }

  lemma {:induction false} QuoteFreePrint(ts: seq<Token>)
    requires QuoteFree(ts)
    ensures Print(ts) == Values(ts)
  {
    if ts != [] {
      QuoteFreePrint(ts[1..]);
    }
  }

  /** Joining the token values gives the text back when it holds no quoted token. */
  lemma {:induction false} QuoteFreeValues(s: string)
    requires Lex(s).Lexed? && QuoteFree(Lex(s).tokens)
    ensures Values(Lex(s).tokens) == s
    decreases |s|
  {
    hide FirstToken, Lex, Pieces;
    LexEmpty();
    if s != "" {
      var first := FirstToken(s);
      PiecesStep(s);
      FirstPieceSpells(s);
      var ts := Lex(s).tokens;
      assert ts[0] == first.tok && ts[1..] == Lex(s[first.width..]).tokens;
      QuoteFreeValues(s[first.width..]);
      assert s == s[..first.width] + s[first.width..];
    }
  }

  lemma {:induction false} PrintAppend(a: seq<Token>, b: seq<Token>)
    ensures Print(a + b) == Print(a) + Print(b)
  {
    if a == [] {
      assert a + b == b;
    } else {
      assert (a + b)[1..] == a[1..] + b;
      PrintAppend(a[1..], b);
    }
  }

  lemma {:induction false} CanonicalAppend(a: seq<Token>, b: seq<Token>)
    requires Canonical(a) && Canonical(b)
    requires a != [] ==> CanFollow(a[|a| - 1], b)
    ensures Canonical(a + b)
  {
    if a == [] {
      assert a + b == b;
    } else {
      assert (a + b)[1..] == a[1..] + b;
      CanonicalAppend(a[1..], b);
    }
  }

  // ---- Bare `!` ----

  predicate HasBang(s: string, k: nat) {
    k < |s| && s[k] == '!' && (k + 1 == |s| || s[k + 1] != '=')
  }

  lemma HasBangShift(s: string, d: nat)
    requires d <= |s| && forall k: nat :: k < d ==> !HasBang(s, k)
    ensures (exists k: nat :: HasBang(s, k)) <==> exists k: nat :: HasBang(s[d..], k)
  {
    if k: nat :| HasBang(s, k) {
      assert HasBang(s[d..], k - d);
    }
    if k: nat :| HasBang(s[d..], k) {
      assert HasBang(s, d + k);
    }
  }

  /** In a text without quotes every `!` is reached. */
  lemma {:induction false} QuoteFreeBang(s: string)
    requires '"' !in s
    ensures BareBang(s) <==> exists k: nat :: HasBang(s, k)
    ensures BareBangInWord(s) <==> exists k: nat :: HasBang(s, k)
    decreases |s|
  {
    if s != "" {
      assert s[0] in s;
      if s[0] == '!' {
        if |s| < 2 || s[1] != '=' {
          assert HasBang(s, 0);
        } else {
          HasBangShift(s, 2);
          QuoteFreeBang(s[2..]);
        }
      } else {
        HasBangShift(s, 1);
        QuoteFreeBang(s[1..]);
      }
    }
  }

  // ---- Two facts about quoting that a user can run into ----

  /** An empty pair of quotes does not denote the empty string: whatever follows, it lexes to a value that is one quote,
      and a third quote right after it is consumed, too. */
  lemma EmptyQuotes(rest: string)
    ensures FirstToken("\"\"" + rest) ==
            Emit(Token(Quoted, "\""), if rest != "" && rest[0] == '"' then 3 else 2)
    ensures Lex("\"\"") == Lexed([Token(Quoted, "\"")])
  {
    assert ("\"\"" + rest)[1..] == "\"" + rest;
    assert ("\"" + rest)[..1] == "\"";
    assert FirstToken("\"\"") == Emit(Token(Quoted, "\""), 2) by {
      assert "\"\""[1..] == "\"";
    }
    assert "\"\""[2..] == "";
  }

  lemma {:induction false} EscapeAppend(a: string, b: string)
    ensures Escape(a + b) == Escape(a) + Escape(b)
  {
    if a == "" {
      assert a + b == b;
    } else {
      assert (a + b)[1..] == a[1..] + b;
      EscapeAppend(a[1..], b);
    }
  }

  lemma {:induction false} EscapeNothing(v: string)
    requires '"' !in v
    ensures Escape(v) == v
  {
    if v != "" {
      EscapeNothing(v[1..]);
    }
  }

  lemma RuneStartIs(s: string, p: nat)
    requires p < |s| && (p > 0 ==> !IsContinuation(s[p]))
    requires forall k :: p < k < |s| ==> IsContinuation(s[k])
    ensures RuneStart(s, |s| - 1) == p
  {
  }

  /** The last rune of a text, as escaped. */
  lemma EscapedTail(v: string, p: nat)
    requires p < |v| && p == RuneStart(v, |v| - 1)
    ensures Escape(v) == Escape(v[..p + 1]) + v[p + 1..] && Escape(v[..p + 1]) != ""
    ensures var head := Escape(v[..p + 1]); head[|head| - 1] == v[p] && (p == 0 ==> |head| == 1 || v[0] == '"')
  {
    var head, tail := v[..p + 1], v[p + 1..];
    assert v == head + tail;
    EscapeAppend(head, tail);
    assert forall k :: 0 <= k < |tail| ==> tail[k] == v[p + 1 + k] && IsContinuation(tail[k]);
    EscapeNothing(tail);
    EscapeKeepsEnd(head);
    if p == 0 {
      assert head[1..] == "" && Escape(head[1..]) == "";
    }
  }

  lemma EscapedRuneStart(v: string)
    requires v != ""
    ensures var p := RuneStart(v, |v| - 1);
            var head := Escape(v[..p + 1]);
            && head != "" && |head| <= |Escape(v)| && Escape(v)[..|head|] == head
            && RuneStart(Escape(v), |Escape(v)| - 1) == |head| - 1
  {
    hide Escape;
    var p := RuneStart(v, |v| - 1);
    EscapedTail(v, p);
    var head, tail, e := Escape(v[..p + 1]), v[p + 1..], Escape(v);
    assert e[|head| - 1] == v[p];
    forall k | |head| - 1 < k < |e|
      ensures IsContinuation(e[k])
    {
      assert e[k] == tail[k - |head|] == v[p + 1 + k - |head|];
    }
    RuneStartIs(e, |head| - 1);
  }

  /** What a quoted text lexes to, whatever quotes and backslashes it has inside: a text whose last rune has several
      bytes loses the bytes of that rune after the first, and comes back whole if and only if it has only one. */
  lemma LastRuneIsCut(v: string, rest: string)
    requires v != "" && v[|v| - 1] != '\\'
    ensures var piece, value := "\"" + Escape(v) + "\"", v[..RuneStart(v, |v| - 1) + 1];
            && FirstToken(piece + rest) == Emit(Token(Quoted, value), |piece|)
            && (value == v <==> |v| == 1 || !IsContinuation(v[|v| - 1]))
  {
    hide Escape, Unescape, FindStringEnd, RuneStart;
    var e, p := Escape(v), RuneStart(v, |v| - 1);
    var s := "\"" + e + "\"" + rest;
    ClosingQuoteFound(v, rest);
    EscapedRuneStart(v);
    UnescapeEscape(v[..p + 1]);
    assert s[1..] == e + "\"" + rest;
    var head := Escape(v[..p + 1]);
    assert s[1..][..|head|] == e[..|head|] == head;
    LastRuneIsOne(v);
  }

  /** In bytes: the value ends with the last byte outside the range 10xxxxxx, or with the first byte if there is none
      behind it. */
  lemma CutByBytes(v: string, p: nat, rest: string)
    requires p < |v| && v[|v| - 1] != '\\'
    requires p == 0 || (v[p] as int) < 0x80 || (v[p] as int) >= 0xC0
    requires forall k :: p < k < |v| ==> 0x80 <= v[k] as int < 0xC0
    ensures var piece := "\"" + Escape(v) + "\"";
            FirstToken(piece + rest) == Emit(Token(Quoted, v[..p + 1]), |piece|)
  {
    hide Escape, FirstToken;
    RuneStartIs(v, p);
    LastRuneIsCut(v, rest);
  }

  lemma LastRuneIsOne(v: string)
    requires v != ""
    ensures v[..RuneStart(v, |v| - 1) + 1] == v <==> |v| == 1 || !IsContinuation(v[|v| - 1])
  {
    assert |v[..RuneStart(v, |v| - 1) + 1]| == RuneStart(v, |v| - 1) + 1;
    if RuneStart(v, |v| - 1) == |v| - 1 {
      assert v[..|v|] == v;
    }
  }

  lemma {:induction false} RuneStartPrefix(v: string, r: string, j: nat)
    requires j < |v| <= |r| && forall k :: 0 <= k < |v| ==> r[k] == v[k]
    ensures RuneStart(r, j) == RuneStart(v, j)
  {
    if j > 0 && IsContinuation(v[j]) {
      RuneStartPrefix(v, r, j - 1);
    }
  }

  // ---- Character by character ----

  /** The text starts with this token, and goes on like the rest. */
  ghost predicate Starts(s: string, t: Token, rest: string)
    requires |rest| <= |s|
  {
    && (Lex(rest).Lexed? ==> Lex(s) == Lexed([t] + Lex(rest).tokens))
    && (Lex(rest).Unclosed? ==> Lex(s) == Unclosed(|s| - |rest| + Lex(rest).offset))
    && (Lex(rest).Diverges? ==> Lex(s).Diverges?)
  }

  lemma StartsIf(s: string, t: Token, rest: string)
    requires s != "" && |rest| < |s| && s[|s| - |rest|..] == rest
    requires FirstToken(s) == Emit(t, |s| - |rest|)
    ensures Starts(s, t, rest)
  {
    hide FirstToken;
  }

  /** The symbols and the three characters that are white space. */
  lemma SymbolsLex(rest: string)
    ensures Starts(" " + rest, Token(Whitespace, " "), rest)
    ensures Starts("\n" + rest, Token(Whitespace, "\n"), rest)
    ensures Starts("\t" + rest, Token(Whitespace, "\t"), rest)
    ensures Starts("=" + rest, Token(Equals, "="), rest)
    ensures Starts("!=" + rest, Token(NotEquals, "!="), rest)
    ensures Starts("(" + rest, Token(Lparen, "("), rest)
    ensures Starts(")" + rest, Token(Rparen, ")"), rest)
    ensures Starts("|" + rest, Token(Pipe, "|"), rest)
    ensures Starts("," + rest, Token(Comma, ","), rest)
  {
    hide Starts, Lex, FirstToken;
    SymbolLexes(Token(Whitespace, " "), rest);
    SymbolLexes(Token(Whitespace, "\n"), rest);
    SymbolLexes(Token(Whitespace, "\t"), rest);
    SymbolLexes(Token(Equals, "="), rest);
    SymbolLexes(Token(NotEquals, "!="), rest);
    SymbolLexes(Token(Lparen, "("), rest);
    SymbolLexes(Token(Rparen, ")"), rest);
    SymbolLexes(Token(Pipe, "|"), rest);
    SymbolLexes(Token(Comma, ","), rest);
  }

  lemma SymbolLexes(t: Token, rest: string)
    requires CanonicalToken(t) && !IsWordToken(t) && t.typ != Quoted
    ensures Starts(t.value + rest, t, rest)
  {
    FirstOfPrintedToken(t, rest);
    StartsIf(t.value + rest, t, rest);
  }

  /** A word reaches up to the next symbol or white space, whatever else is in it, quotes included; it is a keyword if
      it is one of the two, in capitals. */
  lemma WordsLex(w: string, rest: string)
    requires w != "" && w[0] != '"' && forall k :: 0 <= k < |w| ==> w[k] !in "!=|(), \n\t"
    requires rest == "" || rest[0] in "!=|(), \n\t"
    ensures Starts(w + rest, Token(if w == "IN" || w == "NOT" then Keyword else Str, w), rest)
  {
    DelimitersAre(w, rest);
    var t := Token(if w == "IN" || w == "NOT" then Keyword else Str, w);
    FirstOfPrintedWord(t, rest);
    StartsIf(w + rest, t, rest);
  }

  lemma DelimitersAre(w: string, rest: string)
    ensures forall c: char :: c in "!=|(), \n\t" <==> IsDelimiter(c)
    ensures (forall k :: 0 <= k < |w| ==> w[k] !in "!=|(), \n\t") ==> forall k :: 0 <= k < |w| ==> !IsDelimiter(w[k])
    ensures rest != "" && rest[0] in "!=|(), \n\t" ==> IsDelimiter(rest[0])
  {
  }

  /** The offset of an unclosed text is that of a quote that no other quote closes: none follows it directly, and every
      later one has a backslash before it. */
  lemma {:induction false} UnclosedExactly(s: string)
    requires Lex(s).Unclosed?
    ensures var o := Lex(s).offset;
            && o < |s| && s[o] == '"'
            && (o + 1 < |s| ==> s[o + 1] != '"')
            && forall j :: o + 1 < j < |s| && s[j] == '"' ==> s[j - 1] == '\\'
    decreases |s|
  {
    var first := FirstToken(s);
    if first.UnclosedHere? {
      NoClosingQuote(s[1..]);
      assert forall j :: 0 < j < |s| ==> s[j] == s[1..][j - 1];
    } else {
      UnclosedExactly(s[first.width..]);
      var o := Lex(s[first.width..]).offset;
      assert Lex(s).offset == first.width + o;
      assert forall j :: first.width <= j < |s| ==> s[j] == s[first.width..][j - first.width];
    }
  }

  lemma NoClosingQuote(r: string)
    requires FindStringEnd(r).None?
    ensures r != "" ==> r[0] != '"'
    ensures forall j :: 0 < j < |r| && r[j] == '"' ==> r[j - 1] == '\\'
  {
  }
}
