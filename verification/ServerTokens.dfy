/**
 Comments and literals as the driver's lexer and the server read them: exactly when they end at the
 same byte.
 */
module ServerTokens {
  import opened CBytes
  import opened Lexer
  import opened Escapes
  import opened StatementTokens

  /** The server's comment starts with both bytes of its opening; the driver's second byte may already
      belong to the closing. They agree unless the opening is followed by a slash. */
  lemma CommentsAgree(env: Env, prev: byte, t: seq<byte>)
    requires |t| >= 2 && t[0] == SLASH && t[1] == STAR
    ensures TokenLength(env, prev, t) == 2 + BlockRest(t[2..], 1) <==> At(t, 2) != SLASH || |t| == 3
  {
    var rest := t[1..];
    assert rest[0] == STAR && At(rest, 1) == At(t, 2) && rest[1..] == t[2..];
    if At(t, 2) == SLASH {
      var inner := t[2..];
      assert inner[0] == SLASH && |inner| == |t| - 2;
      assert TokenLength(env, prev, t) == 3;
      if |inner| == 1 {
        assert inner[1..] == [];
      } else {
        SomeRest(inner[1..], 1);
        if At(inner, 1) != STAR {
          assert BlockRest(inner, 1) == 1 + BlockRest(inner[1..], 1);
        }
      }
    }
  }

  lemma SomeRest(t: seq<byte>, level: nat)
    requires t != []
    ensures BlockRest(t, level) > 0
  {
  }

  /** The rest of a literal as the server reads it: a doubled quote stands for itself. */
  function ServerLiteral(t: seq<byte>, escapes: bool): (n: nat)
    ensures n <= |t|
  {
    if t == [] then 0
    else if t[0] == QUOTE then if At(t, 1) == QUOTE then 2 + ServerLiteral(t[2..], escapes) else 1
    else if escapes && t[0] == BACKSLASH && |t| > 1 then 2 + ServerLiteral(t[2..], escapes)
    else 1 + ServerLiteral(t[1..], escapes)
  }

  /** The driver takes a doubled quote for the end of one literal and the start of another. */
  function DriverLiteral(env: Env, t: seq<byte>, esc: byte): (n: nat)
    ensures n <= |t|
    decreases |t|
  {
    var n := LiteralRest(t, esc);
    if 0 < n < |t| && t[n] == QUOTE then n + 1 + DriverLiteral(env, t[n + 1..], LiteralEscape(env, QUOTE)) else n
  }

  /** The bytes of the literals that stand at the start of the tokens, one behind the other. */
  function LiteralSpan(tokens: seq<Token>): nat {
    if tokens == [] || !tokens[0].Copied? || tokens[0].text == [] || tokens[0].text[0] != QUOTE then 0
    else |tokens[0].text| + LiteralSpan(tokens[1..])
  }

  /** `DriverLiteral` is what the lexer takes for literals from a quote on. */
  lemma {:induction false} LexedLiteral(env: Env, prev: byte, t: seq<byte>)
    requires t != [] && t[0] == QUOTE
    ensures LiteralSpan(Tokens(env, prev, t)) == 1 + DriverLiteral(env, t[1..], LiteralEscape(env, prev))
    decreases |t|
  {
    hide LiteralEscape;
    var body, esc := t[1..], LiteralEscape(env, prev);
    var n := LiteralRest(body, esc);
    var more := Tokens(env, t[n], t[n + 1..]);
    assert TokenLength(env, prev, t) == n + 1;
    assert Tokens(env, prev, t) == [Copied(t[..n + 1])] + more;
    assert Tokens(env, prev, t)[1..] == more;
    assert body[n..] == t[n + 1..];
    assert n < |body| ==> body[n] == t[n + 1] && body[n + 1..] == t[n + 1..][1..];
    if n > 0 {
      LastOfLiteral(body, esc);
    }
    if n < |body| && body[n] == QUOTE {
      LexedLiteral(env, t[n], t[n + 1..]);
      assert t[n] == body[n - 1];
    } else {
      NoLiteral(env, t[n], t[n + 1..]);
    }
  }

  /** A literal that ends inside of the text ends with a quote. */
  lemma {:induction false} LastOfLiteral(t: seq<byte>, esc: byte)
    requires t != []
    ensures var n := LiteralRest(t, esc); n > 0 && (n < |t| ==> t[n - 1] == QUOTE)
  {
    if t[0] != QUOTE {
      var k := if t[0] == esc && |t| > 1 then 2 else 1;
      if k < |t| {
        LastOfLiteral(t[k..], esc);
      }
    }
  }

  lemma NoLiteral(env: Env, prev: byte, t: seq<byte>)
    requires t != [] ==> t[0] != QUOTE
    ensures LiteralSpan(Tokens(env, prev, t)) == 0
  {
    hide TokenLength;
  }

  // ---------------------------------------------------------------- when literals agree

  predicate OnlyQuotes(t: seq<byte>) { forall i :: 0 <= i < |t| ==> t[i] == QUOTE }

  /** Read with escapes, the text before the end of the literal holds no escaped quote, unless nothing
      but quotes follows it. */
  predicate NoEscapedQuote(t: seq<byte>) {
    if t == [] then true
    else if t[0] == QUOTE then At(t, 1) == QUOTE ==> NoEscapedQuote(t[2..])
    else if t[0] == BACKSLASH && |t| > 1 then if t[1] == QUOTE then OnlyQuotes(t[2..]) else NoEscapedQuote(t[2..])
    else NoEscapedQuote(t[1..])
  }

  /** That holds of what follows the first doubled quote, if there is one. */
  predicate EscapesKept(t: seq<byte>) {
    if t == [] then true
    else if t[0] == QUOTE then At(t, 1) == QUOTE ==> NoEscapedQuote(t[2..])
    else if t[0] == BACKSLASH && |t| > 1 then EscapesKept(t[2..])
    else EscapesKept(t[1..])
  }

  /** Where the quotes at the start of the text end. */
  function QuoteRun(t: seq<byte>): (n: nat)
    ensures n <= |t| && (n < |t| ==> t[n] != QUOTE)
    ensures n == |t| <==> OnlyQuotes(t)
  {
    if t == [] || t[0] != QUOTE then 0 else 1 + QuoteRun(t[1..])
  }

  /** Quotes go in pairs; an odd one ends the literal. */
  lemma {:induction false} ThroughQuotes(t: seq<byte>, escapes: bool)
    requires NulFree(t)
    ensures var n := QuoteRun(t);
            ServerLiteral(t, escapes) == if n % 2 == 1 then n else n + ServerLiteral(t[n..], escapes)
    decreases |t|
  {
    var n := QuoteRun(t);
    hide *;
    if n >= 2 {
      TwoQuotes(t, escapes);
      assert NulFree(t[2..]) by { TailFree(t, 2); }
      ThroughQuotes(t[2..], escapes);
      assert t[2..][n - 2..] == t[n..];
    } else if n == 1 {
      LastQuote(t, escapes);
    } else {
      assert t[0..] == t;
    }
  }

  lemma TailFree(t: seq<byte>, k: nat)
    requires NulFree(t) && k <= |t|
    ensures NulFree(t[k..])
  {
  }

  lemma LastQuote(t: seq<byte>, escapes: bool)
    requires QuoteRun(t) == 1
    ensures ServerLiteral(t, escapes) == 1
  {
    assert |t| > 1 ==> t[1..][0] == t[1];
  }

  lemma TwoQuotes(t: seq<byte>, escapes: bool)
    requires QuoteRun(t) >= 2
    ensures QuoteRun(t) == 2 + QuoteRun(t[2..]) && ServerLiteral(t, escapes) == 2 + ServerLiteral(t[2..], escapes)
  {
    var u := t[1..];
    assert u != [] && u[0] == QUOTE && u[1..] == t[2..];
    hide OnlyQuotes;
  }

  lemma NotEmptyLiteral(t: seq<byte>, escapes: bool)
    ensures ServerLiteral(t, escapes) == 0 <==> t == []
  {
  }

  /** An escaped quote: with escapes the quotes behind the first one go in pairs, without them all do. */
  lemma EscapedQuote(t: seq<byte>)
    requires |t| >= 2 && NulFree(t) && t[0] == BACKSLASH && t[1] == QUOTE
    ensures ServerLiteral(t, true) == ServerLiteral(t, false) <==> OnlyQuotes(t[2..])
  {
    hide ServerLiteral, OnlyQuotes, QuoteRun;
    OneEscape(t);
    var u, v := t[1..], t[2..];
    assert u[1..] == v;
    QuotesFrom(u);
    ThroughQuotes(u, false);
    ThroughQuotes(v, true);
    var n := QuoteRun(v);
    assert u[n + 1..] == v[n..];
    NotEmptyLiteral(v[n..], true);
    NotEmptyLiteral(v[n..], false);
    RunEnds(v);
  }

  lemma QuotesFrom(u: seq<byte>)
    requires u != [] && u[0] == QUOTE
    ensures QuoteRun(u) == 1 + QuoteRun(u[1..])
  {
  }

  lemma RunEnds(t: seq<byte>)
    ensures OnlyQuotes(t) <==> t[QuoteRun(t)..] == []
  {
  }

  lemma OneEscape(t: seq<byte>)
    requires |t| >= 2 && t[0] == BACKSLASH && t[1] == QUOTE
    ensures ServerLiteral(t, true) == 2 + ServerLiteral(t[2..], true)
    ensures ServerLiteral(t, false) == 1 + ServerLiteral(t[1..], false)
  {
  }

  /** Reading a literal with and without escapes. */
  lemma {:induction false} EscapesMatter(t: seq<byte>)
    requires NulFree(t)
    ensures ServerLiteral(t, true) == ServerLiteral(t, false) <==> NoEscapedQuote(t)
    decreases |t|
  {
    if t == [] {
    } else if t[0] == QUOTE {
      if At(t, 1) == QUOTE {
        EscapesMatter(t[2..]);
      }
    } else if t[0] == BACKSLASH && |t| > 1 {
      if t[1] == QUOTE {
        EscapedQuote(t);
      } else {
        EscapesMatter(t[2..]);
        assert t[1..][1..] == t[2..];
      }
    } else {
      EscapesMatter(t[1..]);
    }
  }

  lemma {:induction false} WithoutEscapes(env: Env, t: seq<byte>, esc: byte)
    requires esc in {NUL, BACKSLASH} && env.escape in {NUL, BACKSLASH} && NulFree(t) && esc == env.escape
    ensures DriverLiteral(env, t, esc) == ServerLiteral(t, esc == BACKSLASH)
    decreases |t|
  {
    if t == [] {
    } else if t[0] == QUOTE {
      if At(t, 1) == QUOTE {
        assert t[1 + 1..] == t[2..];
        WithoutEscapes(env, t[2..], esc);
      }
    } else {
      var k := if t[0] == esc && |t| > 1 then 2 else 1;
      WithoutEscapes(env, t[k..], esc);
      ChainOn(env, t, esc, k);
    }
  }

  /** The driver's and the server's literal, from the byte behind the opening quote on, end together if
      and only if the literal has no escapes, or all literals of the session have them
      (standard_conforming_strings off), or no escaped quote follows the first doubled quote (unless
      nothing but quotes follows). */
  lemma {:induction false} LiteralsAgree(env: Env, t: seq<byte>, esc: byte)
    requires esc in {NUL, BACKSLASH} && env.escape in {NUL, BACKSLASH} && NulFree(t)
    requires env.escape == BACKSLASH ==> esc == BACKSLASH
    ensures DriverLiteral(env, t, esc) == ServerLiteral(t, esc == BACKSLASH)
            <==> (esc == BACKSLASH && env.escape == NUL ==> EscapesKept(t))
    decreases |t|
  {
    if esc == env.escape {
      WithoutEscapes(env, t, esc);
    } else if t == [] {
    } else if t[0] == QUOTE {
      if At(t, 1) == QUOTE {
        assert t[1 + 1..] == t[2..];
        WithoutEscapes(env, t[2..], NUL);
        EscapesMatter(t[2..]);
      }
    } else {
      var k := if t[0] == esc && |t| > 1 then 2 else 1;
      LiteralsAgree(env, t[k..], esc);
      ChainOn(env, t, esc, k);
    }
  }

  lemma ChainOn(env: Env, t: seq<byte>, esc: byte, k: nat)
    requires t != [] && NulFree(t) && t[0] != QUOTE && k <= |t| && k == if t[0] == esc && |t| > 1 then 2 else 1
    ensures DriverLiteral(env, t, esc) == k + DriverLiteral(env, t[k..], esc)
  {
    var n := LiteralRest(t[k..], esc);
    assert LiteralRest(t, esc) == k + n;
    if n == 0 {
      assert t[k..] == [];
    } else if k + n < |t| {
      assert t[k + n] == t[k..][n] && t[k..][n + 1..] == t[k + n + 1..];
    }
  }

  // ---------------------------------------------------------------- an input

  /** `E'a''\'?'` */
  const MARKER_IN_LITERAL: seq<byte> :=
    [LITERAL_EXT, QUOTE, 97, QUOTE, QUOTE, BACKSLASH, QUOTE, QUESTION, QUOTE]

  /** In `E'a''\'?'` the server's literal ends at the last quote; the driver's ends before the question
      mark, which becomes `$1`. */
  lemma MarkerInLiteral(env: Env)
    requires env.stmt == MARKER_IN_LITERAL && env.escape == NUL && !env.lfConv
    ensures ServerLiteral(env.stmt[2..], true) == 7 && DriverLiteral(env, env.stmt[2..], BACKSLASH) == 5
    ensures Param in Tokens(env, env.before, env.stmt)
    ensures var r := Process(env, Start(env), Fresh(0));
            r.Ok? && r.qb.out == [LITERAL_EXT, QUOTE, 97, QUOTE, QUOTE, BACKSLASH, QUOTE, DOLLAR, 49, QUOTE]
  {
    hide Process, Decimal, Pieces16, Pieces, Highest, Tokens, ServerLiteral, DriverLiteral, Render, Markers, NoBraces, Sources,
      Flat;
    LiteralTokens(env);
    ServerSeven();
    DriverFive(env);
    NoBraceTokens();
    LiteralRendered();
    MarkerRewriting(env);
  }

  /** The tokens of the input. */
  const LITERAL_TOKENS: seq<Token> :=
    [Copied([LITERAL_EXT]), Copied([QUOTE, 97, QUOTE]), Copied([QUOTE, BACKSLASH, QUOTE]), Param, Copied([QUOTE])]

  lemma LiteralTokens(env: Env)
    requires env.stmt == MARKER_IN_LITERAL && env.escape == NUL && !env.lfConv
    ensures Tokens(env, env.before, env.stmt) == LITERAL_TOKENS && LITERAL_TOKENS[3] == Param
  {
    hide Tokens;
    var t0 := env.stmt;
    var t1 := t0[1..];
    var t2 := t1[3..];
    var t3 := t2[3..];
    assert t3 == [QUESTION, QUOTE] == [QUESTION] + [QUOTE] && t2 == [QUOTE, BACKSLASH, QUOTE] + t3;
    assert t1 == [QUOTE, 97, QUOTE] + t2 && t0 == [LITERAL_EXT] + t1;
    NextToken(env, env.before, [LITERAL_EXT], t1);
    NextToken(env, LITERAL_EXT, [QUOTE, 97, QUOTE], t2);
    NextToken(env, QUOTE, [QUOTE, BACKSLASH, QUOTE], t3);
    ThenMarker(env, QUOTE, [QUOTE]);
    NextToken(env, QUESTION, [QUOTE], []);
    assert [QUOTE] + [] == [QUOTE];
    NoMoreTokens(env, QUOTE);
    assert [Copied([LITERAL_EXT])] + ([Copied([QUOTE, 97, QUOTE])]
             + ([Copied([QUOTE, BACKSLASH, QUOTE])] + ([Param] + ([Copied([QUOTE])] + [])))) == LITERAL_TOKENS;
  }

  lemma NoMoreTokens(env: Env, prev: byte)
    ensures Tokens(env, prev, []) == []
  {
  }

  lemma ThenMarker(env: Env, prev: byte, more: seq<byte>)
    requires !env.lfConv
    ensures Tokens(env, prev, [QUESTION] + more) == [Param] + Tokens(env, QUESTION, more)
  {
    hide TokenLength;
    assert ([QUESTION] + more)[1..] == more;
  }

  lemma NextToken(env: Env, prev: byte, text: seq<byte>, more: seq<byte>)
    requires !env.lfConv && env.escape == NUL
    requires (text == [LITERAL_EXT] && more != [] && more[0] == QUOTE) || (text == [QUOTE] && more == [])
             || (text == [QUOTE, 97, QUOTE] && prev == LITERAL_EXT) || (text == [QUOTE, BACKSLASH, QUOTE] && prev == QUOTE)
    ensures Tokens(env, prev, text + more) == [Copied(text)] + Tokens(env, text[|text| - 1], more)
  {
    var t := text + more;
    FirstLength(env, prev, text, more);
    hide TokenLength;
    assert t[..|text|] == text && t[|text|..] == more;
  }

  lemma FirstLength(env: Env, prev: byte, text: seq<byte>, more: seq<byte>)
    requires env.escape == NUL
    requires (text == [LITERAL_EXT] && more != [] && more[0] == QUOTE) || (text == [QUOTE] && more == [])
             || (text == [QUOTE, 97, QUOTE] && prev == LITERAL_EXT) || (text == [QUOTE, BACKSLASH, QUOTE] && prev == QUOTE)
    ensures TokenLength(env, prev, text + more) == |text|
  {
    var rest := (text + more)[1..];
    if |text| == 1 {
      assert rest == more && IdentRest(more) == 0;
    } else {
      var esc := LiteralEscape(env, prev);
      assert rest[0] == text[1] && rest[1..][0] == QUOTE;
      assert LiteralRest(rest[1..], esc) == 1;
      assert LiteralRest(rest, esc) == 2;
    }
  }

  lemma ServerSeven()
    ensures ServerLiteral(MARKER_IN_LITERAL[2..], true) == 7
  {
    var t := MARKER_IN_LITERAL[2..];
    assert t == [97, QUOTE, QUOTE, BACKSLASH, QUOTE, QUESTION, QUOTE];
    assert t[1..] == [QUOTE, QUOTE, BACKSLASH, QUOTE, QUESTION, QUOTE];
    assert t[1..][2..] == [BACKSLASH, QUOTE, QUESTION, QUOTE];
    assert t[1..][2..][2..] == [QUESTION, QUOTE];
    assert t[1..][2..][2..][1..] == [QUOTE];
    assert ServerLiteral([QUOTE], true) == 1;
    assert ServerLiteral(t[1..][2..][2..], true) == 2;
    assert ServerLiteral(t[1..][2..], true) == 4;
    assert ServerLiteral(t[1..], true) == 6;
  }

  lemma DriverFive(env: Env)
    requires env.stmt == MARKER_IN_LITERAL && env.escape == NUL && !env.lfConv
    ensures DriverLiteral(env, env.stmt[2..], BACKSLASH) == 5
  {
    var t := env.stmt[2..];
    assert t == [97, QUOTE, QUOTE, BACKSLASH, QUOTE, QUESTION, QUOTE];
    assert t[1..][0] == QUOTE;
    assert LiteralRest(t, BACKSLASH) == 2;
    var u := t[3..];
    assert u == [BACKSLASH, QUOTE, QUESTION, QUOTE] && u[1..] == [QUOTE, QUESTION, QUOTE];
    assert LiteralRest(u, NUL) == 2;
    assert DriverLiteral(env, u, NUL) == 2;
  }

  lemma NoBraceTokens()
    ensures NoBraces(LITERAL_TOKENS)
  {
    assert [LITERAL_EXT][0] !in {LBRACE, RBRACE} && [QUOTE][0] !in {LBRACE, RBRACE};
    assert |[QUOTE, 97, QUOTE]| == 3 && |[QUOTE, BACKSLASH, QUOTE]| == 3;
  }

  lemma LiteralRendered()
    ensures Markers(LITERAL_TOKENS) == 1 && Highest(LITERAL_TOKENS, 0) == 1
    ensures Render(LITERAL_TOKENS, 0)
         == [LITERAL_EXT, QUOTE, 97, QUOTE, QUOTE, BACKSLASH, QUOTE, DOLLAR, 49, QUOTE]
  {
    var a := LITERAL_TOKENS;
    var b := a[1..];
    var c := b[1..];
    var d := c[1..];
    assert Decimal(1) == [49];
    hide Decimal;
    NothingRendered(1);
    CopiedRendered([QUOTE], [], 1);
    assert [QUOTE] + [] == [QUOTE];
    assert d[1..] == [Copied([QUOTE])] + [];
    assert Render(d, 0) == [DOLLAR, 49, QUOTE] && Markers(d) == 1 && Highest(d, 0) == 1;
    assert c == [Copied([QUOTE, BACKSLASH, QUOTE])] + d && b == [Copied([QUOTE, 97, QUOTE])] + c && a == [Copied([LITERAL_EXT])] + b;
    CopiedRendered([QUOTE, BACKSLASH, QUOTE], d, 0);
    CopiedRendered([QUOTE, 97, QUOTE], c, 0);
    CopiedRendered([LITERAL_EXT], b, 0);
  }

  lemma NothingRendered(k: nat)
    ensures Render([], k) == [] && Markers([]) == 0 && Highest([], k) == k
  {
  }

  lemma CopiedRendered(text: seq<byte>, more: seq<Token>, k: nat)
    requires text != [] && text[0] != SEMICOLON
    ensures var all := [Copied(text)] + more;
            Render(all, k) == text + Render(more, k) && Markers(all) == Markers(more) && Highest(all, k) == Highest(more, k)
  {
    assert ([Copied(text)] + more)[1..] == more;
    assert text != [SEMICOLON];
  }
}
