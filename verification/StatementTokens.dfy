/**
 The lexer against a description that takes whole tokens: for ASCII statements, everything but
 parameter markers outside of literals, quoted identifiers, comments and dollar quotes is copied.
 */
module StatementTokens {
  import opened CBytes
  import opened Multibyte
  import opened QuotedNames
  import opened Lexer
  import opened Escapes

  /** A piece of a statement: copied, dropped (a carriage return) or a parameter marker. */
  datatype Token = Copied(text: seq<byte>) | Dropped | Param

  /** Length of the rest of a literal, closing quote included; `esc` is NUL without an escape character. */
  function LiteralRest(t: seq<byte>, esc: byte): (n: nat)
    ensures n <= |t|
  {
    if t == [] then 0
    else if t[0] == QUOTE then 1
    else if t[0] == esc && |t| > 1 then 2 + LiteralRest(t[2..], esc)
    else 1 + LiteralRest(t[1..], esc)
  }

  function QuotedRest(t: seq<byte>): (n: nat)
    ensures n <= |t|
  {
    if t == [] then 0 else if t[0] == DQUOTE then 1 else 1 + QuotedRest(t[1..])
  }

  /** Comments nest. */
  function BlockRest(t: seq<byte>, level: nat): (n: nat)
    ensures n <= |t|
  {
    if t == [] then 0
    else if t[0] == SLASH && At(t, 1) == STAR then 2 + BlockRest(t[2..], level + 1)
    else if t[0] == STAR && At(t, 1) == SLASH then 2 + if level <= 1 then 0 else BlockRest(t[2..], level - 1)
    else 1 + BlockRest(t[1..], level)
  }

  function LineRest(t: seq<byte>): (n: nat)
    ensures n <= |t|
  {
    if t == [] then 0 else if t[0] == LINEFEED then 1 else 1 + LineRest(t[1..])
  }

  function IdentRest(t: seq<byte>): (n: nat)
    ensures n <= |t| && (n < |t| ==> !IdentifierByte(t[n]))
  {
    if t == [] || !IdentifierByte(t[0]) then 0 else 1 + IdentRest(t[1..])
  }

  function DollarRest(t: seq<byte>, tag: seq<byte>): (n: nat)
    ensures n <= |t|
  {
    if t == [] then 0 else if tag <= t then |tag| else 1 + DollarRest(t[1..], tag)
  }

  /** Letters and digits between two dollars. */
  function AlnumRun(t: seq<byte>): (n: nat)
    ensures n <= |t|
  {
    if t == [] || !IsAlnum(t[0]) then 0 else 1 + AlnumRun(t[1..])
  }

  function TagLength(t: seq<byte>): (n: nat)
    ensures n <= |t| && (n > 0 ==> t[n - 1] == DOLLAR)
  {
    if t == [] then 0
    else
      var n := 1 + AlnumRun(t[1..]);
      if n < |t| && t[n] == DOLLAR then n + 1 else 0
  }

  /** The escape character of a literal that follows `prev`. */
  function LiteralEscape(env: Env, prev: byte): byte {
    if env.escape != NUL then env.escape else if prev == LITERAL_EXT then BACKSLASH else NUL
  }

  function TokenLength(env: Env, prev: byte, t: seq<byte>): (n: nat)
    requires t != []
    ensures 0 < n <= |t|
  {
    var c, rest := t[0], t[1..];
    if c == QUOTE then 1 + LiteralRest(rest, LiteralEscape(env, prev))
    else if c == DQUOTE then 1 + QuotedRest(rest)
    else if c == SLASH && At(t, 1) == STAR then 1 + BlockRest(rest, 1)
    else if c == MINUS && At(t, 1) == MINUS then 1 + LineRest(rest)
    else if c == DOLLAR then
      var n := TagLength(t);
      if n == 0 then 1 else n + DollarRest(t[n..], t[..n])
    else if IsAlnum(c) then 1 + IdentRest(rest)
    else 1
  }

  predicate Squeezes(env: Env, t: seq<byte>) {
    env.lfConv && |t| > 1 && t[0] == CARRIAGE_RETURN && t[1] == LINEFEED
  }

  function Tokens(env: Env, prev: byte, t: seq<byte>): seq<Token>
    decreases |t|
  {
    if t == [] then []
    else if Squeezes(env, t) then [Dropped] + Tokens(env, t[0], t[1..])
    else if t[0] == QUESTION then [Param] + Tokens(env, t[0], t[1..])
    else
      var n := TokenLength(env, prev, t);
      [Copied(t[..n])] + Tokens(env, t[n - 1], t[n..])
  }

  /** The text with the markers numbered from `k + 1`; a semicolon starts again at 1. */
  function Render(tokens: seq<Token>, k: nat): seq<byte> {
    if tokens == [] then []
    else
      match tokens[0]
      case Dropped => Render(tokens[1..], k)
      case Param => [DOLLAR] + Decimal(k + 1) + Render(tokens[1..], k + 1)
      case Copied(text) => text + Render(tokens[1..], if text == [SEMICOLON] then 0 else k)
  }

  function Source(token: Token): seq<byte> {
    match token
    case Dropped => [CARRIAGE_RETURN]
    case Param => [QUESTION]
    case Copied(text) => text
  }

  function Sources(tokens: seq<Token>): seq<byte> {
    if tokens == [] then [] else Source(tokens[0]) + Sources(tokens[1..])
  }

  /** The tokens are the statement: replacing markers by `?` and putting back carriage returns
      recovers it. */
  lemma {:induction false} SourcesAll(env: Env, prev: byte, t: seq<byte>)
    ensures Sources(Tokens(env, prev, t)) == t
    decreases |t|
  {
    if t != [] {
      if Squeezes(env, t) || t[0] == QUESTION {
        SourcesAll(env, t[0], t[1..]);
        assert t == [t[0]] + t[1..];
      } else {
        var n := TokenLength(env, prev, t);
        SourcesAll(env, t[n - 1], t[n..]);
        assert t == t[..n] + t[n..];
      }
    }
  }

  function Markers(tokens: seq<Token>): nat {
    if tokens == [] then 0 else (if tokens[0] == Param then 1 else 0) + Markers(tokens[1..])
  }

  /** Braces occur at most inside of other tokens. */
  predicate NoBraces(tokens: seq<Token>) {
    forall i :: 0 <= i < |tokens| ==> tokens[i] != Copied([LBRACE]) && tokens[i] != Copied([RBRACE])
  }

  // ---------------------------------------------------------------- single bytes

  lemma AsciiStays(enc: Encoding, c: byte)
    requires c < 0x80
    ensures Stat(enc, 0, c) == 0
  {
  }

  /** The byte at opos is ASCII and so is what came before it. */
  predicate Plainly(env: Env, qp: QP) {
    qp.opos < |env.stmt| && 0 < env.stmt[qp.opos] < 0x80 && qp.ccst == 0 && !AtEscape(env, qp)
  }

  function Seen(env: Env, qp: QP): QP
    requires qp.opos < |env.stmt|
  {
    qp.(last := env.stmt[qp.opos])
  }

  lemma AsciiStep(env: Env, qp: QP, qb: QB)
    requires Plainly(env, qp)
    ensures Read(env, qp) == Seen(env, qp)
    ensures Step(env, qp, qb)
         == if qp.inStatus.ident && IdentifierByte(env.stmt[qp.opos]) then Ok(Seen(env, qp), Put(qb, [env.stmt[qp.opos]]))
            else Inside(env, LeaveIdent(Seen(env, qp)), qb)
  {
    AsciiStays(env.ccsc, env.stmt[qp.opos]);
    hide Inside, Stat;
  }

  // ---------------------------------------------------------------- both loops

  /** The loop over the statement (`top`) and the loop over parameters, which stops at the closing
      brace of its escape; the parameter positions are kept in both. */
  function Loop(env: Env, qp: QP, qb: QB, ps: Params, top: bool): ParamRes
    decreases if qp.opos < |env.stmt| then |env.stmt| - qp.opos else 0
  {
    if qp.opos >= |env.stmt| then ParamOk(qp, qb, ps)
    else
      match Step(env, qp, qb)
      case Err(why) => ParamErr(why)
      case Ok(q, b) =>
        var c := At(env.stmt, if q.opos <= |env.stmt| then q.opos else |env.stmt|);
        if NonAsciiRead(q) || !q.inStatus.Idle() then Loop(env, q.(opos := q.opos + 1), b, ps, top)
        else if !top && c == RBRACE && ps.depth == 0 then ParamOk(q, b, ps)
        else Loop(env, q.(opos := q.opos + 1), b, Delimit(ps, c, |b.out|), top)
  }

  lemma {:induction false} LoopIsProcess(env: Env, qp: QP, qb: QB, ps: Params)
    ensures var r := Loop(env, qp, qb, ps, true);
            Process(env, qp, qb) == if r.ParamErr? then Err(r.why) else Ok(r.qp, r.nqb)
    decreases if qp.opos < |env.stmt| then |env.stmt| - qp.opos else 0
  {
    hide Step, Delimit;
    if qp.opos < |env.stmt| && Step(env, qp, qb).Ok? {
      var r := Step(env, qp, qb);
      var c := At(env.stmt, if r.qp.opos <= |env.stmt| then r.qp.opos else |env.stmt|);
      LoopIsProcess(env, r.qp.(opos := r.qp.opos + 1), r.qb, ps);
      LoopIsProcess(env, r.qp.(opos := r.qp.opos + 1), r.qb, Delimit(ps, c, |r.qb.out|));
    }
  }

  lemma {:induction false} LoopIsParamLoop(env: Env, qp: QP, qb: QB, ps: Params)
    ensures Loop(env, qp, qb, ps, false) == ParamLoop(env, qp, qb, ps)
    decreases if qp.opos < |env.stmt| then |env.stmt| - qp.opos else 0
  {
    hide Step, Delimit;
    if qp.opos < |env.stmt| && Step(env, qp, qb).Ok? {
      var r := Step(env, qp, qb);
      var c := At(env.stmt, if r.qp.opos <= |env.stmt| then r.qp.opos else |env.stmt|);
      LoopIsParamLoop(env, r.qp.(opos := r.qp.opos + 1), r.qb, ps);
      LoopIsParamLoop(env, r.qp.(opos := r.qp.opos + 1), r.qb, Delimit(ps, c, |r.qb.out|));
    }
  }

  /** The byte at which the lexer stands does not delimit parameters. */
  predicate NoDelimiter(env: Env, q: QP) {
    q.opos < |env.stmt| && (!q.inStatus.Idle() || env.stmt[q.opos] !in {COMMA, LPAREN, RPAREN, RBRACE})
  }

  lemma LoopOn(env: Env, qp: QP, qb: QB, q: QP, b: QB, ps: Params, top: bool)
    requires qp.opos < |env.stmt| && Step(env, qp, qb) == Ok(q, b) && NoDelimiter(env, q)
    ensures Loop(env, qp, qb, ps, top) == Loop(env, q.(opos := q.opos + 1), b, ps, top)
  {
    hide Step;
  }

  function Rest(env: Env, p: nat): (t: seq<byte>)
    requires p <= |env.stmt|
  {
    env.stmt[p..]
  }

  /** Between tokens; an identifier is left only when the next byte is read. */
  predicate Between(env: Env, qp: QP, p: nat) {
    && qp.opos == p <= |env.stmt| && qp.ccst == 0 && qp.commentLevel == 0
    && (qp.inStatus == IDLE || (qp.inStatus == IDLE.(ident := true) && (p < |env.stmt| ==> !IdentifierByte(env.stmt[p]))))
  }

  /** Between tokens, or at the end inside an unfinished one. */
  predicate Past(env: Env, qp: QP, p: nat) { (qp.opos == p == |env.stmt|) || Between(env, qp, p) }

  /** The scan has copied `n` bytes and is past them. */
  predicate Copies(env: Env, qp: QP, qb: QB, n: nat, q: QP, ps: Params, top: bool) {
    && qp.opos + n <= |env.stmt| && Past(env, q, qp.opos + n)
    && Loop(env, qp, qb, ps, top) == Loop(env, q, Put(qb, env.stmt[qp.opos..qp.opos + n]), ps, top)
  }

  lemma CopiesMore(env: Env, qp: QP, qb: QB, mid: QP, k: nat, n: nat, q: QP, ps: Params, top: bool)
    requires qp.opos + k == mid.opos <= |env.stmt|
    requires Loop(env, qp, qb, ps, top) == Loop(env, mid, Put(qb, env.stmt[qp.opos..mid.opos]), ps, top)
    requires Copies(env, mid, Put(qb, env.stmt[qp.opos..mid.opos]), n, q, ps, top)
    ensures Copies(env, qp, qb, k + n, q, ps, top)
  {
    hide Loop;
    var a, b := env.stmt[qp.opos..mid.opos], env.stmt[mid.opos..mid.opos + n];
    assert qb.out + a + b == qb.out + (a + b);
    assert a + b == env.stmt[qp.opos..mid.opos + n];
  }

  lemma CopiesNothing(env: Env, qp: QP, qb: QB, ps: Params, top: bool)
    requires Past(env, qp, qp.opos) && qp.opos <= |env.stmt|
    ensures Copies(env, qp, qb, 0, qp, ps, top)
  {
    assert qb.out + env.stmt[qp.opos..qp.opos] == qb.out;
  }

  // ---------------------------------------------------------------- whole tokens

  predicate AsciiStatement(env: Env) { IsAsciiText(env.stmt) }

  lemma {:induction false} LiteralRun(env: Env, qp: QP, qb: QB, ps: Params, top: bool) returns (q: QP)
    requires AsciiStatement(env) && qp.opos <= |env.stmt| && qp.ccst == 0 && qp.commentLevel == 0
    requires qp.inStatus == IDLE.(literal := true)
    ensures Copies(env, qp, qb, LiteralRest(Rest(env, qp.opos), qp.escapeInLiteral), q, ps, top)
    decreases |env.stmt| - qp.opos
  {
    hide Loop, Step, Copies;
    var p, t := qp.opos, Rest(env, qp.opos);
    q := qp;
    if p == |env.stmt| {
      CopiesNothing(env, qp, qb, ps, top);
      return;
    }
    AsciiStep(env, qp, qb);
    var c := env.stmt[p];
    assert t[0] == c && t[1..] == Rest(env, p + 1);
    var seen := Seen(env, qp);
    var b := Put(qb, [c]);
    assert env.stmt[p..p + 1] == [c];
    if c == QUOTE {
      q := seen.(inStatus := IDLE, opos := p + 1);
      LoopOn(env, qp, qb, seen.(inStatus := IDLE), b, ps, top);
      CopiesNothing(env, q, b, ps, top);
      CopiesMore(env, qp, qb, q, 1, 0, q, ps, top);
    } else if c == qp.escapeInLiteral {
      var esc := seen.(inStatus := qp.inStatus.(escape := true));
      LoopOn(env, qp, qb, esc, b, ps, top);
      var mid := esc.(opos := p + 1);
      if p + 1 == |env.stmt| {
        q := mid;
        CopiesNothing(env, q, b, ps, top);
        CopiesMore(env, qp, qb, q, 1, 0, q, ps, top);
      } else {
        EscapedByteRun(env, mid, b, ps, top);
        var next := Seen(env, mid).(inStatus := qp.inStatus, opos := p + 2);
        q := LiteralRun(env, next, Put(b, [env.stmt[p + 1]]), ps, top);
        assert env.stmt[p + 1..p + 2] == [env.stmt[p + 1]];
        assert t[2..] == Rest(env, p + 2);
        CopiesMore(env, mid, b, next, 1, LiteralRest(t[2..], qp.escapeInLiteral), q, ps, top);
        CopiesMore(env, qp, qb, mid, 1, 1 + LiteralRest(t[2..], qp.escapeInLiteral), q, ps, top);
      }
    } else {
      LoopOn(env, qp, qb, seen, b, ps, top);
      var mid := seen.(opos := p + 1);
      q := LiteralRun(env, mid, b, ps, top);
      CopiesMore(env, qp, qb, mid, 1, LiteralRest(t[1..], qp.escapeInLiteral), q, ps, top);
    }
  }

  /** The byte after an escape character is copied, whatever it is. */
  lemma EscapedByteRun(env: Env, qp: QP, qb: QB, ps: Params, top: bool)
    requires AsciiStatement(env) && qp.opos < |env.stmt| && qp.ccst == 0
    requires qp.inStatus == IDLE.(literal := true, escape := true)
    ensures Loop(env, qp, qb, ps, top)
         == Loop(env, Seen(env, qp).(inStatus := IDLE.(literal := true), opos := qp.opos + 1), Put(qb, [env.stmt[qp.opos]]), ps, top)
  {
    hide Loop, Step;
    AsciiStep(env, qp, qb);
    LoopOn(env, qp, qb, Seen(env, qp).(inStatus := IDLE.(literal := true)), Put(qb, [env.stmt[qp.opos]]), ps, top);
  }

  lemma {:induction false} QuotedRun(env: Env, qp: QP, qb: QB, ps: Params, top: bool) returns (q: QP)
    requires AsciiStatement(env) && qp.opos <= |env.stmt| && qp.ccst == 0 && qp.commentLevel == 0
    requires qp.inStatus == IDLE.(dquote := true)
    ensures Copies(env, qp, qb, QuotedRest(Rest(env, qp.opos)), q, ps, top)
    decreases |env.stmt| - qp.opos
  {
    hide Loop, Step, Copies;
    var p, t := qp.opos, Rest(env, qp.opos);
    q := qp;
    if p == |env.stmt| {
      CopiesNothing(env, qp, qb, ps, top);
      return;
    }
    AsciiStep(env, qp, qb);
    var c := env.stmt[p];
    assert t[0] == c && t[1..] == Rest(env, p + 1) && env.stmt[p..p + 1] == [c];
    var seen := Seen(env, qp).(inStatus := if c == DQUOTE then IDLE else qp.inStatus);
    LoopOn(env, qp, qb, seen, Put(qb, [c]), ps, top);
    var mid := seen.(opos := p + 1);
    if c == DQUOTE {
      q := mid;
      CopiesNothing(env, q, Put(qb, [c]), ps, top);
      CopiesMore(env, qp, qb, mid, 1, 0, q, ps, top);
    } else {
      q := QuotedRun(env, mid, Put(qb, [c]), ps, top);
      CopiesMore(env, qp, qb, mid, 1, QuotedRest(t[1..]), q, ps, top);
    }
  }

  lemma {:induction false} LineRun(env: Env, qp: QP, qb: QB, ps: Params, top: bool) returns (q: QP)
    requires AsciiStatement(env) && qp.opos <= |env.stmt| && qp.ccst == 0 && qp.commentLevel == 0
    requires qp.inStatus == IDLE.(lineComment := true)
    ensures Copies(env, qp, qb, LineRest(Rest(env, qp.opos)), q, ps, top)
    decreases |env.stmt| - qp.opos
  {
    hide Loop, Step, Copies;
    var p, t := qp.opos, Rest(env, qp.opos);
    q := qp;
    if p == |env.stmt| {
      CopiesNothing(env, qp, qb, ps, top);
      return;
    }
    AsciiStep(env, qp, qb);
    var c := env.stmt[p];
    assert t[0] == c && t[1..] == Rest(env, p + 1) && env.stmt[p..p + 1] == [c];
    var seen := Seen(env, qp).(inStatus := if c == LINEFEED then IDLE else qp.inStatus);
    LoopOn(env, qp, qb, seen, Put(qb, [c]), ps, top);
    var mid := seen.(opos := p + 1);
    if c == LINEFEED {
      q := mid;
      CopiesNothing(env, q, Put(qb, [c]), ps, top);
      CopiesMore(env, qp, qb, mid, 1, 0, q, ps, top);
    } else {
      q := LineRun(env, mid, Put(qb, [c]), ps, top);
      CopiesMore(env, qp, qb, mid, 1, LineRest(t[1..]), q, ps, top);
    }
  }

  lemma {:induction false} IdentRun(env: Env, qp: QP, qb: QB, ps: Params, top: bool) returns (q: QP)
    requires AsciiStatement(env) && qp.opos <= |env.stmt| && qp.ccst == 0 && qp.commentLevel == 0
    requires qp.inStatus == IDLE.(ident := true)
    ensures Copies(env, qp, qb, IdentRest(Rest(env, qp.opos)), q, ps, top)
    decreases |env.stmt| - qp.opos
  {
    hide Loop, Step, Copies;
    var p, t := qp.opos, Rest(env, qp.opos);
    q := qp;
    if p == |env.stmt| || !IdentifierByte(env.stmt[p]) {
      assert p < |env.stmt| ==> t[0] == env.stmt[p];
      CopiesNothing(env, qp, qb, ps, top);
      return;
    }
    AsciiStep(env, qp, qb);
    var c := env.stmt[p];
    assert t[0] == c && t[1..] == Rest(env, p + 1) && env.stmt[p..p + 1] == [c];
    LoopOn(env, qp, qb, Seen(env, qp), Put(qb, [c]), ps, top);
    var mid := Seen(env, qp).(opos := p + 1);
    q := IdentRun(env, mid, Put(qb, [c]), ps, top);
    CopiesMore(env, qp, qb, mid, 1, IdentRest(t[1..]), q, ps, top);
  }

  lemma {:induction false} BlockRun(env: Env, qp: QP, qb: QB, ps: Params, top: bool) returns (q: QP)
    requires AsciiStatement(env) && qp.opos <= |env.stmt| && qp.ccst == 0 && qp.commentLevel > 0
    requires qp.inStatus == IDLE.(commentBlock := true)
    ensures Copies(env, qp, qb, BlockRest(Rest(env, qp.opos), qp.commentLevel), q, ps, top)
    decreases |env.stmt| - qp.opos
  {
    hide Loop, Step, Copies;
    var p, t := qp.opos, Rest(env, qp.opos);
    q := qp;
    if p == |env.stmt| {
      CopiesNothing(env, qp, qb, ps, top);
      return;
    }
    BlockStep(env, qp, qb);
    hide Inside;
    var c, next, level := env.stmt[p], At(env.stmt, p + 1), qp.commentLevel;
    assert t[0] == c && At(t, 1) == next && t[1..] == Rest(env, p + 1) && env.stmt[p..p + 1] == [c];
    if (c == SLASH && next == STAR) || (c == STAR && next == SLASH) {
      assert t[2..] == Rest(env, p + 2) && env.stmt[p..p + 2] == [c, next];
      var inner := if c == SLASH then level + 1 else level - 1;
      var stepped := Leveled(env, qp, inner);
      var b := Put(qb, [c, next]);
      LoopOn(env, qp, qb, stepped, b, ps, top);
      var mid := stepped.(opos := p + 2);
      if inner == 0 {
        q := mid;
        CopiesNothing(env, q, b, ps, top);
        CopiesMore(env, qp, qb, mid, 2, 0, q, ps, top);
      } else {
        q := BlockRun(env, mid, b, ps, top);
        CopiesMore(env, qp, qb, mid, 2, BlockRest(t[2..], inner), q, ps, top);
      }
    } else {
      LoopOn(env, qp, qb, Seen(env, qp), Put(qb, [c]), ps, top);
      var mid := Seen(env, qp).(opos := p + 1);
      q := BlockRun(env, mid, Put(qb, [c]), ps, top);
      CopiesMore(env, qp, qb, mid, 1, BlockRest(t[1..], level), q, ps, top);
    }
  }

  /** After the two bytes that open or close a comment. */
  function Leveled(env: Env, qp: QP, level: nat): QP
    requires qp.opos < |env.stmt|
  {
    Seen(env, qp).(opos := qp.opos + 1, commentLevel := level, inStatus := if level == 0 then IDLE else qp.inStatus)
  }

  lemma BlockStep(env: Env, qp: QP, qb: QB)
    requires AsciiStatement(env) && qp.opos < |env.stmt| && qp.ccst == 0 && qp.commentLevel > 0
    requires qp.inStatus == IDLE.(commentBlock := true)
    ensures var c, next := env.stmt[qp.opos], At(env.stmt, qp.opos + 1);
            Step(env, qp, qb)
            == if c == SLASH && next == STAR then Ok(Leveled(env, qp, qp.commentLevel + 1), Put(qb, [c, next]))
               else if c == STAR && next == SLASH then Ok(Leveled(env, qp, qp.commentLevel - 1), Put(qb, [c, next]))
               else Ok(Seen(env, qp), Put(qb, [c]))
  {
    hide Step;
    AsciiStep(env, qp, qb);
  }

  lemma {:induction false} DollarRun(env: Env, qp: QP, qb: QB, tag: seq<byte>, ps: Params, top: bool) returns (q: QP)
    requires AsciiStatement(env) && qp.opos <= |env.stmt| && qp.ccst == 0 && qp.commentLevel == 0
    requires qp.inStatus == IDLE.(dollarQuote := true) && qp.dollarTag.Some? && qp.taglen == |tag|
    requires tag != [] && tag[0] == DOLLAR && tag[|tag| - 1] == DOLLAR
    requires qp.dollarTag.value + |tag| <= |env.stmt| && env.stmt[qp.dollarTag.value..qp.dollarTag.value + |tag|] == tag
    ensures Copies(env, qp, qb, DollarRest(Rest(env, qp.opos), tag), q, ps, top)
    decreases |env.stmt| - qp.opos
  {
    hide Loop, Step, Copies;
    var p, t := qp.opos, Rest(env, qp.opos);
    q := qp;
    if p == |env.stmt| {
      CopiesNothing(env, qp, qb, ps, top);
      return;
    }
    hide TagHere, Inside, Delimit, AsciiStatement;
    if tag <= t {
      q := DollarCloses(env, qp, qb, tag, ps, top);
    } else {
      DollarStep(env, qp, qb, tag);
      var c := env.stmt[p];
      assert t[1..] == Rest(env, p + 1) && env.stmt[p..p + 1] == [c];
      LoopOn(env, qp, qb, Seen(env, qp), Put(qb, [c]), ps, top);
      var mid := Seen(env, qp).(opos := p + 1);
      q := DollarRun(env, mid, Put(qb, [c]), tag, ps, top);
      CopiesMore(env, qp, qb, mid, 1, DollarRest(t[1..], tag), q, ps, top);
    }
  }

  lemma DollarCloses(env: Env, qp: QP, qb: QB, tag: seq<byte>, ps: Params, top: bool) returns (q: QP)
    requires AsciiStatement(env) && qp.opos < |env.stmt| && qp.ccst == 0 && qp.commentLevel == 0
    requires qp.inStatus == IDLE.(dollarQuote := true) && qp.dollarTag.Some? && qp.taglen == |tag|
    requires tag != [] && tag[0] == DOLLAR && tag[|tag| - 1] == DOLLAR && tag <= Rest(env, qp.opos)
    requires qp.dollarTag.value + |tag| <= |env.stmt| && env.stmt[qp.dollarTag.value..qp.dollarTag.value + |tag|] == tag
    ensures Copies(env, qp, qb, |tag|, q, ps, top)
  {
    hide Loop, Step, Copies, TagHere, Inside, Delimit, AsciiStatement, Rest;
    var p, n := qp.opos, |tag|;
    DollarStep(env, qp, qb, tag);
    var closed := Seen(env, qp).(opos := p + n - 1, inStatus := IDLE, dollarTag := None, taglen := -1);
    LoopOn(env, qp, qb, closed, Put(qb, tag), ps, top);
    q := closed.(opos := p + n);
    CopiesNothing(env, q, Put(qb, tag), ps, top);
    CopiesMore(env, qp, qb, q, n, 0, q, ps, top);
  }

  lemma DollarStep(env: Env, qp: QP, qb: QB, tag: seq<byte>)
    requires AsciiStatement(env) && qp.opos < |env.stmt| && qp.ccst == 0 && qp.inStatus == IDLE.(dollarQuote := true)
    requires qp.dollarTag.Some? && qp.taglen == |tag| && tag != [] && tag[0] == DOLLAR
    requires qp.dollarTag.value + |tag| <= |env.stmt| && env.stmt[qp.dollarTag.value..qp.dollarTag.value + |tag|] == tag
    ensures Step(env, qp, qb)
         == if tag <= Rest(env, qp.opos)
            then Ok(Seen(env, qp).(opos := qp.opos + |tag| - 1, inStatus := IDLE, dollarTag := None, taglen := -1), Put(qb, tag))
            else Ok(Seen(env, qp), Put(qb, [env.stmt[qp.opos]]))
    ensures tag <= Rest(env, qp.opos) ==>
              && qp.opos + |tag| <= |env.stmt| && env.stmt[qp.opos..qp.opos + |tag|] == tag
              && env.stmt[qp.opos + |tag| - 1] == tag[|tag| - 1]
  {
    hide Step, TagHere;
    AsciiStep(env, qp, qb);
    TagThere(env, Seen(env, qp), tag);
    if tag <= Rest(env, qp.opos) {
      assert Rest(env, qp.opos)[|tag| - 1] == env.stmt[qp.opos + |tag| - 1];
    }
  }

  /** The tag stands at opos exactly when the rest of the statement starts with it. */
  lemma TagThere(env: Env, qp: QP, tag: seq<byte>)
    requires qp.opos < |env.stmt| && qp.dollarTag.Some? && qp.taglen == |tag| && tag != [] && tag[0] == DOLLAR
    requires qp.dollarTag.value + |tag| <= |env.stmt| && env.stmt[qp.dollarTag.value..qp.dollarTag.value + |tag|] == tag
    ensures TagHere(env, qp) <==> tag <= Rest(env, qp.opos)
    ensures TagHere(env, qp) ==> env.stmt[qp.opos] == DOLLAR && env.stmt[qp.opos..qp.opos + |tag|] == tag
  {
    var t := Rest(env, qp.opos);
    if qp.opos + |tag| <= |env.stmt| {
      assert t[..|tag|] == env.stmt[qp.opos..qp.opos + |tag|];
      assert env.stmt[qp.opos..qp.opos + |tag|][0] == env.stmt[qp.opos];
    }
  }

  lemma {:induction false} TagEndAscii(enc: Encoding, s: seq<byte>)
    requires IsAsciiText(s)
    ensures TagEnd(enc, 0, s) == if AlnumRun(s) < |s| && s[AlnumRun(s)] == DOLLAR then Some(AlnumRun(s)) else None
  {
    if s != [] {
      AsciiStays(enc, s[0]);
      TagEndAscii(enc, s[1..]);
    }
  }

  lemma TagFound(enc: Encoding, t: seq<byte>)
    requires t != [] && IsAsciiText(t)
    ensures FindTag(enc, t) == TagLength(t)
    ensures TagLength(t) > 0 ==> TagLength(t) >= 2
  {
    TagEndAscii(enc, t[1..]);
    var n := 1 + AlnumRun(t[1..]);
    assert n < |t| ==> t[n] == t[1..][n - 1];
  }

  // ---------------------------------------------------------------- marker rewriting

  function Idling(env: Env, qp: QP): QP
    requires qp.opos < |env.stmt|
  {
    qp.(last := env.stmt[qp.opos], inStatus := IDLE)
  }

  lemma IdleStep(env: Env, qp: QP, qb: QB)
    requires AsciiStatement(env) && qp.opos < |env.stmt| && Between(env, qp, qp.opos) && env.stmt[qp.opos] != LBRACE
    ensures Step(env, qp, qb) == AtIdle(env, Idling(env, qp), qb)
  {
    hide AtIdle;
    AsciiStep(env, qp, qb);
    assert LeaveIdent(Seen(env, qp)) == Idling(env, qp);
  }

  /** A comma or parenthesis between tokens may delimit a parameter. */
  function AfterText(ps: Params, text: seq<byte>, npos: nat): Params {
    if text in {[COMMA], [LPAREN], [RPAREN]} then Delimit(ps, text[0], npos) else ps
  }

  /** The loop has taken a token of `n` bytes, with the marker number set to `k`. */
  predicate Taken(env: Env, qp: QP, qb: QB, n: nat, k: int, q: QP, ps: Params, top: bool) {
    && qp.opos + n <= |env.stmt| && Past(env, q, qp.opos + n)
    && var text := env.stmt[qp.opos..qp.opos + n];
       var b := Put(qb, text).(dollarNumber := k);
       Loop(env, qp, qb, ps, top) == Loop(env, q, b, AfterText(ps, text, |b.out|), top)
  }

  /** A first byte that is no delimiter, then the rest of the token. */
  lemma TakenMore(env: Env, qp: QP, qb: QB, mid: QP, k: nat, n: nat, q: QP, ps: Params, top: bool)
    requires qp.opos + k == mid.opos <= |env.stmt| && k > 0 && env.stmt[qp.opos] !in {COMMA, LPAREN, RPAREN}
    requires Loop(env, qp, qb, ps, top) == Loop(env, mid, Put(qb, env.stmt[qp.opos..mid.opos]), ps, top)
    requires Copies(env, mid, Put(qb, env.stmt[qp.opos..mid.opos]), n, q, ps, top)
    ensures Taken(env, qp, qb, k + n, qb.dollarNumber, q, ps, top)
  {
    hide Loop, Delimit;
    CopiesMore(env, qp, qb, mid, k, n, q, ps, top);
    var text := env.stmt[qp.opos..qp.opos + k + n];
    assert text[0] == env.stmt[qp.opos];
    assert Put(qb, text).(dollarNumber := qb.dollarNumber) == Put(qb, text);
  }

  lemma TokenRun(env: Env, qp: QP, qb: QB, ps: Params, top: bool) returns (q: QP)
    requires AsciiStatement(env) && qp.opos < |env.stmt| && Between(env, qp, qp.opos)
    requires !Squeezes(env, Rest(env, qp.opos)) && env.stmt[qp.opos] !in {QUESTION, LBRACE, RBRACE}
    ensures var n := TokenLength(env, Previous(env, qp), Rest(env, qp.opos));
            Taken(env, qp, qb, n, if env.stmt[qp.opos..qp.opos + n] == [SEMICOLON] then 0 else qb.dollarNumber, q, ps, top)
  {
    hide Loop, Step, Copies, Taken, LiteralRest, QuotedRest, BlockRest, LineRest, IdentRest, DollarRest, TagLength, Delimit,
      OpenDollar, Marker, AsciiStatement;
    var p, t := qp.opos, Rest(env, qp.opos);
    var c, next := env.stmt[p], At(env.stmt, p + 1);
    IdleStep(env, qp, qb);
    assert t[0] == c && At(t, 1) == next && t[1..] == Rest(env, p + 1) && env.stmt[p..p + 1] == [c];
    var idle, b := Idling(env, qp), Put(qb, [c]);
    if c == DOLLAR {
      q := DollarToken(env, qp, qb, ps, top);
    } else if c == QUOTE {
      var lit := idle.(inStatus := IDLE.(literal := true), escapeInLiteral := LiteralEscape(env, Previous(env, qp)));
      LoopOn(env, qp, qb, lit, b, ps, top);
      q := LiteralRun(env, lit.(opos := p + 1), b, ps, top);
      TakenMore(env, qp, qb, lit.(opos := p + 1), 1, LiteralRest(t[1..], LiteralEscape(env, Previous(env, qp))), q, ps, top);
    } else if c == DQUOTE {
      var mid := idle.(inStatus := IDLE.(dquote := true));
      LoopOn(env, qp, qb, mid, b, ps, top);
      q := QuotedRun(env, mid.(opos := p + 1), b, ps, top);
      TakenMore(env, qp, qb, mid.(opos := p + 1), 1, QuotedRest(t[1..]), q, ps, top);
    } else if c == SLASH && next == STAR {
      var mid := idle.(inStatus := IDLE.(commentBlock := true), commentLevel := 1);
      LoopOn(env, qp, qb, mid, b, ps, top);
      q := BlockRun(env, mid.(opos := p + 1), b, ps, top);
      TakenMore(env, qp, qb, mid.(opos := p + 1), 1, BlockRest(t[1..], 1), q, ps, top);
    } else if c == MINUS && next == MINUS {
      var mid := idle.(inStatus := IDLE.(lineComment := true));
      LoopOn(env, qp, qb, mid, b, ps, top);
      q := LineRun(env, mid.(opos := p + 1), b, ps, top);
      TakenMore(env, qp, qb, mid.(opos := p + 1), 1, LineRest(t[1..]), q, ps, top);
    } else if IsAlnum(c) {
      var mid := idle.(inStatus := IDLE.(ident := true));
      LoopOn(env, qp, qb, mid, b, ps, top);
      q := IdentRun(env, mid.(opos := p + 1), b, ps, top);
      TakenMore(env, qp, qb, mid.(opos := p + 1), 1, IdentRest(t[1..]), q, ps, top);
    } else {
      q := SingleToken(env, qp, qb, ps, top);
    }
    if env.stmt[p..p + TokenLength(env, Previous(env, qp), t)] == [SEMICOLON] {
      assert env.stmt[p..p + TokenLength(env, Previous(env, qp), t)][0] == c;
    }
  }

  /** Operators, parentheses, separators and white space. */
  lemma SingleToken(env: Env, qp: QP, qb: QB, ps: Params, top: bool) returns (q: QP)
    requires AsciiStatement(env) && qp.opos < |env.stmt| && Between(env, qp, qp.opos)
    requires !Squeezes(env, Rest(env, qp.opos)) && env.stmt[qp.opos] !in {QUESTION, LBRACE, RBRACE, DOLLAR, QUOTE, DQUOTE}
    requires !(env.stmt[qp.opos] == SLASH && At(env.stmt, qp.opos + 1) == STAR)
    requires !(env.stmt[qp.opos] == MINUS && At(env.stmt, qp.opos + 1) == MINUS) && !IsAlnum(env.stmt[qp.opos])
    ensures Taken(env, qp, qb, 1, if env.stmt[qp.opos] == SEMICOLON then 0 else qb.dollarNumber, q, ps, top)
  {
    hide Loop, Step;
    var p, t := qp.opos, Rest(env, qp.opos);
    var c := env.stmt[p];
    IdleStep(env, qp, qb);
    assert t[0] == c && At(t, 1) == At(env.stmt, p + 1) && env.stmt[p..p + 1] == [c];
    var b := Put(qb.(dollarNumber := if c == SEMICOLON then 0 else qb.dollarNumber), [c]);
    var idle := Idling(env, qp);
    q := idle.(opos := p + 1);
    if c in {COMMA, LPAREN, RPAREN} {
      DelimiterOn(env, qp, qb, idle, b, ps, top);
    } else {
      LoopOn(env, qp, qb, idle, b, ps, top);
    }
  }

  lemma DelimiterOn(env: Env, qp: QP, qb: QB, q: QP, b: QB, ps: Params, top: bool)
    requires qp.opos < |env.stmt| && Step(env, qp, qb) == Ok(q, b)
    requires q.opos < |env.stmt| && !NonAsciiRead(q) && q.inStatus == IDLE && env.stmt[q.opos] in {COMMA, LPAREN, RPAREN}
    ensures Loop(env, qp, qb, ps, top)
         == Loop(env, q.(opos := q.opos + 1), b, Delimit(ps, env.stmt[q.opos], |b.out|), top)
  {
    hide Step, Delimit;
  }

  lemma DollarToken(env: Env, qp: QP, qb: QB, ps: Params, top: bool) returns (q: QP)
    requires AsciiStatement(env) && qp.opos < |env.stmt| && Between(env, qp, qp.opos) && env.stmt[qp.opos] == DOLLAR
    ensures Taken(env, qp, qb, TokenLength(env, Previous(env, qp), Rest(env, qp.opos)), qb.dollarNumber, q, ps, top)
  {
    hide Loop, Step, Copies, Taken, TagEnd, DollarRest, Delimit, AlnumRun;
    var p, t := qp.opos, Rest(env, qp.opos);
    DollarOpens(env, qp, qb);
    hide AtIdle, OpenDollar, FindTag;
    assert t[0] == DOLLAR && env.stmt[p..p + 1] == [DOLLAR];
    var n := TagLength(t);
    if n == 0 {
      var mid := Idling(env, qp).(taglen := 0);
      LoopOn(env, qp, qb, mid, Put(qb, [DOLLAR]), ps, top);
      q := mid.(opos := p + 1);
      CopiesNothing(env, q, Put(qb, [DOLLAR]), ps, top);
      TakenMore(env, qp, qb, q, 1, 0, q, ps, top);
    } else {
      var tag := t[..n];
      assert env.stmt[p..p + n] == tag && t[n..] == Rest(env, p + n) && tag[0] == DOLLAR;
      q := DollarBody(env, qp, qb, tag, ps, top);
    }
  }

  lemma DollarBody(env: Env, qp: QP, qb: QB, tag: seq<byte>, ps: Params, top: bool) returns (q: QP)
    requires AsciiStatement(env) && qp.opos < |env.stmt| && Between(env, qp, qp.opos) && env.stmt[qp.opos] == DOLLAR
    requires |tag| >= 2 && |tag| == TagLength(Rest(env, qp.opos)) && env.stmt[qp.opos..qp.opos + |tag|] == tag
    requires tag[0] == DOLLAR && tag[|tag| - 1] == DOLLAR
    ensures Taken(env, qp, qb, |tag| + DollarRest(Rest(env, qp.opos + |tag|), tag), qb.dollarNumber, q, ps, top)
  {
    hide Loop, Step, Copies, Taken, TagEnd, TagLength, DollarRest;
    var p, n := qp.opos, |tag|;
    DollarOpens(env, qp, qb);
    hide AtIdle, OpenDollar, FindTag, Rest;
    var mid := Idling(env, qp).(opos := p + n - 1, inStatus := IDLE.(dollarQuote := true), dollarTag := Some(p), taglen := n);
    LoopOn(env, qp, qb, mid, Put(qb, tag), ps, top);
    q := DollarRun(env, mid.(opos := p + n), Put(qb, tag), tag, ps, top);
    TakenMore(env, qp, qb, mid.(opos := p + n), n, DollarRest(Rest(env, p + n), tag), q, ps, top);
  }

  lemma DollarOpens(env: Env, qp: QP, qb: QB)
    requires AsciiStatement(env) && qp.opos < |env.stmt| && Between(env, qp, qp.opos) && env.stmt[qp.opos] == DOLLAR
    ensures var n, q := TagLength(Rest(env, qp.opos)), Idling(env, qp);
            && (n > 0 ==> n >= 2)
            && Step(env, qp, qb)
               == if n == 0 then Ok(q.(taglen := 0), Put(qb, [DOLLAR]))
                  else Ok(q.(opos := qp.opos + n - 1, inStatus := IDLE.(dollarQuote := true), dollarTag := Some(qp.opos), taglen := n),
                          Put(qb, env.stmt[qp.opos..qp.opos + n]))
  {
    hide Step, TagEnd, FindTag;
    IdleStep(env, qp, qb);
    TagFound(env.ccsc, Rest(env, qp.opos));
  }

  function Prev(env: Env, p: nat): byte
    requires p <= |env.stmt|
  {
    if p == 0 then env.before else env.stmt[p - 1]
  }

  function TokensAt(env: Env, p: nat): seq<Token>
    requires p <= |env.stmt|
  {
    Tokens(env, Prev(env, p), Rest(env, p))
  }

  function Number(k: nat, token: Token): nat {
    if token == Param then k + 1 else if token == Copied([SEMICOLON]) then 0 else k
  }

  function Written(token: Token, k: nat): seq<byte> {
    match token
    case Dropped => []
    case Param => [DOLLAR] + Decimal(k + 1)
    case Copied(text) => text
  }

  lemma FirstToken(token: Token, more: seq<Token>, k: nat)
    ensures Render([token] + more, k) == Written(token, k) + Render(more, Number(k, token))
    ensures Markers([token] + more) == (if token == Param then 1 else 0) + Markers(more)
    ensures NoBraces([token] + more) ==> NoBraces(more) && token != Copied([LBRACE]) && token != Copied([RBRACE])
  {
    assert ([token] + more)[1..] == more;
    hide Decimal;
    if NoBraces([token] + more) {
      assert forall i :: 0 <= i < |more| ==> more[i] == ([token] + more)[i + 1];
      assert ([token] + more)[0] == token;
    }
  }

  /** Length and token at `p`. */
  function SpanAt(env: Env, p: nat): (n: nat)
    requires p < |env.stmt|
    ensures 0 < n <= |env.stmt| - p
  {
    if Squeezes(env, Rest(env, p)) || env.stmt[p] == QUESTION then 1 else TokenLength(env, Prev(env, p), Rest(env, p))
  }

  function TokenAt(env: Env, p: nat): Token
    requires p < |env.stmt|
  {
    if Squeezes(env, Rest(env, p)) then Dropped
    else if env.stmt[p] == QUESTION then Param
    else Copied(env.stmt[p..p + SpanAt(env, p)])
  }

  /** The first token and where the next one starts. */
  lemma TokensSplit(env: Env, p: nat)
    requires p < |env.stmt|
    ensures TokensAt(env, p) == [TokenAt(env, p)] + TokensAt(env, p + SpanAt(env, p))
    ensures env.stmt[p] in {LBRACE, RBRACE} ==> TokenAt(env, p) == Copied([env.stmt[p]])
  {
    hide LiteralRest, QuotedRest, BlockRest, LineRest, IdentRest, DollarRest, TagLength;
    var t, n := Rest(env, p), SpanAt(env, p);
    assert t[0] == env.stmt[p];
    assert t[..n] == env.stmt[p..p + n];
    if env.stmt[p] in {LBRACE, RBRACE} {
      BraceToken(env, Prev(env, p), t);
    }
    hide TokenLength;
    assert t[n..] == Rest(env, p + n) && t[n - 1] == env.stmt[p + n - 1];
  }

  function AfterToken(ps: Params, token: Token, npos: nat): Params {
    if token.Copied? then AfterText(ps, token.text, npos) else ps
  }

  /** The counters and the output after a token. */
  function AfterOut(qb: QB, k: nat, token: Token): QB {
    qb.(out := qb.out + Written(token, k), dollarNumber := Number(k, token),
        paramNumber := if token == Param then qb.paramNumber + 1 else qb.paramNumber)
  }

  /** What a token does to the output and the counters, whatever they are. */
  function Wrote(qb: QB, token: Token): QB {
    match token
    case Dropped => qb
    case Param => Marker(qb)
    case Copied(text) => Put(qb, text).(dollarNumber := if text == [SEMICOLON] then 0 else qb.dollarNumber)
  }

  /** One token that is no brace. */
  lemma AnyToken(env: Env, qp: QP, qb: QB, ps: Params, top: bool) returns (q: QP)
    requires AsciiStatement(env) && qp.opos < |env.stmt| && Past(env, qp, qp.opos) && env.stmt[qp.opos] !in {LBRACE, RBRACE}
    ensures q.opos == qp.opos + SpanAt(env, qp.opos) && Past(env, q, q.opos)
    ensures var b := Wrote(qb, TokenAt(env, qp.opos));
            Loop(env, qp, qb, ps, top) == Loop(env, q, b, AfterToken(ps, TokenAt(env, qp.opos), |b.out|), top)
  {
    hide Loop, Step, TokenLength, Marker;
    var token := TokenAt(env, qp.opos);
    if token.Copied? {
      q := TokenRun(env, qp, qb, ps, top);
    } else {
      var b;
      q, b := ShortTurn(env, qp, qb, token, ps, top);
    }
  }

  /** While the counters fit, a marker gets the next number. */
  lemma OneToken(env: Env, qp: QP, qb: QB, k: nat, ps: Params, top: bool) returns (q: QP)
    requires AsciiStatement(env) && qp.opos < |env.stmt| && Past(env, qp, qp.opos) && env.stmt[qp.opos] !in {LBRACE, RBRACE}
    requires qb.procReturn <= 0 && qb.dollarNumber == k <= qb.paramNumber + 1
    requires TokenAt(env, qp.opos) == Param ==> qb.paramNumber < 32766
    ensures q.opos == qp.opos + SpanAt(env, qp.opos) && Past(env, q, q.opos)
    ensures var b := AfterOut(qb, k, TokenAt(env, qp.opos));
            Loop(env, qp, qb, ps, top) == Loop(env, q, b, AfterToken(ps, TokenAt(env, qp.opos), |b.out|), top)
  {
    hide Loop, Past, AsciiStatement, TokenAt, SpanAt, AfterToken, Decimal;
    q := AnyToken(env, qp, qb, ps, top);
    var token := TokenAt(env, qp.opos);
    assert qb.out + [] == qb.out;
    assert qb.out + [DOLLAR] + Decimal(k + 1) == qb.out + ([DOLLAR] + Decimal(k + 1));
    assert Wrote(qb, token) == AfterOut(qb, k, token);
  }

  /** A marker or a dropped carriage return. */
  lemma ShortTurn(env: Env, qp: QP, qb: QB, token: Token, ps: Params, top: bool) returns (q: QP, b: QB)
    requires AsciiStatement(env) && qp.opos < |env.stmt| && Between(env, qp, qp.opos) && token in {Param, Dropped}
    requires if token == Dropped then Squeezes(env, Rest(env, qp.opos)) else env.stmt[qp.opos] == QUESTION
    ensures b == if token == Param then Marker(qb) else qb
    ensures Between(env, q, qp.opos + 1) && Loop(env, qp, qb, ps, top) == Loop(env, q, b, ps, top)
  {
    hide Loop, Step, Marker;
    assert Rest(env, qp.opos)[0] == env.stmt[qp.opos] && At(Rest(env, qp.opos), 1) == At(env.stmt, qp.opos + 1);
    q := Idling(env, qp).(opos := qp.opos + 1);
    b := if token == Param then Marker(qb) else qb;
    IdleStep(env, qp, qb);
    LoopOn(env, qp, qb, Idling(env, qp), b, ps, top);
  }

  /** A brace between tokens is a token of its own. */
  lemma BraceToken(env: Env, prev: byte, t: seq<byte>)
    requires t != [] && t[0] in {LBRACE, RBRACE}
    ensures TokenLength(env, prev, t) == 1 && t[..1] == [t[0]]
  {
  }

  // ---------------------------------------------------------------- whole statements

  /** The number of markers numbered so far and the index of the last marker, as the 16-bit counters
      dollar_number and param_number have them after a token. */
  datatype Counts = Counts(k: int, n: int)

  function Counted(c: Counts, token: Token): Counts {
    match token
    case Dropped => c
    case Param =>
      var n := Wrap16(c.n + 1);
      Counts(if n < 0 then c.k else Wrap16(c.k + 1), n)
    case Copied(text) => if text == [SEMICOLON] then c.(k := 0) else c
  }

  /** What a token becomes. A marker whose index has wrapped around is dropped here; the source then reads the
      descriptor of a parameter at a negative index. */
  function Piece16(c: Counts, token: Token): seq<byte> {
    match token
    case Dropped => []
    case Param => if Wrap16(c.n + 1) < 0 then [] else [DOLLAR] + Decimal(Wrap16(c.k + 1))
    case Copied(text) => text
  }

  function Pieces16(tokens: seq<Token>, c: Counts): seq<seq<byte>> {
    if tokens == [] then [] else [Piece16(c, tokens[0])] + Pieces16(tokens[1..], Counted(c, tokens[0]))
  }

  /** What the tokens should become. */
  function Pieces(tokens: seq<Token>, k: nat): seq<seq<byte>> {
    if tokens == [] then [] else [Written(tokens[0], k)] + Pieces(tokens[1..], Number(k, tokens[0]))
  }

  lemma {:induction false} RenderIsPieces(tokens: seq<Token>, k: nat)
    ensures Render(tokens, k) == Flat(Pieces(tokens, k))
  {
    if tokens != [] {
      hide Decimal;
      RenderIsPieces(tokens[1..], Number(k, tokens[0]));
      assert tokens == [tokens[0]] + tokens[1..];
      FirstToken(tokens[0], tokens[1..], k);
      assert Pieces(tokens, k)[1..] == Pieces(tokens[1..], Number(k, tokens[0]));
    }
  }

  predicate Counting(qb: QB, c: Counts) { qb.procReturn == 0 && qb.dollarNumber == c.k && qb.paramNumber == c.n }

  lemma WroteCounts(qb: QB, c: Counts, token: Token)
    requires Counting(qb, c)
    ensures Counting(Wrote(qb, token), Counted(c, token)) && Wrote(qb, token).out == qb.out + Piece16(c, token)
  {
    hide Decimal;
    assert qb.out + [] == qb.out;
    assert qb.out + [DOLLAR] + Decimal(Wrap16(c.k + 1)) == qb.out + ([DOLLAR] + Decimal(Wrap16(c.k + 1)));
  }

  lemma {:induction false} TokensRun(env: Env, qp: QP, qb: QB, c: Counts, ps: Params)
    requires AsciiStatement(env) && qp.opos <= |env.stmt| && Past(env, qp, qp.opos) && Counting(qb, c)
    requires NoBraces(TokensAt(env, qp.opos))
    ensures var r := Loop(env, qp, qb, ps, true);
            r.ParamOk? && r.nqb.out == qb.out + Flat(Pieces16(TokensAt(env, qp.opos), c))
    decreases |env.stmt| - qp.opos
  {
    hide *;
    var p := qp.opos;
    if p == |env.stmt| {
      NoTokens(env, qp, qb, c, ps);
    } else {
      TokensSplit(env, p);
      var token, n := TokenAt(env, p), SpanAt(env, p);
      var more := TokensAt(env, p + n);
      FirstToken(token, more, 0);
      var q := AnyToken(env, qp, qb, ps, true);
      var b := Wrote(qb, token);
      WroteCounts(qb, c, token);
      TokensRun(env, q, b, Counted(c, token), AfterToken(ps, token, |b.out|));
      PiecesMore(token, more, c);
      Associative(qb.out, Piece16(c, token), Flat(Pieces16(more, Counted(c, token))));
    }
  }

  lemma NoTokens(env: Env, qp: QP, qb: QB, c: Counts, ps: Params)
    requires qp.opos == |env.stmt|
    ensures Loop(env, qp, qb, ps, true) == ParamOk(qp, qb, ps) && qb.out == qb.out + Flat(Pieces16(TokensAt(env, qp.opos), c))
  {
  }

  lemma PiecesMore(token: Token, more: seq<Token>, c: Counts)
    ensures Flat(Pieces16([token] + more, c)) == Piece16(c, token) + Flat(Pieces16(more, Counted(c, token)))
  {
    hide Piece16, Counted;
    assert ([token] + more)[1..] == more;
    var rest := Pieces16(more, Counted(c, token));
    assert ([Piece16(c, token)] + rest)[1..] == rest;
  }

  /** The highest number that a marker should get, at least `k`. */
  function Highest(tokens: seq<Token>, k: nat): (h: nat)
    ensures h >= k
  {
    if tokens == [] then k
    else
      var h := Highest(tokens[1..], Number(k, tokens[0]));
      if h > k then h else k
  }

  /** Both counters are 16 bits wide: every token becomes what it should if and only if the statement has
      at most 32768 markers and no two semicolons enclose more than 32767 of them. */
  lemma {:induction false} CountersFit(tokens: seq<Token>, k: nat, n: int)
    requires -1 <= n <= 32767 && k <= 32767
    ensures Pieces16(tokens, Counts(k, n)) == Pieces(tokens, k) <==> n + Markers(tokens) <= 32767 && Highest(tokens, k) <= 32767
  {
    if tokens != [] {
      hide Decimal;
      var token, c := tokens[0], Counts(k, n);
      var next := Counted(c, token);
      assert Pieces16(tokens, c)[0] == Piece16(c, token) && Pieces(tokens, k)[0] == Written(token, k);
      assert Pieces16(tokens, c)[1..] == Pieces16(tokens[1..], next);
      assert Pieces(tokens, k)[1..] == Pieces(tokens[1..], Number(k, token));
      if token == Param && k == 32767 {
        NumbersDiffer();
      } else if token != Param || n < 32767 {
        CountersFit(tokens[1..], Number(k, token), next.n);
      }
    }
  }

  lemma NumbersDiffer()
    ensures Decimal(-32768) != Decimal(32768) && Wrap16(32768) == -32768
  {
    assert Decimal(-32768)[0] == MINUS;
    DigitsPositive(32768);
  }

  lemma {:induction false} DigitsPositive(n: nat)
    ensures IsDigit(MinDigits(n, 1)[0])
  {
    if n >= 10 {
      DigitsPositive(n / 10);
      NoWidth(n / 10);
    }
  }

  lemma {:induction false} NoWidth(n: nat)
    ensures MinDigits(n, 0) == MinDigits(n, 1)
  {
  }

  /** Marker rewriting: for every ASCII statement whose braces all lie inside of literals, quoted
      identifiers, comments or dollar quotes, the output consists of what its tokens become. This is the
      statement with each marker met between tokens replaced by `$k`, `k` counted from the last
      semicolon between tokens, and nothing else changed (apart from squeezed carriage returns), if the
      counters of markers fit, and token by token only then. */
  lemma MarkerRewriting(env: Env)
    requires IsAsciiText(env.stmt) && NoBraces(Tokens(env, env.before, env.stmt))
    ensures var tokens := Tokens(env, env.before, env.stmt);
            var r := Process(env, Start(env), Fresh(0));
            && Sources(tokens) == env.stmt
            && r.Ok? && r.qb.out == Flat(Pieces16(tokens, Counts(0, -1)))
            && (Pieces16(tokens, Counts(0, -1)) == Pieces(tokens, 0)
                <==> Markers(tokens) <= 32768 && Highest(tokens, 0) <= 32767)
            && (Markers(tokens) <= 32768 && Highest(tokens, 0) <= 32767 ==> r.qb.out == Render(tokens, 0))
  {
    assert Rest(env, 0) == env.stmt;
    SourcesAll(env, env.before, env.stmt);
    var tokens := Tokens(env, env.before, env.stmt);
    hide Tokens, Loop, Process, Markers, NoBraces, Pieces16, Flat, Pieces, Highest, Render;
    LoopIsProcess(env, Start(env), Fresh(0), NO_PARAMS);
    TokensRun(env, Start(env), Fresh(0), Counts(0, -1), NO_PARAMS);
    assert [] + Flat(Pieces16(tokens, Counts(0, -1))) == Flat(Pieces16(tokens, Counts(0, -1)));
    CountersFit(tokens, 0, -1);
    RenderIsPieces(tokens, 0);
  }
}
