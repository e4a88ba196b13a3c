/**
 Function escapes `{fn name(a1, ..., an)}`: `processParameters` finds exactly the translated
 arguments, and the expressions of the function table are filled in with them.
 */
module FunctionEscapes {
  import opened CBytes
  import opened Multibyte
  import opened QuotedNames
  import opened Lexer
  import opened Escapes
  import opened StatementTokens

  /** A piece of a statement or of an argument: a token; an escape of `length` bytes that becomes `text`
      without reading further; the start of a call or an outer join, up to what it encloses; a closing
      brace of such an escape; a whole `{call name}`; or a function call of `length` bytes on arguments that
      consist of pieces again. `trail` stands between the closing parenthesis of a function call and its
      closing brace, and `text` is what the call becomes. */
  datatype Element =
    | Tok(token: Token)
    | Simple(length: nat, text: seq<byte>)
    | Open(length: nat, isCall: bool)
    | Close
    | Bare(length: nat, procedure: seq<byte>)
    | FnCall(length: nat, name: seq<byte>, args: seq<Argument>, trail: seq<Element>, text: seq<byte>)

  datatype Argument = Argument(elems: seq<Element>)

  /** What a translation depends on: the number of the last marker, brace_level and parenthesize_the_first,
      and whether nothing has been put out yet. The flag stays as the last brace opened at level 0 has left
      it, whether or not that brace is still open. */
  datatype Ctx = Ctx(k: nat, level: int, first: bool, empty: bool)

  predicate Matches(qb: QB, c: Ctx) {
    && qb.dollarNumber == c.k && qb.braceLevel == c.level && qb.parenthesizeTheFirst == c.first
    && (qb.out == [] <==> c.empty)
  }

  predicate IdleAt(q: QP, p: nat) { q.opos == p && q.inStatus == IDLE && q.ccst == 0 && q.commentLevel == 0 && q.last < 0x80 }

  /** The key word of the escape at `p`, and where what follows it starts. */
  function WordAt(env: Env, p: nat): seq<byte>
    requires p < |env.stmt|
  {
    var w := SkipSpace(env.stmt, p + 1);
    Prefix(env.stmt[w..SkipWord(env.stmt, w, false)], 32)
  }

  function KeyAt(env: Env, p: nat): Key
    requires p < |env.stmt|
  {
    if At(env.stmt, SkipSpace(env.stmt, p + 1)) == QUESTION then UnknownKey else KeyOf(LowerAll(WordAt(env, p)))
  }

  function BodyAt(env: Env, p: nat): (at: nat)
    requires p < |env.stmt|
    ensures p < at <= |env.stmt|
  {
    SkipSpace(env.stmt, SkipWord(env.stmt, SkipSpace(env.stmt, p + 1), false))
  }

  /** The name of a function escape, and where its opening parenthesis is expected. */
  function NameAt(env: Env, p: nat): seq<byte>
    requires p < |env.stmt|
  {
    Prefix(env.stmt[BodyAt(env, p)..SkipWord(env.stmt, BodyAt(env, p), true)], 64)
  }

  function OpenAt(env: Env, p: nat): (open: nat)
    requires p < |env.stmt|
    ensures p < open <= |env.stmt|
  {
    SkipSpace(env.stmt, SkipWord(env.stmt, BodyAt(env, p), true))
  }

  function CastOf(key: Key): seq<byte> {
    match key
    case DateKey => Bytes("::date")
    case TimeKey => Bytes("::time")
    case _ => Bytes("::timestamp")
  }

  /** Date, time, timestamp and escape-character literals of at most 128 bytes, and function names without
      arguments. */
  predicate SimpleAt(env: Env, p: nat, length: nat, text: seq<byte>)
    requires p < |env.stmt|
  {
    && 2 <= length && p + length <= |env.stmt| && env.stmt[p] == LBRACE && env.stmt[p + length - 1] == RBRACE
    && var end := p + length - 1;
       match KeyAt(env, p)
       case FunctionKey => end == OpenAt(env, p) && text == NameAt(env, p)
       case DateKey | TimeKey | TimestampKey =>
         && end == ExtractEnd(env.stmt, BodyAt(env, p), 128)
         && text == env.stmt[BodyAt(env, p)..end] + CastOf(KeyAt(env, p)) + Separator(env, end)
       case EscapeKey =>
         && end == ExtractEnd(env.stmt, BodyAt(env, p), 128)
         && text == WordAt(env, p) + [SPACE] + env.stmt[BodyAt(env, p)..end] + Separator(env, end)
       case _ => false
  }

  /** The start of a procedure call or an outer join. */
  predicate OpenAtBrace(env: Env, p: nat, length: nat, isCall: bool)
    requires p < |env.stmt|
  {
    && env.stmt[p] == LBRACE && KeyAt(env, p) == (if isCall then CallKey else OuterJoinKey)
    && length == BodyAt(env, p) - p && (isCall ==> BareEnd(env, p).None?)
  }

  /** Where the closing brace of a call without parentheses stands, if it is one. */
  function BareEnd(env: Env, p: nat): (end: Option<nat>)
    requires p < |env.stmt|
    ensures end.Some? ==> p < end.value < |env.stmt| && env.stmt[end.value] == RBRACE
  {
    var rest := env.stmt[BodyAt(env, p)..];
    var f := FindIdentifier(env.ccsc, rest);
    var next := FirstNonSpace(rest, f.stop);
    if next.Some? && rest[next.value] == RBRACE && f.slen >= 0 then Some(BodyAt(env, p) + next.value) else None
  }

  predicate BareAt(env: Env, p: nat, length: nat, procedure: seq<byte>)
    requires p < |env.stmt|
  {
    && env.stmt[p] == LBRACE && KeyAt(env, p) == CallKey && BareEnd(env, p) == Some(p + length - 1)
    && procedure == BareName(env, p)
  }

  function BareName(env: Env, p: nat): seq<byte>
    requires p < |env.stmt|
  {
    var rest := env.stmt[BodyAt(env, p)..];
    var n := FindIdentifier(env.ccsc, rest).slen;
    if n >= 0 then rest[..n] else []
  }

  /** The function call at `p`: at most 15 balanced arguments, and a text that is the meaning of the call on
      their translations. */
  predicate CallAt(env: Env, p: nat, c: Ctx, e: Element)
    requires p < |env.stmt| && e.FnCall?
    decreases e, 0
  {
    && env.stmt[p] == LBRACE && KeyAt(env, p) == FunctionKey && e.name == NameAt(env, p)
    && var open, close, brace := OpenAt(env, p), ArgsEnd(env, OpenAt(env, p) + 1, e.args), p + e.length - 1;
       && At(env.stmt, open) == LPAREN && |e.args| <= MAX_ARGS && ArgsAt(env, open + 1, Nonempty(c), e.args, close)
       && close < brace < |env.stmt| && env.stmt[brace] == RBRACE
       && Spans(env, close + 1, NO_CTX, e.trail, brace) && AllBlank(e.trail)
       && Meaning(e.name, Translated(e.args, Nonempty(c)), Closing(e.trail, ArgsCtx(e.args, Nonempty(c)))) == Text(e.text)
  }

  /** `param_pos` has 16 entries, and the list ends with a negative one. */
  const MAX_ARGS := 15

  const NO_CTX := Ctx(0, 0, false, false)

  /** After something has been put out. */
  function Nonempty(c: Ctx): Ctx { c.(empty := false) }

  /** What follows the closing parenthesis of a function call. */
  function Closing(trail: seq<Element>, c: Ctx): seq<byte> { Emit(trail, NO_CTX) + ExtraParen(c) }

  /** The element stands at `p`. */
  predicate ElementAt(env: Env, p: nat, c: Ctx, e: Element)
    decreases e, 1
  {
    p < |env.stmt| && match e
                      case Tok(token) => token == TokenAt(env, p) && env.stmt[p] !in {LBRACE, RBRACE}
                      case Simple(length, text) => SimpleAt(env, p, length, text)
                      case Open(length, isCall) => OpenAtBrace(env, p, length, isCall)
                      case Close => env.stmt[p] == RBRACE
                      case Bare(length, procedure) => BareAt(env, p, length, procedure)
                      case FnCall(_, _, _, _, _) => CallAt(env, p, c, e)
  }

  function LengthAt(env: Env, p: nat, e: Element): nat
    requires p < |env.stmt|
  {
    if e.Tok? then SpanAt(env, p) else if e.Close? then 1 else e.length
  }

  /** The elements stand in the statement from `p` to `end`. */
  predicate Spans(env: Env, p: nat, c: Ctx, elems: seq<Element>, end: nat)
    decreases elems
  {
    if elems == [] then p == end
    else ElementAt(env, p, c, elems[0]) && Spans(env, p + LengthAt(env, p, elems[0]), After(elems[0], c), elems[1..], end)
  }

  /** The arguments stand from `p` on, separated by commas, and `close` is the closing parenthesis. */
  predicate ArgsAt(env: Env, p: nat, c: Ctx, args: seq<Argument>, close: nat)
    decreases args
  {
    && args != []
    && var a := args[0].elems;
       var m := EndOf(env, p, a);
       && m < |env.stmt| && Spans(env, p, c, a, m) && Balanced(a, 0)
       && if |args| == 1 then m == close && env.stmt[m] == RPAREN
          else env.stmt[m] == COMMA && ArgsAt(env, m + 1, Nonempty(Last(a, c)), args[1..], close)
  }

  /** Where the elements that start at `p` end. */
  function EndOf(env: Env, p: nat, elems: seq<Element>): nat
    decreases elems
  {
    if elems == [] || p >= |env.stmt| then p else EndOf(env, p + LengthAt(env, p, elems[0]), elems[1..])
  }

  /** Where the arguments that start at `p` end. */
  function ArgsEnd(env: Env, p: nat, args: seq<Argument>): nat
    decreases args
  {
    if args == [] then p
    else if |args| == 1 then EndOf(env, p, args[0].elems)
    else ArgsEnd(env, EndOf(env, p, args[0].elems) + 1, args[1..])
  }

  /** Parentheses balance, and commas stand only between them. */
  predicate Balanced(elems: seq<Element>, depth: nat) {
    if elems == [] then depth == 0
    else if elems[0] == Tok(Copied([LPAREN])) then Balanced(elems[1..], depth + 1)
    else if elems[0] == Tok(Copied([RPAREN])) then depth > 0 && Balanced(elems[1..], depth - 1)
    else if elems[0] == Tok(Copied([COMMA])) then depth > 0 && Balanced(elems[1..], depth)
    else Balanced(elems[1..], depth)
  }

  /** A brace has been opened: at level 0 the flag is set anew. */
  function Opened(c: Ctx): Ctx { c.(level := c.level + 1, first := if c.level == 0 then !c.empty else c.first) }

  function OpenText(c: Ctx): seq<byte> { if c.level == 0 && c.empty then [] else [LPAREN] }

  /** What closing a brace appends. */
  function ExtraParen(c: Ctx): seq<byte> { if c.level <= 1 && !c.first then [] else [RPAREN] }

  function SelectFrom(): seq<byte> { Bytes("SELECT * FROM ") }

  function Output(e: Element, c: Ctx): seq<byte> {
    match e
    case Tok(token) => Written(token, c.k)
    case Open(_, isCall) => OpenText(c) + if isCall then SelectFrom() else []
    case Close => ExtraParen(c)
    case Bare(_, procedure) => OpenText(c) + SelectFrom() + (procedure + [LPAREN, RPAREN]) + ExtraParen(Opened(c))
    case Simple(_, text) => text
    case FnCall(_, _, _, _, text) => text
  }

  /** Function calls do not advance the number of the next marker. */
  function Moved(e: Element, c: Ctx): Ctx {
    match e
    case Tok(token) => c.(k := Number(c.k, token))
    case Open(_, _) => Opened(c)
    case Close => c.(level := c.level - 1)
    case Bare(_, _) => Opened(c).(level := c.level)
    case _ => c
  }

  function After(e: Element, c: Ctx): Ctx { Moved(e, c).(empty := c.empty && Output(e, c) == []) }

  /** The translation of a list of elements. */
  function Emit(elems: seq<Element>, c: Ctx): seq<byte> {
    if elems == [] then [] else Output(elems[0], c) + Emit(elems[1..], After(elems[0], c))
  }

  function Last(elems: seq<Element>, c: Ctx): Ctx {
    if elems == [] then c else Last(elems[1..], After(elems[0], c))
  }

  /** The markers in an element, at any depth. */
  function MarksOf(e: Element): nat
    decreases e, 0
  {
    match e
    case Tok(token) => if token == Param then 1 else 0
    case FnCall(_, _, args, _, _) => AllMarks(args)
    case _ => 0
  }

  function Marks(elems: seq<Element>): nat
    decreases elems, 0
  {
    if elems == [] then 0 else MarksOf(elems[0]) + Marks(elems[1..])
  }

  function AllMarks(args: seq<Argument>): nat
    decreases args, 0
  {
    if args == [] then 0 else Marks(args[0].elems) + AllMarks(args[1..])
  }

  // ---------------------------------------------------------------- one argument

  /** Where the scan stands: the context is `c`, and there is room for `marks` more markers. */
  predicate Stands(env: Env, qp: QP, qb: QB, c: Ctx, marks: nat) {
    && AsciiStatement(env) && qp.opos <= |env.stmt| && Past(env, qp, qp.opos) && qb.procReturn == 0
    && Matches(qb, c) && c.k <= qb.paramNumber + 1 && qb.paramNumber + marks <= 32766
  }

  function AfterElement(qb: QB, c: Ctx, e: Element): QB {
    var m := Moved(e, c);
    qb.(out := qb.out + Output(e, c), paramNumber := qb.paramNumber + MarksOf(e), dollarNumber := m.k, braceLevel := m.level,
        parenthesizeTheFirst := m.first)
  }

  function Delimited(ps: Params, e: Element, npos: nat): Params {
    if e.Tok? then AfterToken(ps, e.token, npos) else ps
  }

  /** One element: a token, or an escape of any depth. */
  lemma {:induction false} ElementRun(env: Env, qp: QP, qb: QB, c: Ctx, ps: Params, e: Element, top: bool) returns (q: QP)
    requires Stands(env, qp, qb, c, MarksOf(e)) && ElementAt(env, qp.opos, c, e) && (top || ps.depth != 0)
    ensures q.opos == qp.opos + LengthAt(env, qp.opos, e) <= |env.stmt| && Past(env, q, q.opos)
    ensures var b := AfterElement(qb, c, e);
            Loop(env, qp, qb, ps, top) == Loop(env, q, b, Delimited(ps, e, |b.out|), top)
    decreases e, 1
  {
    hide Loop, Step, TokenAt, SpanAt, AfterToken, SimpleAt, CallAt, OpenAtBrace, BareAt, AfterElement, MarksOf, AsciiStatement,
      Past, Matches;
    if e.Tok? {
      q := TokenElement(env, qp, qb, c, ps, e, top);
    } else if e.Open? {
      q := OpenElement(env, qp, qb, c, ps, e, top);
    } else {
      var r := EscapeElement(env, qp, qb, c, e);
      q := EscapeOn(env, qp, qb, r, AfterElement(qb, c, e), ps, top);
    }
  }

  lemma TokenElement(env: Env, qp: QP, qb: QB, c: Ctx, ps: Params, e: Element, top: bool) returns (q: QP)
    requires e.Tok? && Stands(env, qp, qb, c, MarksOf(e)) && ElementAt(env, qp.opos, c, e)
    ensures q.opos == qp.opos + SpanAt(env, qp.opos) <= |env.stmt| && Past(env, q, q.opos)
    ensures var b := AfterElement(qb, c, e);
            Loop(env, qp, qb, ps, top) == Loop(env, q, b, AfterToken(ps, e.token, |b.out|), top)
  {
    hide Loop, Step, TokenAt, SpanAt, AfterToken, Written;
    q := OneToken(env, qp, qb, c.k, ps, top);
    assert AfterElement(qb, c, e) == AfterOut(qb, c.k, e.token);
  }

  /** Other escapes are left at their closing brace. */
  lemma {:induction false} EscapeElement(env: Env, qp: QP, qb: QB, c: Ctx, e: Element) returns (r: QP)
    requires !e.Tok? && !e.Open? && Stands(env, qp, qb, c, MarksOf(e)) && ElementAt(env, qp.opos, c, e)
    ensures 1 <= LengthAt(env, qp.opos, e) && qp.opos + LengthAt(env, qp.opos, e) <= |env.stmt|
    ensures var end := qp.opos + LengthAt(env, qp.opos, e) - 1;
            IdleAt(r, end) && env.stmt[end] == RBRACE && Step(env, qp, qb) == Ok(r, AfterElement(qb, c, e))
    decreases e, 0
  {
    hide Step, Past, AsciiStatement, MarksOf, SimpleAt, CallAt, BareAt, Matches, AfterElement;
    match e
    case Simple(_, _) => r := SimpleElement(env, qp, qb, c, e);
    case Close => r := CloseElement(env, qp, qb, c);
    case Bare(_, _) => r := BareElement(env, qp, qb, c, e);
    case FnCall(_, _, _, _, _) => r := FunctionElement(env, qp, qb, c, e);
  }

  lemma EscapeOn(env: Env, qp: QP, qb: QB, r: QP, b: QB, ps: Params, top: bool) returns (q: QP)
    requires qp.opos < |env.stmt| && r.opos < |env.stmt| && env.stmt[r.opos] == RBRACE && IdleAt(r, r.opos)
    requires Step(env, qp, qb) == Ok(r, b) && (top || ps.depth != 0)
    ensures q.opos == r.opos + 1 && Past(env, q, q.opos) && Loop(env, qp, qb, ps, top) == Loop(env, q, b, ps, top)
  {
    hide Step;
    q := r.(opos := r.opos + 1);
  }

  /** One element goes by at depth `1 + depth`: only parentheses change the depth. */
  lemma ElementDepth(ps: Params, e: Element, more: seq<Element>, npos: nat) returns (depth: nat)
    requires ps.depth >= 1 && ps.open.Some? && Balanced([e] + more, ps.depth - 1)
    ensures var ps' := Delimited(ps, e, npos);
            ps'.depth == 1 + depth && Balanced(more, depth) && ps'.done == ps.done && ps'.open == ps.open
  {
    assert ([e] + more)[1..] == more;
    depth := if e == Tok(Copied([LPAREN])) then ps.depth else if e == Tok(Copied([RPAREN])) then ps.depth - 2 else ps.depth - 1;
  }

  /** One element of a list. */
  lemma {:induction false} ElementTurn(env: Env, qp: QP, qb: QB, c: Ctx, ps: Params, elems: seq<Element>, end: nat, top: bool)
    returns (q: QP, b: QB)
    requires elems != [] && Stands(env, qp, qb, c, Marks(elems)) && Spans(env, qp.opos, c, elems, end)
    requires top || ps.depth != 0
    ensures Loop(env, qp, qb, ps, top) == Loop(env, q, b, Delimited(ps, elems[0], |b.out|), top)
    ensures Stands(env, q, b, After(elems[0], c), Marks(elems[1..]))
    ensures Spans(env, q.opos, After(elems[0], c), elems[1..], end)
    ensures b.out == qb.out + Output(elems[0], c) && b.paramNumber == qb.paramNumber + Marks(elems) - Marks(elems[1..])
    decreases elems, 0
  {
    hide *;
    var e, more := elems[0], elems[1..];
    assert elems == [e] + more;
    SpansHead(env, qp.opos, c, elems, end);
    InsideHead(env, qp, qb, c, e, more);
    q := ElementRun(env, qp, qb, c, ps, e, top);
    b := AfterElement(qb, c, e);
    InsideNext(env, qp, qb, c, e, Marks(more), q);
  }

  lemma SpansHead(env: Env, p: nat, c: Ctx, elems: seq<Element>, end: nat)
    requires elems != [] && Spans(env, p, c, elems, end)
    ensures p < |env.stmt| && ElementAt(env, p, c, elems[0])
    ensures Spans(env, p + LengthAt(env, p, elems[0]), After(elems[0], c), elems[1..], end)
  {
    hide SimpleAt, CallAt, OpenAtBrace, BareAt, LengthAt, TokenAt, After;
  }

  lemma InsideHead(env: Env, qp: QP, qb: QB, c: Ctx, e: Element, more: seq<Element>)
    requires Stands(env, qp, qb, c, Marks([e] + more))
    ensures Stands(env, qp, qb, c, MarksOf(e))
    ensures Marks([e] + more) == MarksOf(e) + Marks(more)
    ensures Stands(env, qp, qb, c, MarksOf(e) + Marks(more))
  {
    hide Past, AsciiStatement, MarksOf, Matches;
    assert ([e] + more)[1..] == more;
  }

  lemma InsideNext(env: Env, qp: QP, qb: QB, c: Ctx, e: Element, marks: nat, q: QP)
    requires Stands(env, qp, qb, c, MarksOf(e) + marks) && q.opos <= |env.stmt| && Past(env, q, q.opos)
    ensures var b := AfterElement(qb, c, e);
            && Stands(env, q, b, After(e, c), marks)
            && b.out == qb.out + Output(e, c) && b.paramNumber == qb.paramNumber + MarksOf(e)
  {
    hide Past, AsciiStatement, Output;
    NumberOk(e, c);
  }

  lemma NumberOk(e: Element, c: Ctx)
    ensures Moved(e, c).k <= c.k + MarksOf(e)
  {
    hide AllMarks;
  }

  /** One element of an argument. */
  lemma {:induction false} ArgumentStep(env: Env, qp: QP, qb: QB, c: Ctx, ps: Params, elems: seq<Element>, end: nat)
    returns (q: QP, b: QB, ps': Params)
    requires elems != [] && Stands(env, qp, qb, c, Marks(elems)) && Spans(env, qp.opos, c, elems, end)
    requires ps.depth >= 1 && ps.open.Some? && Balanced(elems, ps.depth - 1)
    ensures Loop(env, qp, qb, ps, false) == Loop(env, q, b, ps', false)
    ensures Stands(env, q, b, After(elems[0], c), Marks(elems[1..])) && Spans(env, q.opos, After(elems[0], c), elems[1..], end)
    ensures ps'.depth >= 1 && Balanced(elems[1..], ps'.depth - 1) && ps'.done == ps.done && ps'.open == ps.open
    ensures b.out == qb.out + Output(elems[0], c) && b.paramNumber == qb.paramNumber + Marks(elems) - Marks(elems[1..])
    decreases elems, 1
  {
    hide *;
    q, b := ElementTurn(env, qp, qb, c, ps, elems, end, false);
    assert elems == [elems[0]] + elems[1..];
    var depth := ElementDepth(ps, elems[0], elems[1..], |b.out|);
    ps' := Delimited(ps, elems[0], |b.out|);
  }

  lemma {:induction false} ArgumentRun(env: Env, qp: QP, qb: QB, c: Ctx, ps: Params, elems: seq<Element>, end: nat)
    returns (q: QP, b: QB, ps': Params)
    requires Stands(env, qp, qb, c, Marks(elems)) && Spans(env, qp.opos, c, elems, end)
    requires ps.depth >= 1 && ps.open.Some? && Balanced(elems, ps.depth - 1)
    ensures q.opos == end && Loop(env, qp, qb, ps, false) == Loop(env, q, b, ps', false)
    ensures Stands(env, q, b, Last(elems, c), 0) && b.paramNumber == qb.paramNumber + Marks(elems)
    ensures b.out == qb.out + Emit(elems, c)
    ensures ps'.depth == 1 && ps'.done == ps.done && ps'.open == ps.open
    decreases elems, 2
  {
    hide Loop, Stands, Spans, Balanced, Output, After, MarksOf;
    if elems == [] {
      NoElements(env, qp, qb, c, ps, end);
      q, b, ps' := qp, qb, ps;
    } else {
      var mid, m, pm := ArgumentStep(env, qp, qb, c, ps, elems, end);
      q, b, ps' := ArgumentRun(env, mid, m, After(elems[0], c), pm, elems[1..], end);
      var out, rest := Output(elems[0], c), Emit(elems[1..], After(elems[0], c));
      assert qb.out + (out + rest) == qb.out + out + rest;
    }
  }

  lemma NoElements(env: Env, qp: QP, qb: QB, c: Ctx, ps: Params, end: nat)
    requires Stands(env, qp, qb, c, 0) && Spans(env, qp.opos, c, [], end)
    requires ps.depth >= 1 && Balanced([], ps.depth - 1)
    ensures qp.opos == end && ps.depth == 1 && qb.out == qb.out + Emit([], c)
  {
  }

  // ---------------------------------------------------------------- all arguments

  /** The translated arguments. */
  function Translated(args: seq<Argument>, c: Ctx): (t: seq<seq<byte>>)
    ensures |t| == |args|
  {
    if args == [] then [] else [Emit(args[0].elems, c)] + Translated(args[1..], Nonempty(Last(args[0].elems, c)))
  }

  /** The context behind the arguments. */
  function ArgsCtx(args: seq<Argument>, c: Ctx): Ctx {
    if args == [] then c else ArgsCtx(args[1..], Nonempty(Last(args[0].elems, c)))
  }

  function Join(texts: seq<seq<byte>>): seq<byte> {
    if texts == [] then [] else if |texts| == 1 then texts[0] else texts[0] + [COMMA] + Join(texts[1..])
  }

  /** First and last position of each text in a buffer where they stand from `start` on, separated by
      single bytes. */
  function Positions(start: nat, texts: seq<seq<byte>>): (r: seq<(int, int)>)
    ensures |r| == |texts|
    decreases texts
  {
    if texts == [] then []
    else [(start, start + |texts[0]| - 1)] + Positions(start + |texts[0]| + 1, texts[1..])
  }

  lemma SeparatorToken(env: Env, p: nat)
    requires p < |env.stmt| && env.stmt[p] in {COMMA, LPAREN, RPAREN}
    ensures SpanAt(env, p) == 1 && TokenAt(env, p) == Copied([env.stmt[p]])
  {
    assert env.stmt[p..p + 1] == [env.stmt[p]];
    assert Rest(env, p)[0] == env.stmt[p];
  }

  /** A comma or parenthesis. */
  lemma SeparatorRun(env: Env, qp: QP, qb: QB, c: Ctx, marks: nat, ps: Params) returns (q: QP)
    requires Stands(env, qp, qb, c, marks) && qp.opos < |env.stmt| && env.stmt[qp.opos] in {COMMA, LPAREN, RPAREN}
    ensures var x := env.stmt[qp.opos];
            && q.opos == qp.opos + 1 && Stands(env, q, Put(qb, [x]), Nonempty(c), marks)
            && Loop(env, qp, qb, ps, false) == Loop(env, q, Put(qb, [x]), Delimit(ps, x, |qb.out| + 1), false)
  {
    hide Loop, Delimit, TokenAt, SpanAt, AsciiStatement;
    var x := env.stmt[qp.opos];
    SeparatorToken(env, qp.opos);
    q := OneToken(env, qp, qb, c.k, ps, false);
    assert AfterOut(qb, c.k, Copied([x])) == Put(qb, [x]);
  }

  /** One argument and the separator behind it. */
  lemma {:induction false} ArgStep(env: Env, qp: QP, qb: QB, c: Ctx, ps: Params, a: seq<Element>, more: nat, m: nat)
    returns (q: QP, b: QB, ps': Params)
    requires Stands(env, qp, qb, c, Marks(a) + more) && Spans(env, qp.opos, c, a, m) && Balanced(a, 0)
    requires m < |env.stmt| && env.stmt[m] in {COMMA, RPAREN} && ps.depth == 1 && ps.open.Some?
    ensures q.opos == m + 1 && Stands(env, q, b, Nonempty(Last(a, c)), more)
    ensures b.paramNumber == qb.paramNumber + Marks(a) && b.out == qb.out + Emit(a, c) + [env.stmt[m]]
    ensures Loop(env, qp, qb, ps, false) == Loop(env, q, b, ps', false)
    ensures exists p1: Params :: p1.depth == 1 && p1.done == ps.done && p1.open == ps.open && ps' == Delimit(p1, env.stmt[m], |b.out|)
    decreases a, 3
  {
    hide Loop, Stands, Spans, Balanced, Emit, Last, Marks, Delimit;
    InsideLess(env, qp, qb, c, Marks(a), more);
    var q1, b1, p1 := ArgumentRun(env, qp, qb, c, ps, a, m);
    InsideMore(env, q1, b1, Last(a, c), more, qb, qp, c, Marks(a));
    q := SeparatorRun(env, q1, b1, Last(a, c), more, p1);
    b, ps' := Put(b1, [env.stmt[m]]), Delimit(p1, env.stmt[m], |b1.out| + 1);
  }

  /** What the separator makes of the parameter positions. */
  lemma Delimits(p1: Params, c: byte, start: nat, text: seq<byte>, npos: nat)
    requires p1.depth == 1 && p1.open == Some(start) && c in {COMMA, RPAREN} && npos == start + |text| + 1
    ensures var d := p1.done + [(start, start + |text| - 1)];
            && (c == COMMA ==> Delimit(p1, c, npos) == p1.(done := d, open := Some(npos)))
            && (c == RPAREN ==> Delimit(p1, c, npos) == Params(0, d, None, npos))
  {
  }

  lemma ArgsHead(env: Env, p: nat, c: Ctx, args: seq<Argument>, close: nat)
    requires ArgsAt(env, p, c, args, close)
    ensures args != []
    ensures var a := args[0].elems;
            var m := EndOf(env, p, a);
            && m < |env.stmt| && Spans(env, p, c, a, m) && Balanced(a, 0)
            && (|args| == 1 ==> m == close && env.stmt[m] == RPAREN)
            && (|args| > 1 ==> env.stmt[m] == COMMA && ArgsAt(env, m + 1, Nonempty(Last(a, c)), args[1..], close))
    ensures AllMarks(args) == Marks(args[0].elems) + AllMarks(args[1..])
    ensures Translated(args, c) == [Emit(args[0].elems, c)] + Translated(args[1..], Nonempty(Last(args[0].elems, c)))
    ensures ArgsCtx(args, c) == ArgsCtx(args[1..], Nonempty(Last(args[0].elems, c)))
  {
    hide Spans, Balanced, EndOf, Emit, Last, Marks;
  }

  lemma {:induction false} ArgsRun(env: Env, qp: QP, qb: QB, c: Ctx, ps: Params, args: seq<Argument>, close: nat)
    returns (q: QP, b: QB, ps': Params)
    requires Stands(env, qp, qb, c, AllMarks(args)) && ArgsAt(env, qp.opos, c, args, close)
    requires ps.depth == 1 && ps.open == Some(|qb.out|)
    ensures q.opos == close + 1 && Loop(env, qp, qb, ps, false) == Loop(env, q, b, ps', false)
    ensures Stands(env, q, b, ArgsCtx(args, c), 0) && b.paramNumber == qb.paramNumber + AllMarks(args)
    ensures b.out == qb.out + Join(Translated(args, c)) + [RPAREN]
    ensures ps' == Params(0, ps.done + Positions(|qb.out|, Translated(args, c)), None, |b.out|)
    decreases args, 4
  {
    hide *;
    ArgsHead(env, qp.opos, c, args, close);
    var a, rest := args[0].elems, args[1..];
    var m, text, next := EndOf(env, qp.opos, a), Emit(a, c), Nonempty(Last(a, c));
    var q2, b2, p2 := ArgStep(env, qp, qb, c, ps, a, AllMarks(rest), m);
    var p1: Params :| p1.depth == 1 && p1.done == ps.done && p1.open == ps.open && p2 == Delimit(p1, env.stmt[m], |b2.out|);
    Delimits(p1, env.stmt[m], |qb.out|, text, |b2.out|);
    if |args| == 1 {
      q, b, ps' := q2, b2, p2;
      OnlyOne(args, c, |qb.out|);
    } else {
      q, b, ps' := ArgsRun(env, q2, b2, next, p2, rest, close);
      var texts := Translated(rest, next);
      JoinMore(qb.out, text, texts);
      PositionsMore(ps.done, |qb.out|, text, texts);
    }
  }

  lemma OnlyOne(args: seq<Argument>, c: Ctx, start: nat)
    requires |args| == 1
    ensures AllMarks(args) == Marks(args[0].elems) && AllMarks(args[1..]) == 0
    ensures Join(Translated(args, c)) == Emit(args[0].elems, c) && ArgsCtx(args, c) == Nonempty(Last(args[0].elems, c))
    ensures Positions(start, Translated(args, c)) == [(start, start + |Emit(args[0].elems, c)| - 1)]
  {
    hide Emit, Last, Marks;
    assert Translated(args, c) == [Emit(args[0].elems, c)];
  }

  lemma PositionsMore(done: seq<(int, int)>, start: nat, text: seq<byte>, texts: seq<seq<byte>>)
    ensures done + [(start, start + |text| - 1)] + Positions(start + |text| + 1, texts) == done + Positions(start, [text] + texts)
  {
    assert ([text] + texts)[1..] == texts;
  }

  lemma JoinMore(out: seq<byte>, text: seq<byte>, texts: seq<seq<byte>>)
    requires texts != []
    ensures out + text + [COMMA] + Join(texts) + [RPAREN] == out + Join([text] + texts) + [RPAREN]
  {
    assert ([text] + texts)[1..] == texts;
    hide Join;
    assert out + text + [COMMA] + Join(texts) == out + (text + [COMMA] + Join(texts));
  }

  lemma InsideLess(env: Env, qp: QP, qb: QB, c: Ctx, marks: nat, more: nat)
    requires Stands(env, qp, qb, c, marks + more)
    ensures Stands(env, qp, qb, c, marks)
  {
    hide Past, AsciiStatement, Matches;
  }

  lemma InsideMore(env: Env, q: QP, b: QB, c': Ctx, more: nat, qb: QB, qp: QP, c: Ctx, marks: nat)
    requires Stands(env, q, b, c', 0) && Stands(env, qp, qb, c, marks + more) && b.paramNumber == qb.paramNumber + marks
    ensures Stands(env, q, b, c', more)
  {
    hide Past, AsciiStatement, Matches;
  }

  // ---------------------------------------------------------------- the end of the list

  /** White space between the closing parenthesis and the closing brace. */
  predicate AllBlank(elems: seq<Element>) {
    forall i :: 0 <= i < |elems| ==>
      BlankElement(elems[i])
  }

  lemma {:induction false} TrailRun(env: Env, qp: QP, qb: QB, c: Ctx, ps: Params, elems: seq<Element>, end: nat)
    returns (q: QP, b: QB)
    requires Stands(env, qp, qb, c, 0) && !c.empty && Spans(env, qp.opos, NO_CTX, elems, end) && AllBlank(elems)
    ensures q.opos == end && Loop(env, qp, qb, ps, false) == Loop(env, q, b, ps, false)
    ensures Stands(env, q, b, c, 0) && b.paramNumber == qb.paramNumber
    ensures b.out == qb.out + Emit(elems, NO_CTX)
    decreases elems
  {
    hide *;
    if elems == [] {
      NoTrail(env, qp, qb, c, end);
      q, b := qp, qb;
    } else {
      BlankHead(elems);
      var q1, b1 := BlankRun(env, qp, qb, c, ps, elems, end);
      q, b := TrailRun(env, q1, b1, c, ps, elems[1..], end);
      Associative(qb.out, Output(elems[0], NO_CTX), Emit(elems[1..], NO_CTX));
    }
  }

  lemma BlankHead(elems: seq<Element>)
    requires elems != [] && AllBlank(elems)
    ensures BlankElement(elems[0]) && AllBlank(elems[1..])
    ensures Emit(elems, NO_CTX) == Output(elems[0], NO_CTX) + Emit(elems[1..], NO_CTX)
    ensures After(elems[0], NO_CTX) == NO_CTX
  {
    hide Decimal;
  }

  predicate BlankElement(e: Element) {
    e == Tok(Dropped) || (e.Tok? && e.token.Copied? && |e.token.text| == 1 && IsSpace(e.token.text[0]))
  }

  lemma BlankKeeps(e: Element, c: Ctx, ps: Params, npos: nat)
    requires BlankElement(e) && !c.empty
    ensures e.Tok? && MarksOf(e) == 0 && After(e, c) == c && Output(e, c) == Output(e, NO_CTX)
    ensures AfterToken(ps, e.token, npos) == ps
  {
    hide Delimit, Decimal;
    if e.token.Copied? {
      assert e.token.text[0] !in {COMMA, LPAREN, RPAREN, SEMICOLON};
    }
  }

  lemma BlankRun(env: Env, qp: QP, qb: QB, c: Ctx, ps: Params, elems: seq<Element>, end: nat) returns (q: QP, b: QB)
    requires elems != [] && AllBlank(elems) && Stands(env, qp, qb, c, 0) && !c.empty && Spans(env, qp.opos, NO_CTX, elems, end)
    ensures Loop(env, qp, qb, ps, false) == Loop(env, q, b, ps, false)
    ensures Stands(env, q, b, c, 0) && Spans(env, q.opos, NO_CTX, elems[1..], end)
    ensures b.out == qb.out + Output(elems[0], NO_CTX) && b.paramNumber == qb.paramNumber
  {
    hide *;
    BlankHead(elems);
    var e := elems[0];
    b := AfterElement(qb, c, e);
    BlankKeeps(e, c, ps, |b.out|);
    SpansHead(env, qp.opos, NO_CTX, elems, end);
    TokAnywhere(env, qp.opos, NO_CTX, c, e);
    q := TokenElement(env, qp, qb, c, ps, e, false);
    TokLength(env, qp.opos, e);
    InsideNext(env, qp, qb, c, e, 0, q);
  }

  lemma TokAnywhere(env: Env, p: nat, c: Ctx, d: Ctx, e: Element)
    requires e.Tok? && ElementAt(env, p, c, e)
    ensures ElementAt(env, p, d, e)
  {
  }

  lemma TokLength(env: Env, p: nat, e: Element)
    requires p < |env.stmt| && e.Tok?
    ensures LengthAt(env, p, e) == SpanAt(env, p)
  {
  }

  lemma NoTrail(env: Env, qp: QP, qb: QB, c: Ctx, end: nat)
    requires Spans(env, qp.opos, NO_CTX, [], end)
    ensures qp.opos == end && qb.out == qb.out + Emit([], NO_CTX)
  {
  }

  /** The closing brace ends the loop. */
  lemma BraceRun(env: Env, qp: QP, qb: QB, c: Ctx, ps: Params) returns (q: QP)
    requires Stands(env, qp, qb, c, 0) && qp.opos < |env.stmt| && env.stmt[qp.opos] == RBRACE && ps.depth == 0
    ensures IdleAt(q, qp.opos) && Loop(env, qp, qb, ps, false) == ParamOk(q, EndBrace(qb), ps)
    ensures EndBrace(qb).out == qb.out + ExtraParen(c) && EndBrace(qb).paramNumber == qb.paramNumber
  {
    hide Step;
    IdleStep(env, qp, qb);
    q := Idling(env, qp);
  }

  /** Behind the opening parenthesis. */
  lemma OpenParen(qb: QB, c: Ctx)
    requires qb.out == []
    ensures Put(qb, [LPAREN]).out == [LPAREN] && Put(qb, [LPAREN]).paramNumber == qb.paramNumber
    ensures Delimit(NO_PARAMS, LPAREN, 1) == Params(1, [], Some(1), 0) && !Nonempty(c).empty
  {
  }

  lemma {:induction false} ArgsWrote(args: seq<Argument>, c: Ctx)
    requires !c.empty
    ensures !ArgsCtx(args, c).empty
  {
    if args != [] {
      ArgsWrote(args[1..], Nonempty(Last(args[0].elems, c)));
    }
  }

  /** `processParameters` on a balanced list of arguments: the buffer up to `consumed` is the
      parenthesized list of translated arguments, and the positions delimit exactly these. */
  lemma {:induction false} ParametersRun(env: Env, qp: QP, nqb: QB, c: Ctx, args: seq<Argument>, close: nat,
                                         trail: seq<Element>, brace: nat)
    returns (q: QP, b: QB)
    requires Stands(env, qp, nqb, c, AllMarks(args)) && nqb.out == [] && qp.opos < |env.stmt| && env.stmt[qp.opos] == LPAREN
    requires ArgsAt(env, qp.opos + 1, Nonempty(c), args, close) && |args| <= MAX_ARGS && close < |env.stmt|
    requires Spans(env, close + 1, NO_CTX, trail, brace) && AllBlank(trail)
    requires brace < |env.stmt| && env.stmt[brace] == RBRACE
    ensures var texts := Translated(args, Nonempty(c));
            && ProcessParameters(env, qp, nqb)
               == ParamOk(q, b, Params(0, Positions(1, texts), None, |Join(texts)| + 2))
            && b.out == [LPAREN] + Join(texts) + [RPAREN] + Closing(trail, ArgsCtx(args, Nonempty(c)))
    ensures IdleAt(q, brace) && b.paramNumber == nqb.paramNumber + AllMarks(args)
    decreases args, 5
  {
    hide *;
    LoopIsParamLoop(env, qp, nqb, NO_PARAMS);
    var q1 := SeparatorRun(env, qp, nqb, c, AllMarks(args), NO_PARAMS);
    var b1 := Put(nqb, [LPAREN]);
    OpenParen(nqb, c);
    var inner := ArgsCtx(args, Nonempty(c));
    ArgsWrote(args, Nonempty(c));
    var q2, b2, p2 := ArgsRun(env, q1, b1, Nonempty(c), Params(1, [], Some(1), 0), args, close);
    var q3, b3 := TrailRun(env, q2, b2, inner, p2, trail, brace);
    q := BraceRun(env, q3, b3, inner, p2);
    b := EndBrace(b3);
    var texts := Translated(args, Nonempty(c));
    assert [] + Positions(1, texts) == Positions(1, texts);
    Finished(env, qp, nqb, q, b, p2);
    TailIs(trail, inner);
    Associative([LPAREN] + Join(texts) + [RPAREN], Emit(trail, NO_CTX), ExtraParen(inner));
  }

  lemma TailIs(trail: seq<Element>, c: Ctx)
    ensures Closing(trail, c) == Emit(trail, NO_CTX) + ExtraParen(c)
  {
  }

  lemma Finished(env: Env, qp: QP, nqb: QB, q: QP, b: QB, ps: Params)
    requires qp.opos < |env.stmt| && ParamLoop(env, qp, nqb, NO_PARAMS) == ParamOk(q, b, ps) && ps.open.None?
    ensures ProcessParameters(env, qp, nqb) == ParamOk(q, b, ps)
  {
    hide ParamLoop;
  }

  // ---------------------------------------------------------------- filling in the arguments

  /** The pieces of the buffer are the texts. */
  lemma {:induction false} PiecesAre(out: seq<byte>, start: nat, texts: seq<seq<byte>>, rest: seq<byte>, i: nat)
    requires start <= |out| && out[start..] == Join(texts) + rest && rest != [] && i < |texts|
    ensures var p := Positions(start, texts)[i]; Piece(out, p.0, p.1) == texts[i]
    decreases texts
  {
    var t := texts[0];
    if i == 0 {
      assert out[start..][..|t|] == t;
      assert out[start..start + |t|] == out[start..][..|t|];
    } else {
      var next := start + |t| + 1;
      assert Join(texts) + rest == t + [COMMA] + (Join(texts[1..]) + rest);
      assert out[next..] == out[start..][|t| + 1..] == Join(texts[1..]) + rest;
      PiecesAre(out, next, texts[1..], rest, i - 1);
    }
  }

  /** `$i` stands for the i-th argument and `$*` for all of them with their commas. */
  function Substitute(expr: seq<byte>, texts: seq<seq<byte>>, all: seq<byte>): Option<seq<byte>> {
    if expr == [] then Some([])
    else if expr[0] != DOLLAR then Prepended([expr[0]], Substitute(expr[1..], texts, all))
    else if |expr| >= 2 && expr[1] == STAR then Prepended(all, Substitute(expr[2..], texts, all))
    else if |expr| >= 2 && 49 <= expr[1] <= 57 && expr[1] as int - 49 < |texts| then
      Prepended(texts[expr[1] as int - 49], Substitute(expr[2..], texts, all))
    else None
  }

  lemma {:induction false} ExpandIsSubstitute(out: seq<byte>, params: seq<(int, int)>, consumed: nat, expr: seq<byte>,
                                              texts: seq<seq<byte>>, all: seq<byte>)
    requires |params| == |texts| && Piece(out, 1, consumed - 2) == all
    requires forall i :: 0 <= i < |texts| ==> Piece(out, params[i].0, params[i].1) == texts[i]
    ensures Expand(out, params, consumed, expr) == Substitute(expr, texts, all)
    decreases expr
  {
    hide Piece;
    if expr != [] {
      ExpandIsSubstitute(out, params, consumed, expr[1..], texts, all);
      if |expr| >= 2 {
        ExpandIsSubstitute(out, params, consumed, expr[2..], texts, all);
      }
    }
  }

  /** A single blank argument is no argument. */
  function Arguments(texts: seq<seq<byte>>): seq<seq<byte>> {
    if |texts| == 1 && (forall i :: 0 <= i < |texts[0]| ==> IsSpace(texts[0][i])) then [] else texts
  }

  /** CONVERT of the first argument; `after` follows the list of arguments. */
  function ConvertText(texts: seq<seq<byte>>, after: seq<byte>): Option<seq<byte>> {
    if |texts| != 2 then None
    else
      var list := Join(texts) + after;
      var first := At(list, SkipSpace(list, 0));
      Some(if first == QUOTE then texts[0]
           else if first == MINUS || IsDigit(first) then [QUOTE] + texts[0] + [QUOTE]
           else [LPAREN] + texts[0] + [RPAREN] + CastForm(texts[1]))
  }

  /** What a call means; `tail` is what follows the closing parenthesis. */
  function Meaning(name: seq<byte>, texts: seq<seq<byte>>, tail: seq<byte>): Called {
    var arguments := Arguments(texts);
    if IsConvert(name) then OrFail(ConvertText(arguments, [RPAREN] + tail), ConvertCount)
    else
      var expr := MapName(name, |arguments|);
      if expr.None? then Text(name + ([LPAREN] + Join(texts) + [RPAREN] + tail))
      else OrFail(Substitute(expr.value, arguments, Join(texts)), BadExpression)
  }

  lemma CallTextIsMeaning(name: seq<byte>, nqb: QB, ps: Params, texts: seq<seq<byte>>, tail: seq<byte>)
    requires texts != [] && nqb.out == [LPAREN] + Join(texts) + [RPAREN] + tail
    requires ps.done == Positions(1, texts) && ps.consumed == |Join(texts)| + 2
    ensures CallText(name, nqb, ps) == Meaning(name, texts, tail)
  {
    hide IsConvert, MapName, SkipSpace, CastForm, Expand, Substitute;
    var out, after := nqb.out, [RPAREN] + tail;
    assert out[1..] == Join(texts) + after;
    forall i | 0 <= i < |texts|
      ensures var p := Positions(1, texts)[i]; Piece(out, p.0, p.1) == texts[i]
    {
      PiecesAre(out, 1, texts, after, i);
    }
    assert Piece(out, 1, ps.consumed - 2) == Join(texts);
    BlankIsNone(out, texts, after);
    var params, arguments := ParamList(out, ps), Arguments(texts);
    forall expr | MapName(name, |arguments|) == Some(expr)
      ensures Expand(out, params, ps.consumed, expr) == Substitute(expr, arguments, Join(texts))
    {
      ExpandIsSubstitute(out, params, ps.consumed, expr, arguments, Join(texts));
    }
    if |texts| == 2 {
      TwoPositions(texts);
    }
  }

  lemma TwoPositions(texts: seq<seq<byte>>)
    requires |texts| == 2
    ensures Positions(1, texts)[0].0 == 1
  {
  }

  lemma BlankIsNone(out: seq<byte>, texts: seq<seq<byte>>, after: seq<byte>)
    requires texts != [] && |out| > 0 && out[1..] == Join(texts) + after && after != []
    ensures |texts| == 1 ==> (Blank(out, Positions(1, texts)[0].0, Positions(1, texts)[0].1)
                              <==> forall i :: 0 <= i < |texts[0]| ==> IsSpace(texts[0][i]))
  {
    if |texts| == 1 {
      assert Positions(1, texts)[0] == (1, |texts[0]|);
      assert forall i :: 0 <= i < |texts[0]| ==> out[i + 1] == out[1..][i] == texts[0][i];
      assert forall j :: 1 <= j <= |texts[0]| ==> out[j] == texts[0][j - 1];
    }
  }

  // ---------------------------------------------------------------- function escapes

  /** Function escapes: for every balanced `name(a1, ..., an)` before its closing brace, whose arguments
      consist of tokens and of escapes, to any depth, the output grows by the meaning of the call on the
      translated arguments; markers in the arguments are numbered on from the last one, but the number
      of the next marker outside is not advanced. */
  lemma {:induction false} FunctionEscape(env: Env, qp: QP, qb: QB, c: Ctx, at: nat, p: nat, args: seq<Argument>, close: nat,
                                          trail: seq<Element>, brace: nat)
    requires qp.opos < at <= |env.stmt| && p == SkipSpace(env.stmt, SkipWord(env.stmt, at, true))
    requires At(env.stmt, p) == LPAREN && Stands(env, qp.(opos := p), qb, c, AllMarks(args))
    requires ArgsAt(env, p + 1, Nonempty(c), args, close) && |args| <= MAX_ARGS
    requires close < brace < |env.stmt| && env.stmt[brace] == RBRACE
    requires Spans(env, close + 1, NO_CTX, trail, brace) && AllBlank(trail)
    ensures var name := Prefix(env.stmt[at..SkipWord(env.stmt, at, true)], 64);
            var r := FunctionCall(env, qp, qb, at);
            match Meaning(name, Translated(args, Nonempty(c)), Closing(trail, ArgsCtx(args, Nonempty(c))))
            case Failed(why) => r == Err(why)
            case Text(text) =>
              && r.Ok? && IdleAt(r.qp, brace)
              && r.qb == qb.(out := qb.out + text, paramNumber := qb.paramNumber + AllMarks(args))
    decreases args, 6
  {
    hide *;
    var nqb := qb.(out := []);
    var anew := c.(empty := true);
    InsideFresh(env, qp.(opos := p), qb, c, AllMarks(args));
    ParenHere(env, p);
    var q, b := ParametersRun(env, qp.(opos := p), nqb, anew, args, close, trail, brace);
    var texts, tail := Translated(args, Nonempty(c)), Closing(trail, ArgsCtx(args, Nonempty(c)));
    ArgsHead(env, p + 1, Nonempty(c), args, close);
    var name := Prefix(env.stmt[at..SkipWord(env.stmt, at, true)], 64);
    var ps := Params(0, Positions(1, texts), None, |Join(texts)| + 2);
    CallTextIsMeaning(name, b, ps, texts, tail);
    CallResult(env, qp, qb, at, q, b, ps);
  }

  lemma InsideFresh(env: Env, qp: QP, qb: QB, c: Ctx, marks: nat)
    requires Stands(env, qp, qb, c, marks)
    ensures Stands(env, qp, qb.(out := []), c.(empty := true), marks) && Nonempty(c.(empty := true)) == Nonempty(c)
  {
    hide Past, AsciiStatement;
  }

  lemma ParenHere(env: Env, p: nat)
    requires p <= |env.stmt| && At(env.stmt, p) == LPAREN
    ensures p < |env.stmt| && env.stmt[p] == LPAREN
  {
  }

  lemma CallResult(env: Env, qp: QP, qb: QB, at: nat, q: QP, b: QB, ps: Params)
    requires qp.opos < at <= |env.stmt|
    requires var p := SkipSpace(env.stmt, SkipWord(env.stmt, at, true));
             && p < |env.stmt| && env.stmt[p] == LPAREN
             && ProcessParameters(env, qp.(opos := p), qb.(out := [])) == ParamOk(q, b, ps)
    ensures FunctionCall(env, qp, qb, at)
         == match CallText(Prefix(env.stmt[at..SkipWord(env.stmt, at, true)], 64), b, ps)
            case Failed(why) => Err(why)
            case Text(text) => Ok(q, qb.(out := qb.out + text, paramNumber := b.paramNumber))
  {
    hide ProcessParameters, CallText, SkipWord, SkipSpace, Prefix;
  }

  // ---------------------------------------------------------------- escapes in statements

  /** An opening brace between tokens starts an escape. */
  lemma EscapeStep(env: Env, qp: QP, qb: QB)
    requires qp.opos < |env.stmt| && env.stmt[qp.opos] == LBRACE && Between(env, qp, qp.opos)
    ensures Step(env, qp, qb) == ConvertEscape(env, Idling(env, qp), qb)
  {
    AsciiStays(env.ccsc, LBRACE);
    hide Stat, ConvertEscape;
    assert LeaveIdent(Read(env, qp)) == Idling(env, qp);
  }

  lemma KeyStep(env: Env, qp: QP, qb: QB)
    requires qp.opos < |env.stmt| && env.stmt[qp.opos] == LBRACE && Between(env, qp, qp.opos)
    ensures KeyAt(env, qp.opos) == FunctionKey ==>
              Step(env, qp, qb) == FunctionCall(env, Idling(env, qp), qb, BodyAt(env, qp.opos))
    ensures KeyAt(env, qp.opos) in {DateKey, TimeKey, TimestampKey} ==>
              Step(env, qp, qb) == TypedLiteral(env, Idling(env, qp), qb, BodyAt(env, qp.opos), [], CastOf(KeyAt(env, qp.opos)))
    ensures KeyAt(env, qp.opos) == EscapeKey ==>
              Step(env, qp, qb)
              == TypedLiteral(env, Idling(env, qp), qb, BodyAt(env, qp.opos), WordAt(env, qp.opos) + [SPACE], [])
    ensures KeyAt(env, qp.opos) == OuterJoinKey ==>
              Step(env, qp, qb) == Ok(Idling(env, qp).(opos := BodyAt(env, qp.opos) - 1), StartBrace(qb))
    ensures KeyAt(env, qp.opos) == CallKey ==>
              qp.opos + 1 < BodyAt(env, qp.opos) && Step(env, qp, qb) == Escapes.Call(env, Idling(env, qp), qb, BodyAt(env, qp.opos))
  {
    hide Step, FunctionCall, TypedLiteral, SkipWord, SkipSpace, KeyOf, LowerAll, Prefix, Bytes, Call, StartBrace, Between,
      AtEscape, Read;
    EscapeStep(env, qp, qb);
    if KeyAt(env, qp.opos) in {CallKey, OuterJoinKey} {
      BeforeBody(env, qp.opos);
    }
  }

  /** An escape that is copied or named. */
  lemma SimpleElement(env: Env, qp: QP, qb: QB, c: Ctx, e: Element) returns (r: QP)
    requires e.Simple? && Stands(env, qp, qb, c, 0) && ElementAt(env, qp.opos, c, e)
    ensures 2 <= e.length && qp.opos + e.length <= |env.stmt| && IdleAt(r, qp.opos + e.length - 1)
    ensures env.stmt[qp.opos + e.length - 1] == RBRACE
    ensures Step(env, qp, qb) == Ok(r, AfterElement(qb, c, e))
  {
    hide Step, SimpleAt, ElementAt, Stands, Idling, AfterElement, KeyAt, WordAt, BodyAt, OpenAt, NameAt, CastOf, Separator, Bytes,
      ExtractEnd, FunctionCall, TypedLiteral, SkipWord, SkipSpace;
    SimpleParts(env, qp.opos, c, e);
    EscapeHere(env, qp, qb, c);
    KeyStep(env, qp, qb);
    r := Idling(env, qp).(opos := qp.opos + e.length - 1);
    SimpleResult(env, qp, qb, c, e, r);
  }

  lemma SimpleParts(env: Env, p: nat, c: Ctx, e: Element)
    requires e.Simple? && ElementAt(env, p, c, e)
    ensures p < |env.stmt| && SimpleAt(env, p, e.length, e.text)
    ensures env.stmt[p] == LBRACE && 2 <= e.length && p + e.length <= |env.stmt| && env.stmt[p + e.length - 1] == RBRACE
    ensures KeyAt(env, p) in {FunctionKey, DateKey, TimeKey, TimestampKey, EscapeKey}
  {
    hide KeyAt, WordAt, BodyAt, OpenAt, NameAt, Separator, CastOf, ExtractEnd;
  }

  lemma SimpleResult(env: Env, qp: QP, qb: QB, c: Ctx, e: Element, r: QP)
    requires e.Simple? && qp.opos < |env.stmt| && SimpleAt(env, qp.opos, e.length, e.text) && Matches(qb, c)
    requires r == Idling(env, qp).(opos := qp.opos + e.length - 1)
    ensures KeyAt(env, qp.opos) == FunctionKey ==>
              FunctionCall(env, Idling(env, qp), qb, BodyAt(env, qp.opos)) == Ok(r, AfterElement(qb, c, e))
    ensures KeyAt(env, qp.opos) in {DateKey, TimeKey, TimestampKey} ==>
              TypedLiteral(env, Idling(env, qp), qb, BodyAt(env, qp.opos), [], CastOf(KeyAt(env, qp.opos)))
              == Ok(r, AfterElement(qb, c, e))
    ensures KeyAt(env, qp.opos) == EscapeKey ==>
              TypedLiteral(env, Idling(env, qp), qb, BodyAt(env, qp.opos), WordAt(env, qp.opos) + [SPACE], [])
              == Ok(r, AfterElement(qb, c, e))
  {
    hide WordAt, Separator, Bytes, KeyAt, BodyAt, ExtractEnd, SkipWord, SkipSpace, Prefix, CastOf, ProcessParameters, CallText;
    var p, end := qp.opos, qp.opos + e.length - 1;
    assert [] + env.stmt[BodyAt(env, p)..end] == env.stmt[BodyAt(env, p)..end];
    var escape := WordAt(env, p) + [SPACE] + env.stmt[BodyAt(env, p)..end];
    assert escape + [] == escape;
  }

  lemma EscapeHere(env: Env, qp: QP, qb: QB, c: Ctx)
    requires qp.opos < |env.stmt| && env.stmt[qp.opos] == LBRACE && Stands(env, qp, qb, c, 0)
    ensures Between(env, qp, qp.opos) && Matches(qb, c)
    ensures forall p :: IdleAt(Idling(env, qp).(opos := p), p)
  {
  }

  /** A closing brace between tokens. */
  lemma CloseElement(env: Env, qp: QP, qb: QB, c: Ctx) returns (r: QP)
    requires Stands(env, qp, qb, c, 0) && qp.opos < |env.stmt| && env.stmt[qp.opos] == RBRACE
    ensures IdleAt(r, qp.opos) && Step(env, qp, qb) == Ok(r, AfterElement(qb, c, Close))
  {
    hide Step;
    IdleStep(env, qp, qb);
    r := Idling(env, qp);
    assert qb.out + [] == qb.out;
  }

  lemma {:induction false} WordStops(s: seq<byte>, p: nat)
    requires p <= |s|
    ensures forall i :: p <= i < SkipWord(s, p, false) ==> !IsSpace(s[i])
    decreases |s| - p
  {
    if SkipWord(s, p, false) > p {
      WordStops(s, p + 1);
    }
  }

  lemma {:induction false} SpacePassed(s: seq<byte>, p: nat)
    requires p <= |s|
    ensures SkipSpace(s, p) > p ==> IsSpace(s[SkipSpace(s, p) - 1])
    decreases |s| - p
  {
    if SkipSpace(s, p) > p {
      SpacePassed(s, p + 1);
    }
  }

  /** The key word of a call or an outer join ends with a letter. */
  lemma KeyLetters(word: seq<byte>)
    requires KeyOf(LowerAll(Prefix(word, 32))) in {CallKey, OuterJoinKey}
    ensures 0 < |word| < 32 && IsAlpha(word[|word| - 1])
  {
    var low := LowerAll(Prefix(word, 32));
    KeyIs(low);
    assert |low| == 4 || |low| == 2;
    assert Prefix(word, 32) == word;
    assert low[|low| - 1] == ToLower(word[|word| - 1]);
  }

  lemma KeyIs(low: seq<byte>)
    requires KeyOf(low) in {CallKey, OuterJoinKey}
    ensures |low| in {2, 4} && IsLower(low[|low| - 1])
  {
    assert low == Bytes("call") || low == Bytes("oj");
    assert Bytes("call")[3] == 108 && Bytes("oj")[1] == 106;
  }

  /** What is read before the body is no delimiter. */
  lemma BeforeBody(env: Env, p: nat)
    requires p < |env.stmt| && KeyAt(env, p) in {CallKey, OuterJoinKey}
    ensures p + 1 < BodyAt(env, p) && env.stmt[BodyAt(env, p) - 1] !in {COMMA, LPAREN, RPAREN, RBRACE}
  {
    var s, w := env.stmt, SkipSpace(env.stmt, p + 1);
    var end := SkipWord(s, w, false);
    hide KeyOf, LowerAll, Prefix, SkipWord, SkipSpace;
    KeyLetters(s[w..end]);
    SpacePassed(s, end);
    assert s[w..end][end - w - 1] == s[end - 1];
  }

  /** The start of a call or an outer join; what it encloses follows. */
  lemma OpenElement(env: Env, qp: QP, qb: QB, c: Ctx, ps: Params, e: Element, top: bool) returns (q: QP)
    requires e.Open? && Stands(env, qp, qb, c, 0) && ElementAt(env, qp.opos, c, e)
    ensures q.opos == qp.opos + e.length <= |env.stmt| && Past(env, q, q.opos)
    ensures Loop(env, qp, qb, ps, top) == Loop(env, q, AfterElement(qb, c, e), ps, top)
  {
    hide Loop, Step, KeyAt, BodyAt, BareEnd, AfterElement, IsAsciiText, Matches;
    var at := BodyAt(env, qp.opos);
    EscapeHere(env, qp, qb, c);
    KeyStep(env, qp, qb);
    BeforeBody(env, qp.opos);
    OpenResult(env, qp, qb, c, e);
    q := Idling(env, qp).(opos := at);
    LoopOn(env, qp, qb, Idling(env, qp).(opos := at - 1), AfterElement(qb, c, e), ps, top);
  }

  lemma OpenResult(env: Env, qp: QP, qb: QB, c: Ctx, e: Element)
    requires e.Open? && qp.opos < |env.stmt| && OpenAtBrace(env, qp.opos, e.length, e.isCall)
    requires Matches(qb, c) && qb.procReturn == 0 && qp.opos + 1 < BodyAt(env, qp.opos)
    ensures var q := Idling(env, qp).(opos := BodyAt(env, qp.opos) - 1);
            && (!e.isCall ==> StartBrace(qb) == AfterElement(qb, c, e))
            && (e.isCall ==> Escapes.Call(env, Idling(env, qp), qb, BodyAt(env, qp.opos)) == Ok(q, AfterElement(qb, c, e)))
  {
    hide KeyAt, BodyAt, FindIdentifier, FirstNonSpace, Bytes;
    StartBraceIs(qb, c);
    hide StartBrace;
    Associative(qb.out, OpenText(c), SelectFrom());
    assert OpenText(c) + [] == OpenText(c);
  }

  lemma StartBraceIs(qb: QB, c: Ctx)
    requires Matches(qb, c)
    ensures StartBrace(qb)
         == qb.(out := qb.out + OpenText(c), braceLevel := Opened(c).level, parenthesizeTheFirst := Opened(c).first)
  {
    assert qb.out + [] == qb.out;
  }

  /** A call without parentheses gets empty ones. */
  lemma BareElement(env: Env, qp: QP, qb: QB, c: Ctx, e: Element) returns (r: QP)
    requires e.Bare? && Stands(env, qp, qb, c, 0) && ElementAt(env, qp.opos, c, e)
    ensures 1 <= e.length && qp.opos + e.length <= |env.stmt| && IdleAt(r, qp.opos + e.length - 1)
    ensures env.stmt[qp.opos + e.length - 1] == RBRACE
    ensures Step(env, qp, qb) == Ok(r, AfterElement(qb, c, e))
  {
    hide Step, KeyAt, BodyAt, BareEnd, AfterElement, IsAsciiText, Matches, BareName;
    EscapeHere(env, qp, qb, c);
    KeyStep(env, qp, qb);
    BareResult(env, qp, qb, c, e);
    r := Idling(env, qp).(opos := qp.opos + e.length - 1);
  }

  lemma BareResult(env: Env, qp: QP, qb: QB, c: Ctx, e: Element)
    requires e.Bare? && qp.opos < |env.stmt| && BareAt(env, qp.opos, e.length, e.procedure)
    requires Matches(qb, c) && qb.procReturn == 0 && qp.opos + 1 < BodyAt(env, qp.opos)
    ensures 1 <= e.length
    ensures Escapes.Call(env, Idling(env, qp), qb, BodyAt(env, qp.opos))
         == Ok(Idling(env, qp).(opos := qp.opos + e.length - 1), AfterElement(qb, c, e))
  {
    hide KeyAt, BodyAt, FindIdentifier, FirstNonSpace, Bytes, EndBrace;
    StartBraceIs(qb, c);
    hide StartBrace;
    BareText(qb, c, e.procedure);
  }

  lemma BareText(qb: QB, c: Ctx, procedure: seq<byte>)
    requires Matches(qb, c)
    ensures var begun := qb.(out := qb.out + OpenText(c) + SelectFrom(), braceLevel := Opened(c).level,
                             parenthesizeTheFirst := Opened(c).first);
            EndBrace(Put(begun, procedure + [LPAREN, RPAREN]))
            == qb.(out := qb.out + (OpenText(c) + SelectFrom() + (procedure + [LPAREN, RPAREN]) + ExtraParen(Opened(c))),
                   parenthesizeTheFirst := Opened(c).first)
  {
    hide OpenText, SelectFrom;
    var a, b, d := OpenText(c), SelectFrom(), procedure + [LPAREN, RPAREN];
    assert qb.out + a + b + d + ExtraParen(Opened(c)) == qb.out + (a + b + d + ExtraParen(Opened(c)));
    assert qb.out + a + b + d + [] == qb.out + a + b + d;
  }

  /** A function call is an element of arguments again, markers included. */
  lemma {:induction false} FunctionElement(env: Env, qp: QP, qb: QB, c: Ctx, e: Element) returns (r: QP)
    requires e.FnCall? && Stands(env, qp, qb, c, MarksOf(e)) && ElementAt(env, qp.opos, c, e)
    ensures 2 <= e.length && qp.opos + e.length <= |env.stmt| && IdleAt(r, qp.opos + e.length - 1)
    ensures env.stmt[qp.opos + e.length - 1] == RBRACE
    ensures Step(env, qp, qb) == Ok(r, AfterElement(qb, c, e))
    decreases e.args, 7
  {
    hide *;
    var p := qp.opos;
    CallParts(env, p, c, e);
    var open := OpenAt(env, p);
    var close := ArgsEnd(env, open + 1, e.args);
    CallStarts(env, qp, qb, c, e, open);
    KeyStep(env, qp, qb);
    ClosesLater(env, open + 1, Nonempty(c), e.args, close);
    FunctionEscape(env, Idling(env, qp), qb, c, BodyAt(env, p), open, e.args, close, e.trail, p + e.length - 1);
    r := Step(env, qp, qb).qp;
    CallAfter(qb, c, e);
  }

  lemma CallAfter(qb: QB, c: Ctx, e: Element)
    requires e.FnCall? && Matches(qb, c)
    ensures AfterElement(qb, c, e) == qb.(out := qb.out + e.text, paramNumber := qb.paramNumber + AllMarks(e.args))
  {
  }

  lemma CallParts(env: Env, p: nat, c: Ctx, e: Element)
    requires e.FnCall? && ElementAt(env, p, c, e)
    ensures p < |env.stmt| && env.stmt[p] == LBRACE && KeyAt(env, p) == FunctionKey && MarksOf(e) == AllMarks(e.args)
    ensures var open, close, brace := OpenAt(env, p), ArgsEnd(env, OpenAt(env, p) + 1, e.args), p + e.length - 1;
            && open == SkipSpace(env.stmt, SkipWord(env.stmt, BodyAt(env, p), true))
            && At(env.stmt, open) == LPAREN && |e.args| <= MAX_ARGS && ArgsAt(env, open + 1, Nonempty(c), e.args, close)
            && close < brace < |env.stmt| && env.stmt[brace] == RBRACE
            && Spans(env, close + 1, NO_CTX, e.trail, brace) && AllBlank(e.trail)
            && Meaning(Prefix(env.stmt[BodyAt(env, p)..SkipWord(env.stmt, BodyAt(env, p), true)], 64), Translated(e.args, Nonempty(c)),
                       Closing(e.trail, ArgsCtx(e.args, Nonempty(c)))) == Text(e.text)
  {
    hide Meaning, Spans, ArgsAt, AllBlank, ArgsEnd, KeyAt, BodyAt, SkipWord, SkipSpace, Closing;
  }

  lemma CallStarts(env: Env, qp: QP, qb: QB, c: Ctx, e: Element, open: nat)
    requires Stands(env, qp, qb, c, MarksOf(e)) && e.FnCall? && qp.opos < |env.stmt| && env.stmt[qp.opos] == LBRACE
    requires open <= |env.stmt|
    ensures Between(env, qp, qp.opos) && Idling(env, qp).opos == qp.opos
    ensures Stands(env, Idling(env, qp).(opos := open), qb, c, AllMarks(e.args))
  {
  }

  lemma {:induction false} ClosesLater(env: Env, p: nat, c: Ctx, args: seq<Argument>, close: nat)
    requires ArgsAt(env, p, c, args, close)
    ensures p <= close
    decreases args
  {
    hide Spans, Balanced;
    EndLater(env, p, args[0].elems);
    if |args| > 1 {
      ClosesLater(env, EndOf(env, p, args[0].elems) + 1, Nonempty(Last(args[0].elems, c)), args[1..], close);
    }
  }

  lemma {:induction false} EndLater(env: Env, p: nat, elems: seq<Element>)
    ensures p <= EndOf(env, p, elems)
    decreases elems
  {
    if elems != [] && p < |env.stmt| {
      EndLater(env, p + LengthAt(env, p, elems[0]), elems[1..]);
    }
  }
}
