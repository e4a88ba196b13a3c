/**
 ODBC escapes: `convert_escape`, `processParameters` and their recursion through
 `inner_process_tokens`.
 */
module Escapes {
  import opened CBytes
  import opened Multibyte
  import opened QuotedNames
  import opened Lexer

  /** The bytes of an ASCII text. */
  function Bytes(s: string): (b: seq<byte>)
    requires forall i :: 0 <= i < |s| ==> s[i] < 128 as char
    ensures |b| == |s|
  {
    seq(|s|, i requires 0 <= i < |s| => s[i] as int)
  }

  function LowerAll(s: seq<byte>): (r: seq<byte>)
    ensures |r| == |s|
  {
    seq(|s|, i requires 0 <= i < |s| => ToLower(s[i]))
  }

  // ---------------------------------------------------------------- scanning helpers

  /** Past the word at `p`; a function name also ends at a parenthesis. */
  function SkipWord(s: seq<byte>, p: nat, atParen: bool): (q: nat)
    requires p <= |s|
    ensures p <= q <= |s|
    decreases |s| - p
  {
    if p < |s| && !IsSpace(s[p]) && !(atParen && s[p] == LPAREN) then SkipWord(s, p + 1, atParen) else p
  }

  /** `F_ExtractOldTo` with the closing brace and a buffer of 128 bytes: where it stops. */
  function ExtractEnd(s: seq<byte>, p: nat, room: nat): (q: nat)
    requires p <= |s|
    ensures p <= q <= |s|
    decreases |s| - p
  {
    if p < |s| && s[p] != RBRACE && room > 0 then ExtractEnd(s, p + 1, room - 1) else p
  }

  function Prefix(s: seq<byte>, n: nat): seq<byte> { if |s| < n then s else s[..n] }

  /** The key words of escapes. */
  datatype Key = CallKey | DateKey | TimeKey | TimestampKey | OuterJoinKey | EscapeKey | FunctionKey | UnknownKey

  function KeyOf(word: seq<byte>): (k: Key)
    ensures word == [] ==> k == UnknownKey
  {
    if word == Bytes("call") then CallKey
    else if word == Bytes("d") then DateKey
    else if word == Bytes("t") then TimeKey
    else if word == Bytes("ts") then TimestampKey
    else if word == Bytes("oj") then OuterJoinKey
    else if word == Bytes("escape") then EscapeKey
    else if word == Bytes("fn") then FunctionKey
    else UnknownKey
  }

  // ---------------------------------------------------------------- function names

  /** Function names and their expressions; a name may be restricted to a number of arguments. */
  datatype Mapping = Mapping(arity: Option<nat>, name: string, expr: string)

  const MAP_FUNCS: seq<Mapping> := [
    Mapping(None, "char", "chr($*)"),
    Mapping(None, "concat", "textcat($*)"),
    Mapping(None, "insert", "substring($1 from 1 for $2 - 1) || $4 || substring($1 from $2 + $3)"),
    Mapping(None, "lcase", "lower($*)"),
    Mapping(None, "left", "ltrunc($*)"),
    Mapping(Some(2), "locate", "strpos($2,  $1)"),
    Mapping(Some(3), "locate", "strpos(substring($2 from $3), $1) + $3 - 1"),
    Mapping(None, "length", "char_length($*)"),
    Mapping(None, "right", "rtrunc($*)"),
    Mapping(None, "space", "repeat(' ', $1)"),
    Mapping(None, "substring", "substr($*)"),
    Mapping(None, "ucase", "upper($*)"),
    Mapping(None, "ceiling", "ceil($*)"),
    Mapping(None, "log", "ln($*)"),
    Mapping(None, "log10", "log($*)"),
    Mapping(None, "power", "pow($*)"),
    Mapping(Some(0), "rand", "random()"),
    Mapping(Some(1), "rand", "(setseed($1) * .0 + random())"),
    Mapping(None, "truncate", "trunc($*)"),
    Mapping(None, "current_date", "current_date"),
    Mapping(None, "current_time", "current_time"),
    Mapping(None, "current_timestamp", "current_timestamp"),
    Mapping(None, "localtime", "localtime"),
    Mapping(None, "localtimestamp", "localtimestamp"),
    Mapping(None, "current_user", "cast(current_user as text)"),
    Mapping(None, "session_user", "cast(session_user as text)"),
    Mapping(None, "curdate", "current_date"),
    Mapping(None, "curtime", "current_time"),
    Mapping(None, "dayname", "to_char($1, 'Day')"),
    Mapping(None, "dayofmonth", "cast(extract(day from $1) as integer)"),
    Mapping(None, "dayofweek", "(cast(extract(dow from $1) as integer) + 1)"),
    Mapping(None, "dayofyear", "cast(extract(doy from $1) as integer)"),
    Mapping(None, "hour", "cast(extract(hour from $1) as integer)"),
    Mapping(None, "minute", "cast(extract(minute from $1) as integer)"),
    Mapping(None, "month", "cast(extract(month from $1) as integer)"),
    Mapping(None, "monthname", " to_char($1, 'Month')"),
    Mapping(None, "quarter", "cast(extract(quarter from $1) as integer)"),
    Mapping(None, "second", "cast(extract(second from $1) as integer)"),
    Mapping(None, "week", "cast(extract(week from $1) as integer)"),
    Mapping(None, "year", "cast(extract(year from $1) as integer)"),
    Mapping(None, "ifnull", "coalesce($*)"),
    Mapping(None, "user", "cast(current_user as text)")
  ]

  predicate Ascii(s: string) { forall i :: 0 <= i < |s| ==> s[i] < 128 as char }

  predicate RowFits(row: Mapping, name: seq<byte>, count: nat)
    ensures RowFits(row, name, count) ==> Ascii(row.expr)
  {
    Ascii(row.name) && Ascii(row.expr) && LowerAll(name) == Bytes(row.name) && (row.arity.Some? ==> row.arity.value == count)
  }

  /** `mapFunction`: the first entry that fits the name, in any case, and the number of arguments. */
  function MapFunction(rows: seq<Mapping>, name: seq<byte>, count: nat): Option<seq<byte>> {
    if rows == [] then None
    else if RowFits(rows[0], name, count) then Some(Bytes(rows[0].expr))
    else MapFunction(rows[1..], name, count)
  }

  // ---------------------------------------------------------------- arguments

  /** The array param_pos: the positions (first, last) of the finished parameters and the start of
      the one being read. */
  datatype Params = Params(depth: int, done: seq<(int, int)>, open: Option<int>, consumed: nat)

  const NO_PARAMS := Params(0, [], None, 0)

  /** The switch of `processParameters` on the byte at which the lexer stands outside of everything. */
  function Delimit(ps: Params, c: byte, npos: nat): Params {
    if c == COMMA then
      if ps.depth == 1 && ps.open.Some? then ps.(done := ps.done + [(ps.open.value, npos - 2)], open := Some(npos)) else ps
    else if c == LPAREN then
      ps.(depth := ps.depth + 1, open := if ps.depth == 0 then Some(npos) else ps.open)
    else if c == RPAREN then
      var closed := if ps.depth == 1 && ps.open.Some? then ps.(done := ps.done + [(ps.open.value, npos - 2)], open := None) else ps;
      closed.(depth := ps.depth - 1, consumed := npos)
    else ps
  }

  datatype ParamRes = ParamErr(why: Failure) | ParamOk(qp: QP, nqb: QB, ps: Params)

  /** `param_pos[i][0] < 0` ends the list; a single blank parameter is none. */
  function ParamList(out: seq<byte>, ps: Params): seq<(int, int)> {
    if |ps.done| == 1 && Blank(out, ps.done[0].0, ps.done[0].1) then [] else ps.done
  }

  predicate Blank(out: seq<byte>, from: int, to: int) {
    forall i :: 0 <= i < |out| && from <= i <= to ==> IsSpace(out[i])
  }

  /** `query_statement + from`, up to and including `to`. */
  function Piece(out: seq<byte>, from: int, to: int): seq<byte> {
    if 0 <= from <= to < |out| then out[from..to + 1] else []
  }

  /** The substitution of `$i` and `$*`. */
  function Expand(out: seq<byte>, params: seq<(int, int)>, consumed: nat, expr: seq<byte>): Option<seq<byte>> {
    if expr == [] then Some([])
    else if expr[0] != DOLLAR then Prepended([expr[0]], Expand(out, params, consumed, expr[1..]))
    else if |expr| >= 2 && expr[1] == STAR then
      Prepended(Piece(out, 1, consumed - 2), Expand(out, params, consumed, expr[2..]))
    else if |expr| >= 2 && IsDigit(expr[1]) && 0 <= expr[1] as int - 49 < |params| then
      var p := params[expr[1] as int - 49];
      Prepended(Piece(out, p.0, p.1), Expand(out, params, consumed, expr[2..]))
    else None
  }

  function Prepended(a: seq<byte>, r: Option<seq<byte>>): Option<seq<byte>> { if r.None? then None else Some(a + r.value) }

  const SQL_BIT: int := -7
  const SQL_INTEGER: int := 4

  function CastForm(type_: seq<byte>): seq<byte> {
    if |type_| >= 10 then []
    else if Atoi(type_) == SQL_BIT then Bytes("::boolean")
    else if Atoi(type_) == SQL_INTEGER then Bytes("::int4")
    else []
  }

  /** CONVERT(value, type): literals are quoted or kept, other values are cast. */
  function Converted(out: seq<byte>, params: seq<(int, int)>): Option<seq<byte>> {
    if |params| != 2 then None
    else
      var value, type_ := Piece(out, params[0].0, params[0].1), Piece(out, params[1].0, params[1].1);
      var rest := if 0 <= params[0].0 <= |out| then out[params[0].0..] else [];
      var first := At(rest, SkipSpace(rest, 0));
      Some(if first == QUOTE then value
           else if first == MINUS || IsDigit(first) then [QUOTE] + value + [QUOTE]
           else [LPAREN] + value + [RPAREN] + CastForm(type_))
  }

  predicate IsConvert(name: seq<byte>) { LowerAll(name) == Bytes("convert") }

  function MapName(name: seq<byte>, count: nat): Option<seq<byte>> { MapFunction(MAP_FUNCS, name, count) }

  datatype Called = Text(text: seq<byte>) | Failed(why: Failure)

  function OrFail(text: Option<seq<byte>>, why: Failure): Called {
    if text.None? then Failed(why) else Text(text.value)
  }

  /** What a function call becomes. */
  function CallText(name: seq<byte>, nqb: QB, ps: Params): (r: Called)
    ensures r.Failed? ==> r.why in {ConvertCount, BadExpression}
  {
    var params := ParamList(nqb.out, ps);
    if IsConvert(name) then OrFail(Converted(nqb.out, params), ConvertCount)
    else
      var expr := MapName(name, |params|);
      if expr.None? then Text(name + nqb.out) else OrFail(Expand(nqb.out, params, ps.consumed, expr.value), BadExpression)
  }

  // ---------------------------------------------------------------- the recursion

  /** `inner_process_tokens` */
  function Step(env: Env, qp: QP, qb: QB): (r: Res)
    requires qp.opos < |env.stmt|
    ensures r.Ok? ==> r.qp.opos >= qp.opos
    decreases |env.stmt| - qp.opos, 3
  {
    if AtEscape(env, qp) then ConvertEscape(env, LeaveIdent(Read(env, qp)), qb)
    else PlainMoves(env, qp, qb); Plain(env, qp, qb)
  }

  lemma PlainMoves(env: Env, qp: QP, qb: QB)
    requires qp.opos < |env.stmt|
    ensures Plain(env, qp, qb).Ok? ==> Plain(env, qp, qb).qp.opos >= qp.opos
  {
  }

  /** The loop of `processParameters`, from `qp.opos` on. */
  function ParamLoop(env: Env, qp: QP, nqb: QB, ps: Params): (r: ParamRes)
    ensures r.ParamOk? ==> r.qp.opos >= qp.opos
    decreases if qp.opos < |env.stmt| then |env.stmt| - qp.opos else 0, 4
  {
    if qp.opos >= |env.stmt| then ParamOk(qp, nqb, ps)
    else
      match Step(env, qp, nqb)
      case Err(why) => ParamErr(why)
      case Ok(q, b) =>
        var c := At(env.stmt, if q.opos <= |env.stmt| then q.opos else |env.stmt|);
        if NonAsciiRead(q) || !q.inStatus.Idle() then ParamLoop(env, q.(opos := q.opos + 1), b, ps)
        else if c == RBRACE && ps.depth == 0 then ParamOk(q, b, ps)
        else ParamLoop(env, q.(opos := q.opos + 1), b, Delimit(ps, c, |b.out|))
  }

  /** `processParameters` */
  function ProcessParameters(env: Env, qp: QP, nqb: QB): (r: ParamRes)
    requires qp.opos < |env.stmt|
    ensures r.ParamOk? ==> r.qp.opos >= qp.opos
    decreases |env.stmt| - qp.opos, 5
  {
    var r := ParamLoop(env, qp, nqb, NO_PARAMS);
    if r.ParamOk? && r.ps.open.Some? then ParamErr(ParenNotFound) else r
  }

  /** `convert_escape`, standing at the opening brace. */
  function ConvertEscape(env: Env, qp: QP, qb: QB): (r: Res)
    requires qp.opos < |env.stmt|
    ensures r.Ok? ==> r.qp.opos >= qp.opos
    decreases |env.stmt| - qp.opos, 2
  {
    var s := env.stmt;
    var p := SkipSpace(s, qp.opos + 1);
    if At(s, p) == QUESTION then
      var called := qb.(paramNumber := Wrap16(qb.paramNumber + 1), procReturn := 1);
      var e := SkipSpace(s, p + 1);
      if At(s, e) != EQUALS then Ok(qp.(opos := e - 1), called)
      else ConvertKey(env, qp, called, SkipSpace(s, e + 1))
    else ConvertKey(env, qp, qb, p)
  }

  /** The key word at `p` and what follows it. */
  function ConvertKey(env: Env, qp: QP, qb: QB, p: nat): (r: Res)
    requires qp.opos < p <= |env.stmt|
    ensures r.Ok? ==> r.qp.opos >= qp.opos
    decreases |env.stmt| - qp.opos, 1
  {
    var s := env.stmt;
    var end := SkipWord(s, p, false);
    var word := Prefix(s[p..end], 32);
    var at := SkipSpace(s, end);
    match KeyOf(LowerAll(word))
    case CallKey => Call(env, qp, qb, at)
    case DateKey => TypedLiteral(env, qp, qb, at, [], Bytes("::date"))
    case TimeKey => TypedLiteral(env, qp, qb, at, [], Bytes("::time"))
    case TimestampKey => TypedLiteral(env, qp, qb, at, [], Bytes("::timestamp"))
    case OuterJoinKey => Ok(qp.(opos := at - 1), StartBrace(qb))
    case EscapeKey => TypedLiteral(env, qp, qb, at, word + [SPACE], [])
    case FunctionKey => FunctionCall(env, qp, qb, at)
    case UnknownKey => Err(BadEscape)
  }

  function Begun(env: Env, qb: QB): QB {
    Put(StartBrace(qb), if env.manyParams || qb.procReturn == 0 then Bytes("SELECT * FROM ") else Bytes("SELECT "))
  }

  /** `{call name}` gets empty parentheses; other calls go on in the loop. */
  function Call(env: Env, qp: QP, qb: QB, at: nat): (r: Res)
    requires qp.opos + 1 < at <= |env.stmt|
    ensures r.Ok? ==> r.qp.opos >= qp.opos
  {
    var begun := Begun(env, qb);
    var rest := env.stmt[at..];
    var f := FindIdentifier(env.ccsc, rest);
    var next := FirstNonSpace(rest, f.stop);
    if next.Some? && rest[next.value] == RBRACE && f.slen >= 0
    then Ok(qp.(opos := at + next.value), EndBrace(Put(begun, rest[..f.slen] + [LPAREN, RPAREN])))
    else Ok(qp.(opos := at - 1), begun)
  }

  /** A literal up to the closing brace, with a cast or a key word. */
  function TypedLiteral(env: Env, qp: QP, qb: QB, at: nat, before: seq<byte>, after: seq<byte>): (r: Res)
    requires qp.opos < at <= |env.stmt|
    ensures r.Ok? ==> r.qp.opos >= qp.opos
  {
    var end := ExtractEnd(env.stmt, at, 128);
    if end == |env.stmt| then Err(BadEscape)
    else Ok(qp.(opos := end), Put(qb, before + env.stmt[at..end] + after + Separator(env, end)))
  }

  /** `QB_append_space_to_separate_identifiers` */
  function Separator(env: Env, at: nat): seq<byte>
    requires at < |env.stmt|
  {
    if env.stmt[at] != RBRACE then []
    else
      var c := At(env.stmt, at + 1);
      if Stat(env.ccsc, 0, c) != 0 || c >= 0x80 || IdentifierByte(c) then [SPACE] else []
  }

  /** `{fn name(...)}`; a name without parentheses stands for itself. */
  function FunctionCall(env: Env, qp: QP, qb: QB, at: nat): (r: Res)
    requires qp.opos < at <= |env.stmt|
    ensures r.Ok? ==> r.qp.opos >= qp.opos
    decreases |env.stmt| - qp.opos, 0
  {
    var s := env.stmt;
    var end := SkipWord(s, at, true);
    var name := Prefix(s[at..end], 64);
    var p := SkipSpace(s, end);
    if At(s, p) != LPAREN then Ok(qp.(opos := p), Put(qb, name))
    else
      match ProcessParameters(env, qp.(opos := p), qb.(out := []))
      case ParamErr(why) => Err(why)
      case ParamOk(q, nqb, ps) =>
        match CallText(name, nqb, ps)
        case Failed(why) => Err(why)
        case Text(text) => Ok(q, Put(qb, text).(paramNumber := nqb.paramNumber))
  }

  /** The loop over a whole statement. */
  function Process(env: Env, qp: QP, qb: QB): Res
    decreases if qp.opos < |env.stmt| then |env.stmt| - qp.opos else 0
  {
    if qp.opos >= |env.stmt| then Ok(qp, qb)
    else
      match Step(env, qp, qb)
      case Err(why) => Err(why)
      case Ok(q, b) => Process(env, q.(opos := q.opos + 1), b)
  }

  // ---------------------------------------------------------------- modes over whole runs

  /** The lexer is in order and does not complain that it is not idle. */
  predicate InOrder(env: Env, r: Res) { if r.Ok? then ModesOk(env, r.qp) else r.why != NotIdle }

  predicate ParamsInOrder(env: Env, r: ParamRes) { if r.ParamOk? then ModesOk(env, r.qp) else r.why != NotIdle }

  lemma {:induction false} StepInOrder(env: Env, qp: QP, qb: QB)
    requires qp.opos < |env.stmt| && ModesOk(env, qp)
    ensures InOrder(env, Step(env, qp, qb))
    decreases |env.stmt| - qp.opos, 3
  {
    if AtEscape(env, qp) {
      EscapeInOrder(env, LeaveIdent(Read(env, qp)), qb);
    } else {
      PlainKeepsModes(env, qp, qb);
    }
  }

  lemma {:induction false} ParamLoopInOrder(env: Env, qp: QP, nqb: QB, ps: Params)
    requires ModesOk(env, qp)
    ensures ParamsInOrder(env, ParamLoop(env, qp, nqb, ps))
    decreases if qp.opos < |env.stmt| then |env.stmt| - qp.opos else 0, 4
  {
    hide Step, Delimit;
    if qp.opos < |env.stmt| {
      StepInOrder(env, qp, nqb);
      var r := Step(env, qp, nqb);
      if r.Ok? {
        var q := r.qp.(opos := r.qp.opos + 1);
        var c := At(env.stmt, if r.qp.opos <= |env.stmt| then r.qp.opos else |env.stmt|);
        ParamLoopInOrder(env, q, r.qb, ps);
        ParamLoopInOrder(env, q, r.qb, Delimit(ps, c, |r.qb.out|));
      }
    }
  }

  lemma {:induction false} EscapeInOrder(env: Env, qp: QP, qb: QB)
    requires qp.opos < |env.stmt| && ModesOk(env, qp)
    ensures InOrder(env, ConvertEscape(env, qp, qb))
    decreases |env.stmt| - qp.opos, 2
  {
    hide ConvertKey, ModesOk;
    var s := env.stmt;
    var p := SkipSpace(s, qp.opos + 1);
    if At(s, p) == QUESTION {
      var called := qb.(paramNumber := Wrap16(qb.paramNumber + 1), procReturn := 1);
      var e := SkipSpace(s, p + 1);
      if At(s, e) == EQUALS {
        KeyInOrder(env, qp, called, SkipSpace(s, e + 1));
      } else {
        MovedInOrder(env, qp, e - 1);
      }
    } else {
      KeyInOrder(env, qp, qb, p);
    }
  }

  lemma MovedInOrder(env: Env, qp: QP, opos: nat)
    requires ModesOk(env, qp)
    ensures ModesOk(env, qp.(opos := opos))
  {
  }

  lemma {:induction false} KeyInOrder(env: Env, qp: QP, qb: QB, p: nat)
    requires qp.opos < p <= |env.stmt| && ModesOk(env, qp)
    ensures InOrder(env, ConvertKey(env, qp, qb, p))
    decreases |env.stmt| - qp.opos, 1
  {
    hide *;
    var at := SkipSpace(env.stmt, SkipWord(env.stmt, p, false));
    KeyCases(env, qp, qb, p);
    FunctionInOrder(env, qp, qb, at);
    ResultInOrder(env, qp, ConvertKey(env, qp, qb, p));
  }

  /** Only a function call runs the lexer; the other escapes move on and leave the modes alone. */
  lemma KeyCases(env: Env, qp: QP, qb: QB, p: nat)
    requires qp.opos < p <= |env.stmt|
    ensures var at := SkipSpace(env.stmt, SkipWord(env.stmt, p, false));
            var r := ConvertKey(env, qp, qb, p);
            || (qp.opos < at && r == FunctionCall(env, qp, qb, at))
            || r == Err(BadEscape)
            || (r.Ok? && r.qp == qp.(opos := r.qp.opos))
    ensures qp.opos < SkipSpace(env.stmt, SkipWord(env.stmt, p, false)) <= |env.stmt|
  {
    hide FunctionCall, SkipWord, SkipSpace, LowerAll, Prefix, Bytes, StartBrace, KeyOf, EndBrace, FindIdentifier,
      FirstNonSpace, Separator, ExtractEnd, Begun;
  }

  lemma ResultInOrder(env: Env, qp: QP, r: Res)
    requires ModesOk(env, qp)
    ensures r == Err(BadEscape) || (r.Ok? && r.qp == qp.(opos := r.qp.opos)) ==> InOrder(env, r)
  {
  }

  lemma {:induction false} FunctionInOrder(env: Env, qp: QP, qb: QB, at: nat)
    requires qp.opos < at <= |env.stmt| && ModesOk(env, qp)
    ensures InOrder(env, FunctionCall(env, qp, qb, at))
    decreases |env.stmt| - qp.opos, 0
  {
    hide ParamLoop, CallText, SkipWord;
    var s := env.stmt;
    var p := SkipSpace(s, SkipWord(s, at, true));
    if At(s, p) == LPAREN {
      ParamLoopInOrder(env, qp.(opos := p), qb.(out := []), NO_PARAMS);
    }
  }

  /** Every state at which the loop over a statement stands is in order. */
  ghost predicate AlwaysInOrder(env: Env, qp: QP, qb: QB)
    decreases if qp.opos < |env.stmt| then |env.stmt| - qp.opos else 0
  {
    && ModesOk(env, qp)
    && (qp.opos < |env.stmt| ==>
          var r := Step(env, qp, qb);
          if r.Ok? then AlwaysInOrder(env, r.qp.(opos := r.qp.opos + 1), r.qb) else r.why != NotIdle)
  }

  /** Over a whole statement, whatever it contains: the modes are in order in every state the loop
      reaches, and the "not idle" error never occurs. */
  lemma {:induction false} ProcessInOrder(env: Env, qp: QP, qb: QB)
    requires ModesOk(env, qp)
    ensures AlwaysInOrder(env, qp, qb) && InOrder(env, Process(env, qp, qb))
    decreases if qp.opos < |env.stmt| then |env.stmt| - qp.opos else 0
  {
    hide Step, ModesOk;
    if qp.opos < |env.stmt| {
      StepInOrder(env, qp, qb);
      var r := Step(env, qp, qb);
      if r.Ok? {
        MovedInOrder(env, r.qp, r.qp.opos + 1);
        ProcessInOrder(env, r.qp.(opos := r.qp.opos + 1), r.qb);
      }
    }
  }

  /** The loop starts in order. */
  lemma StatementInOrder(env: Env, procReturn: int)
    ensures AlwaysInOrder(env, Start(env), Fresh(procReturn))
    ensures Process(env, Start(env), Fresh(procReturn)) != Err(NotIdle)
  {
    ProcessInOrder(env, Start(env), Fresh(procReturn));
  }
}
