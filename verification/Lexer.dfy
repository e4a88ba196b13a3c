/**
 The statement lexer, one byte at a time (`inner_process_tokens`), without ODBC escapes: modes of
 `QueryParse`, output and counters of `QueryBuild`, parameter markers in prepare mode.
 */
module Lexer {
  import opened CBytes
  import opened Multibyte
  import opened QuotedNames

  /** What stays fixed during a scan. `before` is the byte read as statement[-1], `escape` is
      CC_get_escape, `lfConv` FLGB_CONVERT_LF and `manyParams` says num_io_params > 1. */
  datatype Env = Env(stmt: seq<byte>, before: byte, ccsc: Encoding, escape: byte, lfConv: bool, manyParams: bool)

  /** The bits of in_status. */
  datatype Status = Status(ident: bool, dquote: bool, literal: bool, escape: bool,
                           dollarQuote: bool, commentBlock: bool, lineComment: bool)
  {
    predicate Idle() { this == IDLE }
  }

  const IDLE := Status(false, false, false, false, false, false, false)

  /** QueryParse; `ccst` and `last` are the state of its encoded_str and the byte it read last. */
  datatype QP = QP(opos: nat, inStatus: Status, escapeInLiteral: byte, dollarTag: Option<nat>, taglen: int,
                   commentLevel: nat, ccst: nat, last: byte)

  /** QueryBuild; `out` is query_statement up to npos. */
  datatype QB = QB(out: seq<byte>, paramNumber: int, dollarNumber: int, procReturn: int, braceLevel: int,
                   parenthesizeTheFirst: bool)

  datatype Failure = NotIdle | BadEscape | ParenNotFound | BadExpression | ConvertCount

  datatype Res = Err(why: Failure) | Ok(qp: QP, qb: QB)

  function Start(env: Env): QP { QP(0, IDLE, NUL, None, -1, 0, 0, NUL) }

  function Fresh(procReturn: int): QB { QB([], -1, 0, procReturn, 0, false) }

  function Put(qb: QB, s: seq<byte>): QB { qb.(out := qb.out + s) }

  /** Int2 counters. */
  function Wrap16(n: int): int { if n > 32767 then n - 65536 else n }

  /** `%d` */
  function Decimal(n: int): seq<byte> { Printed(n, 1) }

  /** `ResolveOneParam` in prepare mode, without parameter descriptors and casts. */
  function Marker(qb: QB): QB {
    var number := Wrap16(qb.paramNumber + 1);
    if number < qb.procReturn then qb.(paramNumber := number)
    else
      var k := Wrap16(qb.dollarNumber + 1);
      qb.(paramNumber := number, dollarNumber := k, out := qb.out + [DOLLAR] + Decimal(k))
  }

  /** Position of the dollar that ends a tag; `s` follows the first one. */
  function TagEnd(enc: Encoding, stat: nat, s: seq<byte>): (n: Option<nat>)
    ensures n.Some? ==> n.value < |s| && s[n.value] == DOLLAR
    decreases |s|
  {
    if s == [] || s[0] == NUL then None
    else
      var st := Stat(enc, stat, s[0]);
      if st != 0 || s[0] >= 0x80 then More(1, TagEnd(enc, st, s[1..]))
      else if s[0] == DOLLAR then Some(0)
      else if IsAlnum(s[0]) then More(1, TagEnd(enc, st, s[1..]))
      else None
  }

  /** `findTag`: 0 when there is no tag. */
  function FindTag(enc: Encoding, s: seq<byte>): (n: nat)
    requires s != []
    ensures n <= |s| && n != 1
  {
    var end := TagEnd(enc, 0, s[1..]);
    if end.None? then 0 else end.value + 2
  }

  /** The byte after the current one. */
  function Peek(env: Env, qp: QP): byte
    requires qp.opos < |env.stmt|
  {
    At(env.stmt, qp.opos + 1)
  }

  function Previous(env: Env, qp: QP): byte
    requires qp.opos < |env.stmt|
  {
    if qp.opos == 0 then env.before else env.stmt[qp.opos - 1]
  }

  /** `encoded_byte_check` */
  function Read(env: Env, qp: QP): QP
    requires qp.opos < |env.stmt|
  {
    var c := env.stmt[qp.opos];
    qp.(ccst := Stat(env.ccsc, qp.ccst, c), last := c)
  }

  predicate NonAsciiRead(qp: QP) { qp.ccst != 0 || qp.last >= 0x80 }

  predicate TagHere(env: Env, qp: QP)
  {
    && qp.dollarTag.Some? && qp.taglen > 0
    && qp.opos + qp.taglen <= |env.stmt| && qp.dollarTag.value + qp.taglen <= |env.stmt|
    && env.stmt[qp.opos..qp.opos + qp.taglen] == env.stmt[qp.dollarTag.value..qp.dollarTag.value + qp.taglen]
  }

  function InDollarQuote(env: Env, qp: QP, qb: QB): Res
    requires qp.opos < |env.stmt|
  {
    if qp.last == DOLLAR && TagHere(env, qp) then
      Ok(qp.(opos := qp.opos + qp.taglen - 1, inStatus := qp.inStatus.(dollarQuote := false), dollarTag := None, taglen := -1),
         Put(qb, env.stmt[qp.opos..qp.opos + qp.taglen]))
    else Ok(qp, Put(qb, [qp.last]))
  }

  function InLiteral(env: Env, qp: QP, qb: QB): Res {
    var st := qp.inStatus;
    Ok(if qp.last == QUOTE then qp.(inStatus := st.(literal := false))
       else if qp.last == qp.escapeInLiteral then qp.(inStatus := st.(escape := true))
       else qp,
       Put(qb, [qp.last]))
  }

  function InCommentBlock(env: Env, qp: QP, qb: QB): Res
    requires qp.opos < |env.stmt|
  {
    var next := Peek(env, qp);
    if qp.last == SLASH && next == STAR then
      Ok(qp.(opos := qp.opos + 1, commentLevel := qp.commentLevel + 1), Put(qb, [SLASH, STAR]))
    else if qp.last == STAR && next == SLASH then
      var level := if qp.commentLevel > 0 then qp.commentLevel - 1 else 0xffff_ffff;
      Ok(qp.(opos := qp.opos + 1, commentLevel := level,
             inStatus := if level == 0 then qp.inStatus.(commentBlock := false) else qp.inStatus),
         Put(qb, [STAR, SLASH]))
    else Ok(qp, Put(qb, [qp.last]))
  }

  /** `QB_end_brace` */
  function EndBrace(qb: QB): QB {
    var q := if qb.braceLevel <= 1 && !qb.parenthesizeTheFirst then qb else Put(qb, [RPAREN]);
    q.(braceLevel := qb.braceLevel - 1)
  }

  /** `QB_start_brace` */
  function StartBrace(qb: QB): QB {
    var first := if qb.braceLevel == 0 then qb.out != [] else qb.parenthesizeTheFirst;
    var q := if qb.braceLevel == 0 && qb.out == [] then qb else Put(qb, [LPAREN]);
    q.(braceLevel := qb.braceLevel + 1, parenthesizeTheFirst := first)
  }

  predicate Squeezed(env: Env, qp: QP)
    requires qp.opos < |env.stmt|
  {
    env.lfConv && qp.last == CARRIAGE_RETURN && Peek(env, qp) == LINEFEED
  }

  /** A byte outside of everything, other than an opening brace. */
  function AtIdle(env: Env, qp: QP, qb: QB): Res
    requires qp.opos < |env.stmt|
  {
    var c, st, next := qp.last, qp.inStatus, Peek(env, qp);
    if Squeezed(env, qp) then Ok(qp, qb)
    else if c == RBRACE then Ok(qp, EndBrace(qb))
    else if c == QUESTION then Ok(qp, Marker(qb))
    else if c == DOLLAR then OpenDollar(env, qp, qb)
    else if c == QUOTE then
      var esc := if env.escape != NUL then env.escape else if Previous(env, qp) == LITERAL_EXT then BACKSLASH else NUL;
      Ok(qp.(inStatus := st.(literal := true), escapeInLiteral := esc), Put(qb, [c]))
    else if c == DQUOTE then Ok(qp.(inStatus := st.(dquote := true)), Put(qb, [c]))
    else if c == SLASH && next == STAR then
      Ok(qp.(inStatus := st.(commentBlock := true), commentLevel := qp.commentLevel + 1), Put(qb, [c]))
    else if c == MINUS && next == MINUS then Ok(qp.(inStatus := st.(lineComment := true)), Put(qb, [c]))
    else if c == SEMICOLON then Ok(qp, Put(qb.(dollarNumber := 0), [c]))
    else if IsAlnum(c) then Ok(qp.(inStatus := st.(ident := true)), Put(qb, [c]))
    else Ok(qp, Put(qb, [c]))
  }

  function OpenDollar(env: Env, qp: QP, qb: QB): Res
    requires qp.opos < |env.stmt|
  {
    var n := FindTag(env.ccsc, env.stmt[qp.opos..]);
    if n == 0 then Ok(qp.(taglen := 0), Put(qb, [qp.last]))
    else
      Ok(qp.(opos := qp.opos + n - 1, inStatus := qp.inStatus.(dollarQuote := true), dollarTag := Some(qp.opos), taglen := n),
         Put(qb, env.stmt[qp.opos..qp.opos + n]))
  }

  /** A one-byte character that does not continue an identifier. */
  function Inside(env: Env, qp: QP, qb: QB): Res
    requires qp.opos < |env.stmt|
  {
    var st := qp.inStatus;
    if st.escape then Ok(qp.(inStatus := st.(escape := false)), Put(qb, [qp.last]))
    else if st.dollarQuote then InDollarQuote(env, qp, qb)
    else if st.literal then InLiteral(env, qp, qb)
    else if st.dquote then
      Ok(if qp.last == DQUOTE then qp.(inStatus := st.(dquote := false)) else qp, Put(qb, [qp.last]))
    else if st.commentBlock then InCommentBlock(env, qp, qb)
    else if st.lineComment then
      Ok(if qp.last == LINEFEED then qp.(inStatus := st.(lineComment := false)) else qp, Put(qb, [qp.last]))
    else if !st.Idle() then Err(NotIdle)
    else AtIdle(env, qp, qb)
  }

  function LeaveIdent(qp: QP): QP { qp.(inStatus := qp.inStatus.(ident := false)) }

  /** The byte at opos, unless it opens an ODBC escape. */
  function Plain(env: Env, qp0: QP, qb: QB): Res
    requires qp0.opos < |env.stmt|
  {
    var qp := Read(env, qp0);
    if NonAsciiRead(qp) then
      Ok(if qp.inStatus.Idle() then qp.(inStatus := qp.inStatus.(ident := true)) else qp, Put(qb, [qp.last]))
    else if qp.inStatus.ident && IdentifierByte(qp.last) then Ok(qp, Put(qb, [qp.last]))
    else Inside(env, LeaveIdent(qp), qb)
  }

  /** The byte at opos opens an ODBC escape. */
  predicate AtEscape(env: Env, qp0: QP)
    requires qp0.opos < |env.stmt|
  {
    var qp := Read(env, qp0);
    !NonAsciiRead(qp) && qp.last == LBRACE && LeaveIdent(qp).inStatus.Idle()
  }

  // ---------------------------------------------------------------- modes

  /** At most one mode at a time, except an escape within a literal; the comment level and the dollar
      tag go with their modes. */
  predicate ModesOk(env: Env, qp: QP) {
    var st := qp.inStatus;
    && (st.ident ==> st == IDLE.(ident := true))
    && (st.dquote ==> st == IDLE.(dquote := true))
    && (st.literal ==> st.(escape := false) == IDLE.(literal := true))
    && (st.escape ==> st.literal)
    && (st.dollarQuote ==> st == IDLE.(dollarQuote := true))
    && (st.commentBlock ==> st == IDLE.(commentBlock := true))
    && (st.lineComment ==> st == IDLE.(lineComment := true))
    && (st.commentBlock <==> qp.commentLevel > 0)
    && (st.dollarQuote <==> qp.dollarTag.Some?)
    && (st.dollarQuote ==> qp.taglen >= 2 && qp.dollarTag.value + qp.taglen <= |env.stmt|)
  }

  /** One byte keeps the modes in order, moves on inside the statement and never fails. */
  lemma PlainKeepsModes(env: Env, qp: QP, qb: QB)
    requires qp.opos < |env.stmt| && ModesOk(env, qp)
    ensures var r := Plain(env, qp, qb);
            r.Ok? && ModesOk(env, r.qp) && qp.opos <= r.qp.opos < |env.stmt| && qb.out <= r.qb.out
  {
    hide TagEnd, Stat, Decimal, FindTag, Marker, EndBrace, TagHere, Squeezed, Previous, IdentifierByte;
    OutputGrows(qb);
    if TagHere(env, Read(env, qp)) {
      TagFits(env, Read(env, qp));
    }
  }

  lemma OutputGrows(qb: QB)
    ensures qb.out <= Marker(qb).out && qb.out <= EndBrace(qb).out
  {
    hide Decimal;
  }

  lemma TagFits(env: Env, qp: QP)
    requires TagHere(env, qp)
    ensures qp.opos + qp.taglen <= |env.stmt| && qp.taglen > 0
  {
  }
}
