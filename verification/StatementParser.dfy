/**
 `QueryParse` and `QueryBuild` as the objects they are: `inner_process_tokens`, `convert_escape` and
 `processParameters` update them in place, as the functions of the lexer say.
 */
module StatementParser {
  import opened CBytes
  import opened Multibyte
  import opened QueryBuffer
  import opened QuotedNames
  import opened Lexer
  import opened Escapes

  // ---------------------------------------------------------------- objects

  class QueryParse {
    const statement: seq<byte>
    const encstr: EncodedStr
    var opos: nat
    var inStatus: Status
    var escapeInLiteral: byte
    var dollarTag: Option<nat>
    var taglen: int
    var commentLevel: nat

    ghost predicate For(env: Env)
      reads this, encstr
    {
      && statement == env.stmt == encstr.encstr && encstr.ccsc == env.ccsc && NulFree(statement)
      && encstr.Valid()
    }

    ghost function State(): QP
      reads this, encstr
      requires encstr.Valid() && encstr.encstr == statement
    {
      QP(opos, inStatus, escapeInLiteral, dollarTag, taglen, commentLevel, encstr.ccst,
         if encstr.pos < 0 then NUL else At(statement, encstr.pos))
    }

    /** `QP_initialize` */
    constructor (env: Env)
      requires NulFree(env.stmt)
      ensures For(env) && State() == Start(env) && fresh(encstr)
    {
      statement := env.stmt;
      encstr := new EncodedStr(env.ccsc, env.stmt);
      opos, inStatus, escapeInLiteral, dollarTag, taglen, commentLevel := 0, IDLE, NUL, None, -1, 0;
    }

    /** `F_OldChar` */
    function OldChar(): byte
      reads this
    {
      if opos < |statement| then statement[opos] else NUL
    }

    /** The byte after the current one. */
    function NextChar(): byte
      reads this
    {
      if opos + 1 < |statement| then statement[opos + 1] else NUL
    }
  }

  class QueryBuild {
    const buffer: Buffer
    var paramNumber: int
    var dollarNumber: int
    var procReturn: int
    var braceLevel: int
    var parenthesizeTheFirst: bool

    ghost predicate Valid()
      reads this, buffer
    {
      buffer.Valid()
    }

    ghost function State(): QB
      reads this, buffer, buffer.query_statement
      requires Valid()
    {
      QB(buffer.Contents(), paramNumber, dollarNumber, procReturn, braceLevel, parenthesizeTheFirst)
    }

    /** `QB_initialize` */
    constructor (procReturn: int)
      ensures Valid() && State() == Fresh(procReturn) && fresh(buffer) && fresh(buffer.query_statement)
    {
      buffer := new Buffer(INIT_MIN_ALLOC);
      paramNumber, dollarNumber, braceLevel, parenthesizeTheFirst := -1, 0, 0, false;
      this.procReturn := procReturn;
    }

    /** `QB_initialize_copy` */
    constructor Copy(from: QueryBuild)
      requires from.Valid()
      ensures Valid() && State() == from.State().(out := []) && fresh(buffer) && fresh(buffer.query_statement)
    {
      buffer := new Buffer(1024);
      paramNumber, dollarNumber, procReturn := from.paramNumber, from.dollarNumber, from.procReturn;
      braceLevel, parenthesizeTheFirst := from.braceLevel, from.parenthesizeTheFirst;
    }

    method Append(s: seq<byte>)
      requires Valid()
      modifies buffer, buffer.query_statement
      ensures Valid() && State() == Put(old(State()), s)
      ensures buffer.query_statement == old(buffer.query_statement) || fresh(buffer.query_statement)
    {
      buffer.AppendData(s);
    }

    method AppendByte(c: byte)
      requires Valid()
      modifies buffer, buffer.query_statement
      ensures Valid() && State() == Put(old(State()), [c])
      ensures buffer.query_statement == old(buffer.query_statement) || fresh(buffer.query_statement)
    {
      buffer.AppendChar(c);
    }

    /** `ResolveOneParam` in prepare mode. */
    method ResolveOneParam()
      requires Valid()
      modifies this, buffer, buffer.query_statement
      ensures Valid() && State() == Marker(old(State()))
      ensures buffer.query_statement == old(buffer.query_statement) || fresh(buffer.query_statement)
    {
      ghost var before := buffer.Contents();
      paramNumber := Wrap16(paramNumber + 1);
      if paramNumber < procReturn {
        return;
      }
      dollarNumber := Wrap16(dollarNumber + 1);
      Append([DOLLAR] + Decimal(dollarNumber));
      assert before + ([DOLLAR] + Decimal(dollarNumber)) == before + [DOLLAR] + Decimal(dollarNumber);
    }

    /** `QB_start_brace` */
    method BeginBrace()
      requires Valid()
      modifies this, buffer, buffer.query_statement
      ensures Valid() && State() == StartBrace(old(State()))
      ensures buffer.query_statement == old(buffer.query_statement) || fresh(buffer.query_statement)
    {
      var replaceByParenthesis := true;
      if braceLevel == 0 {
        if buffer.npos == 0 {
          parenthesizeTheFirst, replaceByParenthesis := false, false;
        } else {
          parenthesizeTheFirst := true;
        }
      }
      if replaceByParenthesis {
        AppendByte(LPAREN);
      }
      braceLevel := braceLevel + 1;
    }

    /** `QB_end_brace` */
    method FinishBrace()
      requires Valid()
      modifies this, buffer, buffer.query_statement
      ensures Valid() && State() == EndBrace(old(State()))
      ensures buffer.query_statement == old(buffer.query_statement) || fresh(buffer.query_statement)
    {
      if braceLevel > 1 || parenthesizeTheFirst {
        AppendByte(RPAREN);
      }
      braceLevel := braceLevel - 1;
    }
  }

  // ---------------------------------------------------------------- one byte

  /** The result of a step that cannot fail. */
  ghost predicate Agrees(r: Res, qp: QueryParse, qb: QueryBuild)
    reads qp, qp.encstr, qb, qb.buffer, qb.buffer.query_statement
    requires qp.encstr.Valid() && qp.encstr.encstr == qp.statement && qb.Valid()
  {
    r == Ok(qp.State(), qb.State())
  }

  method DollarQuoteByte(env: Env, qp: QueryParse, qb: QueryBuild, oldchar: byte)
    requires qp.For(env) && qb.Valid() && qp.opos < |env.stmt| && oldchar == qp.State().last
    modifies qp, qb.buffer, qb.buffer.query_statement
    ensures qp.For(env) && qb.Valid() && Agrees(old(InDollarQuote(env, qp.State(), qb.State())), qp, qb)
    ensures qb.buffer.query_statement == old(qb.buffer.query_statement) || fresh(qb.buffer.query_statement)
  {
    if oldchar == DOLLAR && qp.dollarTag.Some? && qp.taglen > 0 {
      var tag, n := qp.dollarTag.value, qp.taglen;
      if qp.opos + n <= |qp.statement| && tag + n <= |qp.statement|
         && qp.statement[qp.opos..qp.opos + n] == qp.statement[tag..tag + n] {
        qb.Append(qp.statement[qp.opos..qp.opos + n]);
        qp.opos := qp.opos + n - 1;
        qp.inStatus := qp.inStatus.(dollarQuote := false);
        qp.dollarTag, qp.taglen := None, -1;
        return;
      }
    }
    qb.AppendByte(oldchar);
  }

  method CommentByte(env: Env, qp: QueryParse, qb: QueryBuild, oldchar: byte)
    requires qp.For(env) && qb.Valid() && qp.opos < |env.stmt| && oldchar == qp.State().last
    modifies qp, qb.buffer, qb.buffer.query_statement
    ensures qp.For(env) && qb.Valid() && Agrees(old(InCommentBlock(env, qp.State(), qb.State())), qp, qb)
    ensures qb.buffer.query_statement == old(qb.buffer.query_statement) || fresh(qb.buffer.query_statement)
  {
    if oldchar == SLASH && qp.NextChar() == STAR {
      qp.commentLevel := qp.commentLevel + 1;
      qb.Append([oldchar, STAR]);
      qp.opos := qp.opos + 1;
    } else if oldchar == STAR && qp.NextChar() == SLASH {
      qp.commentLevel := if qp.commentLevel > 0 then qp.commentLevel - 1 else 0xffff_ffff;
      if qp.commentLevel == 0 {
        qp.inStatus := qp.inStatus.(commentBlock := false);
      }
      qb.Append([oldchar, SLASH]);
      qp.opos := qp.opos + 1;
    } else {
      qb.AppendByte(oldchar);
    }
  }

  /** Inside of a literal, a quoted identifier or a line comment. */
  method QuotedByte(env: Env, qp: QueryParse, qb: QueryBuild, oldchar: byte)
    requires qp.For(env) && qb.Valid() && qp.opos < |env.stmt| && oldchar == qp.State().last
    requires var st := qp.inStatus;
             st.escape || (!st.dollarQuote && (st.literal || st.dquote || (!st.commentBlock && st.lineComment)))
    modifies qp, qb.buffer, qb.buffer.query_statement
    ensures qp.For(env) && qb.Valid() && Agrees(old(Inside(env, qp.State(), qb.State())), qp, qb)
    ensures qb.buffer.query_statement == old(qb.buffer.query_statement) || fresh(qb.buffer.query_statement)
  {
    if qp.inStatus.escape {
      qp.inStatus := qp.inStatus.(escape := false);
    } else if qp.inStatus.literal {
      if oldchar == QUOTE {
        qp.inStatus := qp.inStatus.(literal := false);
      } else if oldchar == qp.escapeInLiteral {
        qp.inStatus := qp.inStatus.(escape := true);
      }
    } else if qp.inStatus.dquote {
      if oldchar == DQUOTE {
        qp.inStatus := qp.inStatus.(dquote := false);
      }
    } else if oldchar == LINEFEED {
      qp.inStatus := qp.inStatus.(lineComment := false);
    }
    qb.AppendByte(oldchar);
  }

  /** One turn of the loop of `findTag`: the byte at `p` decides, or the search goes on. */
  lemma TagTurn(enc: Encoding, before: nat, u: seq<byte>, p: nat)
    requires p < |u| && u[p] != NUL
    ensures var st := Stat(enc, before, u[p]);
            More(p, TagEnd(enc, before, u[p..]))
            == if st == 0 && u[p] < 0x80 && u[p] == DOLLAR then Some(p)
               else if st == 0 && u[p] < 0x80 && !IsAlnum(u[p]) then None
               else More(p + 1, TagEnd(enc, st, u[p + 1..]))
  {
    hide Stat;
    assert u[p..][1..] == u[p + 1..];
  }

  lemma TagAtEnd(enc: Encoding, u: seq<byte>)
    ensures u[0..] == u
    ensures forall before: nat :: TagEnd(enc, before, u[|u|..]) == None
  {
    assert u[|u|..] == [];
  }

  /** `findTag` */
  method FindTagIn(s: seq<byte>, ccsc: Encoding) returns (taglen: nat)
    requires s != [] && NulFree(s)
    ensures taglen == FindTag(ccsc, s)
  {
    hide Stat, TagEnd;
    taglen := 0;
    var u := s[1..];
    TagAtEnd(ccsc, u);
    var encstr := new EncodedStr(ccsc, u);
    ghost var before := 0;
    var tchar := encstr.NextChar();
    var found := false;
    while tchar != NUL && !found
      invariant encstr.Valid() && fresh(encstr) && encstr.encstr == u && encstr.ccsc == ccsc && encstr.pos >= 0
      invariant tchar == At(u, encstr.pos) && (!found ==> encstr.ccst == Stat(ccsc, before, tchar))
      invariant !found ==> taglen == 0 && More(encstr.pos, TagEnd(ccsc, before, u[encstr.pos..])) == TagEnd(ccsc, 0, u)
      invariant found ==> taglen == FindTag(ccsc, s)
      decreases |u| - encstr.pos, !found
    {
      TagTurn(ccsc, before, u, encstr.pos);
      if !encstr.IsNonAscii() && (tchar == DOLLAR || !IsAlnum(tchar)) {
        taglen := if tchar == DOLLAR then encstr.pos + 2 else 0;
        found := true;
      } else {
        before := encstr.ccst;
        tchar := encstr.NextChar();
      }
    }
  }

  /** A dollar outside of everything. */
  method OpenDollarQuote(env: Env, qp: QueryParse, qb: QueryBuild, oldchar: byte)
    requires qp.For(env) && qb.Valid() && qp.opos < |env.stmt| && oldchar == qp.State().last
    modifies qp, qb.buffer, qb.buffer.query_statement
    ensures qp.For(env) && qb.Valid() && Agrees(old(OpenDollar(env, qp.State(), qb.State())), qp, qb)
    ensures qb.buffer.query_statement == old(qb.buffer.query_statement) || fresh(qb.buffer.query_statement)
  {
    hide FindTag;
    assert NulFree(qp.statement[qp.opos..]);
    var taglen := FindTagIn(qp.statement[qp.opos..], qp.encstr.ccsc);
    qp.taglen := taglen;
    if taglen > 0 {
      qp.inStatus := qp.inStatus.(dollarQuote := true);
      qp.dollarTag := Some(qp.opos);
      qb.Append(qp.statement[qp.opos..qp.opos + taglen]);
      qp.opos := qp.opos + taglen - 1;
    } else {
      qb.AppendByte(oldchar);
    }
  }

  method OpenLiteral(env: Env, qp: QueryParse, qb: QueryBuild, oldchar: byte)
    requires qp.For(env) && qb.Valid() && qp.opos < |env.stmt| && oldchar == qp.State().last == QUOTE
    modifies qp, qb.buffer, qb.buffer.query_statement
    ensures qp.For(env) && qb.Valid() && Agrees(old(AtIdle(env, qp.State(), qb.State())), qp, qb)
    ensures qb.buffer.query_statement == old(qb.buffer.query_statement) || fresh(qb.buffer.query_statement)
  {
    hide OpenDollar, Marker, EndBrace;
    qp.inStatus := qp.inStatus.(literal := true);
    qp.escapeInLiteral := env.escape;
    if qp.escapeInLiteral == NUL {
      var previous := if qp.opos == 0 then env.before else qp.statement[qp.opos - 1];
      if previous == LITERAL_EXT {
        qp.escapeInLiteral := BACKSLASH;
      }
    }
    qb.AppendByte(oldchar);
  }

  /** Bytes that change the mode, and all others. */
  method OpenMode(env: Env, qp: QueryParse, qb: QueryBuild, oldchar: byte)
    requires qp.For(env) && qb.Valid() && qp.opos < |env.stmt| && oldchar == qp.State().last
    requires !Squeezed(env, qp.State()) && oldchar !in {RBRACE, QUESTION, DOLLAR, QUOTE}
    modifies qp, qb, qb.buffer, qb.buffer.query_statement
    ensures qp.For(env) && qb.Valid() && Agrees(old(AtIdle(env, qp.State(), qb.State())), qp, qb)
    ensures qb.buffer.query_statement == old(qb.buffer.query_statement) || fresh(qb.buffer.query_statement)
  {
    var next := qp.NextChar();
    if oldchar == DQUOTE {
      qp.inStatus := qp.inStatus.(dquote := true);
    } else if oldchar == SLASH && next == STAR {
      qp.commentLevel := qp.commentLevel + 1;
      qp.inStatus := qp.inStatus.(commentBlock := true);
    } else if oldchar == MINUS && next == MINUS {
      qp.inStatus := qp.inStatus.(lineComment := true);
    } else if oldchar == SEMICOLON {
      qb.dollarNumber := 0;
    } else if IsAlnum(oldchar) {
      qp.inStatus := qp.inStatus.(ident := true);
    }
    qb.AppendByte(oldchar);
  }

  /** Outside of everything, not at an opening brace. */
  method IdleByte(env: Env, qp: QueryParse, qb: QueryBuild, oldchar: byte)
    requires qp.For(env) && qb.Valid() && qp.opos < |env.stmt| && oldchar == qp.State().last
    modifies qp, qb, qb.buffer, qb.buffer.query_statement
    ensures qp.For(env) && qb.Valid() && Agrees(old(AtIdle(env, qp.State(), qb.State())), qp, qb)
    ensures qb.buffer.query_statement == old(qb.buffer.query_statement) || fresh(qb.buffer.query_statement)
  {
    hide Marker, EndBrace, OpenDollar;
    if env.lfConv && oldchar == CARRIAGE_RETURN && qp.opos + 1 < |qp.statement| && qp.statement[qp.opos + 1] == LINEFEED {
      return;
    }
    if oldchar == RBRACE {
      qb.FinishBrace();
    } else if oldchar == QUESTION {
      qb.ResolveOneParam();
    } else if oldchar == DOLLAR {
      OpenDollarQuote(env, qp, qb, oldchar);
    } else if oldchar == QUOTE {
      OpenLiteral(env, qp, qb, oldchar);
    } else {
      OpenMode(env, qp, qb, oldchar);
    }
  }

  /** The dispatch on the mode, for a one-byte character that does not continue an identifier. */
  method ModeByte(env: Env, qp: QueryParse, qb: QueryBuild, oldchar: byte) returns (why: Option<Failure>)
    requires qp.For(env) && qb.Valid() && qp.opos < |env.stmt| && oldchar == qp.State().last
    modifies qp, qb, qb.buffer, qb.buffer.query_statement
    ensures qp.For(env) && qb.Valid()
    ensures why.None? ==> Agrees(old(Inside(env, qp.State(), qb.State())), qp, qb)
    ensures why.Some? ==> old(Inside(env, qp.State(), qb.State())) == Err(why.value)
    ensures qb.buffer.query_statement == old(qb.buffer.query_statement) || fresh(qb.buffer.query_statement)
  {
    hide InDollarQuote, InCommentBlock, AtIdle;
    why := None;
    var st := qp.inStatus;
    if st.escape || (!st.dollarQuote && (st.literal || st.dquote || (!st.commentBlock && st.lineComment))) {
      QuotedByte(env, qp, qb, oldchar);
    } else if st.dollarQuote {
      DollarQuoteByte(env, qp, qb, oldchar);
    } else if st.commentBlock {
      CommentByte(env, qp, qb, oldchar);
    } else if !st.Idle() {
      why := Some(NotIdle);
    } else {
      IdleByte(env, qp, qb, oldchar);
    }
  }

  /** The first part of `inner_process_tokens`: the byte is read; `done` when a character that is not
      ASCII or goes on an identifier has been copied. */
  method ReadOldByte(env: Env, qp: QueryParse, qb: QueryBuild) returns (oldchar: byte, done: bool)
    requires qp.For(env) && qb.Valid() && qp.opos < |env.stmt|
    modifies qp, qp.encstr, qb.buffer, qb.buffer.query_statement
    ensures qp.For(env) && qb.Valid() && qp.encstr.pos >= 0 && oldchar == qp.State().last
    ensures var q := old(Read(env, qp.State()));
            && done == (NonAsciiRead(q) || (q.inStatus.ident && IdentifierByte(q.last)))
            && (done ==> Agrees(old(Plain(env, qp.State(), qb.State())), qp, qb))
            && (!done ==> qp.State() == LeaveIdent(q) && qb.State() == old(qb.State()))
    ensures qb.buffer.query_statement == old(qb.buffer.query_statement) || fresh(qb.buffer.query_statement)
  {
    hide Stat, Inside;
    done := true;
    oldchar := qp.encstr.ByteCheck(qp.opos);
    if qp.encstr.IsNonAscii() {
      if qp.inStatus.Idle() {
        qp.inStatus := qp.inStatus.(ident := true);
      }
      qb.AppendByte(oldchar);
      return;
    }
    if qp.inStatus.ident {
      if IdentifierByte(oldchar) {
        qb.AppendByte(oldchar);
        return;
      }
      qp.inStatus := qp.inStatus.(ident := false);
    }
    done := false;
  }

  // ---------------------------------------------------------------- scanning within escapes

  method SkipSpaces(env: Env, qp: QueryParse)
    requires qp.For(env) && qp.opos <= |env.stmt|
    modifies qp`opos
    ensures qp.opos == SkipSpace(env.stmt, old(qp.opos))
  {
    while qp.OldChar() != NUL && IsSpace(qp.OldChar())
      invariant qp.opos <= |env.stmt| && SkipSpace(env.stmt, qp.opos) == SkipSpace(env.stmt, old(qp.opos))
      decreases |env.stmt| - qp.opos
    {
      qp.opos := qp.opos + 1;
    }
  }

  /** Reads a word, of which at most `max` bytes are kept. */
  method ReadWord(env: Env, qp: QueryParse, atParen: bool, max: nat) returns (word: seq<byte>)
    requires qp.For(env) && qp.opos <= |env.stmt|
    modifies qp`opos
    ensures qp.opos == SkipWord(env.stmt, old(qp.opos), atParen)
    ensures word == Prefix(env.stmt[old(qp.opos)..qp.opos], max)
  {
    var start := qp.opos;
    word := [];
    while qp.OldChar() != NUL && !IsSpace(qp.OldChar()) && !(atParen && qp.OldChar() == LPAREN)
      invariant start <= qp.opos <= |env.stmt| && SkipWord(env.stmt, qp.opos, atParen) == SkipWord(env.stmt, start, atParen)
      invariant word == Prefix(env.stmt[start..qp.opos], max)
      decreases |env.stmt| - qp.opos
    {
      assert env.stmt[start..qp.opos + 1] == env.stmt[start..qp.opos] + [env.stmt[qp.opos]];
      if |word| < max {
        word := word + [qp.OldChar()];
      }
      qp.opos := qp.opos + 1;
    }
  }

  /** `F_ExtractOldTo` */
  method ExtractOldTo(env: Env, qp: QueryParse) returns (text: seq<byte>)
    requires qp.For(env) && qp.opos <= |env.stmt|
    modifies qp`opos
    ensures qp.opos == ExtractEnd(env.stmt, old(qp.opos), 128) && text == env.stmt[old(qp.opos)..qp.opos]
  {
    var start := qp.opos;
    text := [];
    while qp.OldChar() != NUL && qp.OldChar() != RBRACE && |text| < 128
      invariant start <= qp.opos <= |env.stmt| && text == env.stmt[start..qp.opos] && |text| <= 128
      invariant ExtractEnd(env.stmt, qp.opos, 128 - |text|) == ExtractEnd(env.stmt, start, 128)
      decreases |env.stmt| - qp.opos
    {
      text := text + [qp.OldChar()];
      qp.opos := qp.opos + 1;
    }
  }

  /** A date, time or timestamp literal, or a LIKE escape. */
  method TypedLiteralIn(env: Env, qp: QueryParse, qb: QueryBuild, before: seq<byte>, after: seq<byte>, ghost start: nat)
    returns (why: Option<Failure>)
    requires qp.For(env) && qb.Valid() && start < qp.opos <= |env.stmt|
    modifies qp`opos, qb.buffer, qb.buffer.query_statement
    ensures qp.For(env) && qb.Valid() && start <= qp.opos <= |env.stmt|
    ensures var r := TypedLiteral(env, old(qp.State()).(opos := start), old(qb.State()), old(qp.opos), before, after);
            if why.None? then Agrees(r, qp, qb) else r == Err(why.value)
    ensures qb.buffer.query_statement == old(qb.buffer.query_statement) || fresh(qb.buffer.query_statement)
  {
    hide ExtractEnd, Separator;
    var text := ExtractOldTo(env, qp);
    if qp.OldChar() == NUL {
      return Some(BadEscape);
    }
    var space := Separator(env, qp.opos);
    qb.Append(before + text + after + space);
    why := None;
  }

  method BeginCall(env: Env, qb: QueryBuild)
    requires qb.Valid()
    modifies qb, qb.buffer, qb.buffer.query_statement
    ensures qb.Valid() && qb.State() == Begun(env, old(qb.State()))
    ensures qb.buffer.query_statement == old(qb.buffer.query_statement) || fresh(qb.buffer.query_statement)
  {
    BraceKeepsReturn(qb.State());
    hide StartBrace, Bytes;
    qb.BeginBrace();
    if env.manyParams || qb.procReturn == 0 {
      qb.Append(Bytes("SELECT * FROM "));
    } else {
      qb.Append(Bytes("SELECT "));
    }
  }

  /** The `{call` escape. */
  method CallIn(env: Env, qp: QueryParse, qb: QueryBuild, ghost start: nat)
    requires qp.For(env) && qb.Valid() && start + 1 < qp.opos <= |env.stmt|
    modifies qp`opos, qb, qb.buffer, qb.buffer.query_statement
    ensures qp.For(env) && qb.Valid() && start <= qp.opos <= |env.stmt|
    ensures Agrees(Call(env, old(qp.State()).(opos := start), old(qb.State()), old(qp.opos)), qp, qb)
    ensures qb.buffer.query_statement == old(qb.buffer.query_statement) || fresh(qb.buffer.query_statement)
  {
    hide Begun, EndBrace, FindIdentifier, FirstNonSpace;
    BeginCall(env, qb);
    var rest := qp.statement[qp.opos..];
    assert NulFree(rest);
    var funclen, next := FindIdentifierIn(rest, env.ccsc);
    if next.Some? && rest[next.value] == RBRACE && funclen >= 0 {
      qb.Append(rest[..funclen] + [LPAREN, RPAREN]);
      qb.FinishBrace();
      qp.opos := qp.opos + next.value;
    } else {
      qp.opos := qp.opos - 1;
    }
  }

  lemma BraceKeepsReturn(qb: QB)
    ensures StartBrace(qb).procReturn == qb.procReturn
  {
  }

  // ---------------------------------------------------------------- function calls

  /** `mapFunction` over a table. */
  method LookUp(rows: seq<Mapping>, name: seq<byte>, count: nat) returns (expr: Option<seq<byte>>)
    ensures expr == MapFunction(rows, name, count)
  {
    hide RowFits, Bytes;
    var i := 0;
    assert rows[0..] == rows;
    while i < |rows|
      invariant i <= |rows| && MapFunction(rows[i..], name, count) == MapFunction(rows, name, count)
    {
      var row := rows[i];
      assert rows[i..][0] == row && rows[i..][1..] == rows[i + 1..];
      if RowFits(row, name, count) {
        return Some(Bytes(row.expr));
      }
      i := i + 1;
    }
    expr := None;
  }

  /** The parameters there are: a single blank one is none. */
  method EffectiveParams(out: seq<byte>, ps: Params) returns (params: seq<(int, int)>)
    ensures params == ParamList(out, ps)
  {
    params := ps.done;
    if |ps.done| != 1 {
      return;
    }
    var from, to := ps.done[0].0, ps.done[0].1;
    var paramExist := false;
    var i := if from < 0 then 0 else from;
    while i <= to && i < |out| && !paramExist
      invariant i >= 0 && i >= from && forall j :: 0 <= j < i && j < |out| && from <= j <= to ==> IsSpace(out[j])
      invariant paramExist ==> i <= to && i < |out| && !IsSpace(out[i])
      decreases |out| - i, !paramExist
    {
      if !IsSpace(out[i]) {
        paramExist := true;
      } else {
        i := i + 1;
      }
    }
    if !paramExist {
      params := [];
    }
  }

  /** The loop over the expression of a function. */
  method ExpandInto(qb: QueryBuild, out: seq<byte>, params: seq<(int, int)>, consumed: nat, expr: seq<byte>) returns (ok: bool)
    requires qb.Valid()
    modifies qb.buffer, qb.buffer.query_statement
    ensures qb.Valid()
    ensures var text := Expand(out, params, consumed, expr);
            ok == text.Some? && (ok ==> qb.State() == Put(old(qb.State()), text.value))
    ensures qb.buffer.query_statement == old(qb.buffer.query_statement) || fresh(qb.buffer.query_statement)
  {
    hide Piece;
    ghost var before := qb.buffer.Contents();
    ghost var array0 := qb.buffer.query_statement;
    var mapptr := 0;
    ghost var text: seq<byte> := [];
    assert expr[0..] == expr && before + [] == before;
    PrependNothing(Expand(out, params, consumed, expr));
    while mapptr < |expr|
      invariant mapptr <= |expr| && qb.Valid() && (qb.buffer.query_statement == array0 || fresh(qb.buffer.query_statement))
      invariant qb.State() == old(qb.State()).(out := before + text)
      invariant Prepended(text, Expand(out, params, consumed, expr[mapptr..])) == Expand(out, params, consumed, expr)
    {
      var piece;
      ok, piece, mapptr := ExpandTurn(out, params, consumed, expr, mapptr, text);
      if !ok {
        return;
      }
      assert before + text + piece == before + (text + piece);
      qb.Append(piece);
      text := text + piece;
    }
    ok := true;
    assert text + [] == text;
  }

  method ExpandTurn(out: seq<byte>, params: seq<(int, int)>, consumed: nat, expr: seq<byte>, from: nat, ghost text: seq<byte>)
    returns (ok: bool, piece: seq<byte>, mapptr: nat)
    requires from < |expr|
    ensures !ok ==> Expand(out, params, consumed, expr[from..]) == None
    ensures ok ==>
              && from < mapptr <= |expr|
              && Prepended(text + piece, Expand(out, params, consumed, expr[mapptr..]))
                 == Prepended(text, Expand(out, params, consumed, expr[from..]))
  {
    hide Piece;
    ok, piece, mapptr := true, [], from + 1;
    var c := At(expr, from + 1);
    assert expr[from..][0] == expr[from] && expr[from..][1..] == expr[from + 1..];
    assert from + 1 < |expr| ==> expr[from..][1] == c && expr[from..][2..] == expr[from + 2..];
    if expr[from] != DOLLAR {
      piece := [expr[from]];
    } else if c == STAR {
      piece, mapptr := Piece(out, 1, consumed - 2), from + 2;
    } else if IsDigit(c) && 0 <= c as int - 49 < |params| {
      var p := params[c as int - 49];
      piece, mapptr := Piece(out, p.0, p.1), from + 2;
    } else {
      ok := false;
    }
    if ok {
      PrependTwice(text, piece, Expand(out, params, consumed, expr[mapptr..]));
    }
  }

  lemma PrependNothing(r: Option<seq<byte>>)
    ensures Prepended([], r) == r
  {
    if r.Some? {
      assert [] + r.value == r.value;
    }
  }

  lemma PrependTwice(a: seq<byte>, b: seq<byte>, r: Option<seq<byte>>)
    ensures Prepended(a + b, r) == Prepended(a, Prepended(b, r))
  {
    if r.Some? {
      assert a + b + r.value == a + (b + r.value);
    }
  }

  /** What a function call becomes is appended; `out` is the text built for its parameters. */
  method AppendCall(qb: QueryBuild, name: seq<byte>, out: seq<byte>, ghost nqb: QB, ps: Params) returns (why: Option<Failure>)
    requires qb.Valid() && out == nqb.out
    modifies qb.buffer, qb.buffer.query_statement
    ensures qb.Valid()
    ensures match CallText(name, nqb, ps)
            case Failed(w) => why == Some(w)
            case Text(text) => why == None && qb.State() == Put(old(qb.State()), text)
    ensures qb.buffer.query_statement == old(qb.buffer.query_statement) || fresh(qb.buffer.query_statement)
  {
    hide ParamList, IsConvert, MapFunction, Expand, Converted;
    var params := EffectiveParams(out, ps);
    why := None;
    if IsConvert(name) {
      var text := Converted(out, params);
      if text.None? {
        return Some(ConvertCount);
      }
      qb.Append(text.value);
      return;
    }
    var mapExpr := LookUp(MAP_FUNCS, name, |params|);
    if mapExpr.None? {
      qb.Append(name + out);
    } else {
      var ok := ExpandInto(qb, out, params, ps.consumed, mapExpr.value);
      if !ok {
        return Some(BadExpression);
      }
    }
  }

  // ---------------------------------------------------------------- the recursion

  /** How a step of the lexer relates to the objects it has changed. */
  ghost predicate Result(r: Res, why: Option<Failure>, qp: QueryParse, qb: QueryBuild)
    reads qp, qp.encstr, qb, qb.buffer, qb.buffer.query_statement
    requires qp.encstr.Valid() && qp.encstr.encstr == qp.statement && qb.Valid()
  {
    if why.None? then r == Ok(qp.State(), qb.State()) else r == Err(why.value)
  }

  /** A step, seen after the byte has been read. */
  lemma StepParts(env: Env, qp: QP, qb: QB)
    requires qp.opos < |env.stmt|
    ensures var q := Read(env, qp);
            var next := LeaveIdent(q);
            && q.opos == next.opos == qp.opos && next.last == q.last
            && (NonAsciiRead(q) || (q.inStatus.ident && IdentifierByte(q.last)) ==> Step(env, qp, qb) == Plain(env, qp, qb))
            && (!NonAsciiRead(q) && !(q.inStatus.ident && IdentifierByte(q.last)) ==>
                  Step(env, qp, qb) == if q.last == LBRACE && next.inStatus.Idle() then ConvertEscape(env, next, qb)
                                       else Inside(env, next, qb))
  {
    hide Inside, ConvertEscape, Stat;
  }

  /** `inner_process_tokens` */
  method InnerProcessTokens(env: Env, qp: QueryParse, qb: QueryBuild) returns (why: Option<Failure>)
    requires qp.For(env) && qb.Valid() && qp.opos < |env.stmt|
    modifies qp, qp.encstr, qb, qb.buffer, qb.buffer.query_statement
    ensures qp.For(env) && qb.Valid() && qp.encstr.pos >= 0 && (why.None? ==> qp.opos >= old(qp.opos))
    ensures Result(Step(env, old(qp.State()), old(qb.State())), why, qp, qb)
    ensures qb.buffer.query_statement == old(qb.buffer.query_statement) || fresh(qb.buffer.query_statement)
    decreases |env.stmt| - qp.opos, 3
  {
    hide Step, Plain, Inside, Read, LeaveIdent, ConvertEscape, NonAsciiRead;
    ghost var q0, b0 := qp.State(), qb.State();
    StepParts(env, q0, b0);
    var oldchar, done := ReadOldByte(env, qp, qb);
    if done {
      why := None;
    } else if oldchar == LBRACE && qp.inStatus.Idle() {
      why := ConvertEscapeIn(env, qp, qb);
    } else {
      why := ModeByte(env, qp, qb, oldchar);
    }
    StepForward(env, q0, b0);
  }

  lemma StepForward(env: Env, qp: QP, qb: QB)
    requires qp.opos < |env.stmt|
    ensures Step(env, qp, qb).Ok? ==> Step(env, qp, qb).qp.opos >= qp.opos
  {
  }

  /** `convert_escape`, standing at the opening brace. */
  method ConvertEscapeIn(env: Env, qp: QueryParse, qb: QueryBuild) returns (why: Option<Failure>)
    requires qp.For(env) && qb.Valid() && qp.encstr.pos >= 0 && qp.opos < |env.stmt|
    modifies qp, qp.encstr, qb, qb.buffer, qb.buffer.query_statement
    ensures qp.For(env) && qb.Valid() && qp.encstr.pos >= 0
    ensures Result(ConvertEscape(env, old(qp.State()), old(qb.State())), why, qp, qb)
    ensures qb.buffer.query_statement == old(qb.buffer.query_statement) || fresh(qb.buffer.query_statement)
    decreases |env.stmt| - qp.opos, 2
  {
    hide ConvertKey, SkipSpace;
    ghost var start, q0, b0 := qp.opos, qp.State(), qb.State();
    qp.opos := qp.opos + 1;
    SkipSpaces(env, qp);
    var go := true;
    if qp.OldChar() == QUESTION {
      go := AcceptReturn(env, qp, qb);
    }
    assert qp.State().(opos := start) == q0;
    if go {
      why := ConvertKeyIn(env, qp, qb, start);
    } else {
      why := None;
    }
  }

  /** `{?=`: the return value of a call takes part as a parameter. */
  method AcceptReturn(env: Env, qp: QueryParse, qb: QueryBuild) returns (go: bool)
    requires qp.For(env) && qb.Valid() && qp.opos < |env.stmt|
    modifies qp`opos, qb
    ensures qp.For(env) && qb.Valid() && qb.buffer.query_statement == old(qb.buffer.query_statement)
    ensures var e := SkipSpace(env.stmt, old(qp.opos) + 1);
            && go == (At(env.stmt, e) == EQUALS)
            && qp.opos == (if go then SkipSpace(env.stmt, e + 1) else e - 1)
    ensures qb.State() == old(qb.State()).(paramNumber := Wrap16(old(qb.paramNumber) + 1), procReturn := 1)
  {
    hide SkipSpace;
    qb.paramNumber := Wrap16(qb.paramNumber + 1);
    qb.procReturn := 1;
    qp.opos := qp.opos + 1;
    SkipSpaces(env, qp);
    go := qp.OldChar() == EQUALS;
    if go {
      qp.opos := qp.opos + 1;
      SkipSpaces(env, qp);
    } else {
      qp.opos := qp.opos - 1;
    }
  }

  method ConvertKeyIn(env: Env, qp: QueryParse, qb: QueryBuild, ghost start: nat) returns (why: Option<Failure>)
    requires qp.For(env) && qb.Valid() && qp.encstr.pos >= 0 && start < qp.opos <= |env.stmt|
    modifies qp, qp.encstr, qb, qb.buffer, qb.buffer.query_statement
    ensures qp.For(env) && qb.Valid() && qp.encstr.pos >= 0
    ensures Result(ConvertKey(env, old(qp.State()).(opos := start), old(qb.State()), old(qp.opos)), why, qp, qb)
    ensures qb.buffer.query_statement == old(qb.buffer.query_statement) || fresh(qb.buffer.query_statement)
    decreases |env.stmt| - start, 1
  {
    hide Call, TypedLiteral, FunctionCall, StartBrace, KeyOf, LowerAll, Prefix, SkipWord, SkipSpace, Bytes;
    WordMoves(env, qp.opos);
    var key := ReadWord(env, qp, false, 32);
    SkipSpaces(env, qp);
    match KeyOf(LowerAll(key))
    case CallKey =>
      CallIn(env, qp, qb, start);
      why := None;
    case DateKey => why := TypedLiteralIn(env, qp, qb, [], Bytes("::date"), start);
    case TimeKey => why := TypedLiteralIn(env, qp, qb, [], Bytes("::time"), start);
    case TimestampKey => why := TypedLiteralIn(env, qp, qb, [], Bytes("::timestamp"), start);
    case OuterJoinKey =>
      qb.BeginBrace();
      qp.opos := qp.opos - 1;
      why := None;
    case EscapeKey => why := TypedLiteralIn(env, qp, qb, key + [SPACE], [], start);
    case FunctionKey => why := FunctionCallIn(env, qp, qb, start);
    case UnknownKey => why := Some(BadEscape);
  }

  /** A key word has at least one byte. */
  lemma WordMoves(env: Env, p: nat)
    requires p <= |env.stmt|
    ensures var end := SkipWord(env.stmt, p, false);
            KeyOf(LowerAll(Prefix(env.stmt[p..end], 32))) != UnknownKey ==> end > p
  {
    var end := SkipWord(env.stmt, p, false);
    if end == p {
      assert env.stmt[p..end] == [];
      assert LowerAll([]) == [];
    }
  }

  method FunctionCallIn(env: Env, qp: QueryParse, qb: QueryBuild, ghost start: nat) returns (why: Option<Failure>)
    requires qp.For(env) && qb.Valid() && qp.encstr.pos >= 0 && start < qp.opos <= |env.stmt|
    modifies qp, qp.encstr, qb, qb.buffer, qb.buffer.query_statement
    ensures qp.For(env) && qb.Valid() && qp.encstr.pos >= 0
    ensures Result(FunctionCall(env, old(qp.State()).(opos := start), old(qb.State()), old(qp.opos)), why, qp, qb)
    ensures qb.buffer.query_statement == old(qb.buffer.query_statement) || fresh(qb.buffer.query_statement)
    decreases |env.stmt| - start, 0
  {
    hide ProcessParameters, CallText, Prefix, SkipWord, SkipSpace;
    var name := ReadWord(env, qp, true, 64);
    SkipSpaces(env, qp);
    if qp.OldChar() != LPAREN {
      qb.Append(name);
      return None;
    }
    var nqb := new QueryBuild.Copy(qb);
    var ps;
    why, ps := ProcessParametersIn(env, qp, nqb);
    if why.None? {
      var out := nqb.buffer.query_statement[..nqb.buffer.npos];
      why := AppendCall(qb, name, out, nqb.State(), ps);
      qb.paramNumber := nqb.paramNumber;
    }
  }

  /** `processParameters` */
  method ProcessParametersIn(env: Env, qp: QueryParse, nqb: QueryBuild) returns (why: Option<Failure>, ps: Params)
    requires qp.For(env) && nqb.Valid() && qp.encstr.pos >= 0 && qp.opos < |env.stmt|
    modifies qp, qp.encstr, nqb, nqb.buffer, nqb.buffer.query_statement
    ensures qp.For(env) && nqb.Valid() && qp.encstr.pos >= 0
    ensures var r := ProcessParameters(env, old(qp.State()), old(nqb.State()));
            if why.None? then r == ParamOk(qp.State(), nqb.State(), ps) else r == ParamErr(why.value)
    ensures nqb.buffer.query_statement == old(nqb.buffer.query_statement) || fresh(nqb.buffer.query_statement)
    decreases |env.stmt| - qp.opos, 5
  {
    hide ParamLoop, Step;
    ghost var goal := ParamLoop(env, qp.State(), nqb.State(), NO_PARAMS);
    ghost var start, buffer0 := qp.opos, nqb.buffer.query_statement;
    ps := NO_PARAMS;
    var stop := false;
    why := None;
    while qp.opos < |env.stmt| && !stop
      invariant qp.For(env) && nqb.Valid() && qp.encstr.pos >= 0 && qp.opos >= start && why == None
      invariant nqb.buffer.query_statement == buffer0 || fresh(nqb.buffer.query_statement)
      invariant !stop ==> ParamLoop(env, qp.State(), nqb.State(), ps) == goal
      invariant stop ==> goal == ParamOk(qp.State(), nqb.State(), ps)
      decreases |env.stmt| - qp.opos, !stop
    {
      ghost var q0, b0, p0 := qp.State(), nqb.State(), ps;
      why := InnerProcessTokens(env, qp, nqb);
      LoopTurn(env, q0, b0, p0);
      if why.Some? {
        return;
      }
      var c := qp.OldChar();
      if !qp.encstr.IsNonAscii() && qp.inStatus.Idle() {
        if c == RBRACE && ps.depth == 0 {
          stop := true;
        } else {
          ps := Delimit(ps, c, nqb.buffer.npos);
        }
      }
      if !stop {
        qp.opos := qp.opos + 1;
      }
    }
    if !stop {
      LoopEnd(env, qp.State(), nqb.State(), ps);
    }
    if ps.open.Some? {
      why := Some(ParenNotFound);
    }
  }

  /** One turn of the loop over parameters. */
  lemma LoopTurn(env: Env, qp: QP, nqb: QB, ps: Params)
    requires qp.opos < |env.stmt|
    ensures match Step(env, qp, nqb)
            case Err(why) => ParamLoop(env, qp, nqb, ps) == ParamErr(why)
            case Ok(q, b) =>
              var c := if q.opos < |env.stmt| then env.stmt[q.opos] else NUL;
              ParamLoop(env, qp, nqb, ps)
              == if NonAsciiRead(q) || !q.inStatus.Idle() then ParamLoop(env, q.(opos := q.opos + 1), b, ps)
                 else if c == RBRACE && ps.depth == 0 then ParamOk(q, b, ps)
                 else ParamLoop(env, q.(opos := q.opos + 1), b, Delimit(ps, c, |b.out|))
  {
    hide Step, Delimit;
  }

  lemma LoopEnd(env: Env, qp: QP, nqb: QB, ps: Params)
    requires qp.opos >= |env.stmt|
    ensures ParamLoop(env, qp, nqb, ps) == ParamOk(qp, nqb, ps)
  {
  }

  /** The loop of `process_statements`: the whole statement is rewritten, or an error is met. */
  method ProcessStatement(env: Env, procReturn: int) returns (why: Option<Failure>, text: seq<byte>)
    requires NulFree(env.stmt)
    ensures var r := Process(env, Start(env), Fresh(procReturn));
            if why.None? then r.Ok? && text == r.qb.out else r == Err(why.value)
    ensures why != Some(NotIdle)
  {
    hide Process, Step;
    var qp := new QueryParse(env);
    var qb := new QueryBuild(procReturn);
    text, why := [], None;
    StatementInOrder(env, procReturn);
    while qp.opos < |env.stmt|
      invariant qp.For(env) && qb.Valid() && fresh(qp) && fresh(qp.encstr) && fresh(qb) && fresh(qb.buffer)
      invariant fresh(qb.buffer.query_statement) && why == None
      invariant Process(env, qp.State(), qb.State()) == Process(env, Start(env), Fresh(procReturn))
      decreases |env.stmt| - qp.opos
    {
      ghost var q0, b0 := qp.State(), qb.State();
      why := InnerProcessTokens(env, qp, qb);
      ProcessTurn(env, q0, b0);
      if why.Some? {
        return;
      }
      qp.opos := qp.opos + 1;
    }
    ProcessEnd(env, qp.State(), qb.State());
    text := qb.buffer.query_statement[..qb.buffer.npos];
  }

  lemma ProcessTurn(env: Env, qp: QP, qb: QB)
    requires qp.opos < |env.stmt|
    ensures Process(env, qp, qb)
         == match Step(env, qp, qb)
            case Err(why) => Err(why)
            case Ok(q, b) => Process(env, q.(opos := q.opos + 1), b)
  {
    hide Step;
  }

  lemma ProcessEnd(env: Env, qp: QP, qb: QB)
    requires qp.opos >= |env.stmt|
    ensures Process(env, qp, qb) == Ok(qp, qb)
  {
  }
}
