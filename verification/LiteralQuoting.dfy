/**
 Quoting of parameter values as string literals (`convert_special_chars` and the end of
 `ResolveOneParam`), and the reading of such literals described in section 4.1.2.1 of the
 PostgreSQL manual.
 */
module LiteralQuoting {
  import opened CBytes
  import opened Multibyte
  import opened QueryBuffer

  /** `escape` is `CC_get_escape`: a backslash when standard_conforming_strings is off, else 0.
      `literalExt` is FLGB_LITERAL_EXTENSION, `convertLf` FLGB_CONVERT_LF and `bindRequest`
      the mode RPM_BUILDING_BIND_REQUEST. */
  datatype Config = Config(ccsc: Encoding, escape: byte, convertLf: bool, literalExt: bool, bindRequest: bool) {
    predicate Valid() {
      (escape == NUL || escape == BACKSLASH) && (literalExt ==> escape == BACKSLASH)
    }
  }

  /** Output for the byte `c`, read in state `stat` (already updated) and followed by `next`. */
  function EscapedByte(cfg: Config, stat: nat, c: byte, next: byte): seq<byte> {
    if stat != 0 || c >= 0x80 then [c]
    else if cfg.convertLf && c == CARRIAGE_RETURN && next == LINEFEED then []
    else if !cfg.bindRequest && (c == QUOTE || c == cfg.escape) then [c, c]
    else [c]
  }

  /** Output for the first `n` bytes of `s`; the look-ahead may see the byte after them. */
  function Escaped(cfg: Config, stat: nat, s: seq<byte>, n: nat): seq<byte>
    requires n <= |s|
    decreases n
  {
    if n == 0 || s[0] == NUL then []
    else
      var st := Stat(cfg.ccsc, stat, s[0]);
      EscapedByte(cfg, st, s[0], At(s, 1)) + Escaped(cfg, st, s[1..], n - 1)
  }

  /** `used` is None for SQL_NTS. */
  method ConvertSpecialChars(qb: Buffer, cfg: Config, si: seq<byte>, used: Option<nat>)
    requires qb.Valid()
    modifies qb, qb.query_statement
    ensures qb.Valid() && (qb.query_statement == old(qb.query_statement) || fresh(qb.query_statement))
    ensures qb.query_statement[qb.npos] == NUL
    ensures qb.Contents() == old(qb.Contents()) + Escaped(cfg, 0, si, Taken(si, used))
  {
    var max := if used.None? then |si| else used.value;
    qb.Enlarge(qb.npos + 1);
    var encstr := new EncodedStr(cfg.ccsc, si);
    var i: nat := 0;
    ghost var n := Taken(si, used);
    ghost var goal := old(qb.Contents()) + Escaped(cfg, 0, si, n);
    assert si[0..] == si;
    while i < max && At(si, i) != NUL
      invariant i <= n && qb.Valid() && fresh(qb.query_statement) && fresh(encstr)
      invariant encstr.encstr == si && encstr.ccsc == cfg.ccsc && encstr.pos == i - 1
      invariant i > 0 ==> si[i - 1] != NUL
      invariant qb.Contents() + Escaped(cfg, encstr.ccst, si[i..], n - i) == goal
      decreases n - i
    {
      EscapeOne(qb, cfg, encstr, i, n);
      i := i + 1;
    }
    assert Escaped(cfg, encstr.ccst, si[i..], n - i) == [];
    qb.query_statement[qb.npos] := NUL;
  }

  /** One turn of the loop: room for three more bytes, then the byte at `i`. */
  method EscapeOne(qb: Buffer, cfg: Config, encstr: EncodedStr, i: nat, ghost n: nat)
    requires qb.Valid() && i < n <= |encstr.encstr| && encstr.encstr[i] != NUL
    requires encstr.ccsc == cfg.ccsc && encstr.pos == i - 1 && (i > 0 ==> encstr.encstr[i - 1] != NUL)
    modifies qb, qb.query_statement, encstr
    ensures qb.Valid() && (qb.query_statement == old(qb.query_statement) || fresh(qb.query_statement))
    ensures encstr.pos == i
    ensures qb.Contents() + Escaped(cfg, encstr.ccst, encstr.encstr[i + 1..], n - (i + 1))
         == old(qb.Contents()) + Escaped(cfg, old(encstr.ccst), encstr.encstr[i..], n - i)
  {
    ghost var si := encstr.encstr;
    EscapedStep(cfg, encstr.ccst, si, i, n);
    var tchar := encstr.NextChar();
    if qb.npos + 3 >= qb.str_alsize {
      qb.Enlarge(qb.npos + 3);
    }
    var next := At(encstr.encstr, i + 1);
    PutEscaped(qb, cfg, encstr.IsNonAscii(), encstr.ccst, tchar, next);
    Associative(old(qb.Contents()), EscapedByte(cfg, encstr.ccst, tchar, next),
                Escaped(cfg, encstr.ccst, si[i + 1..], n - (i + 1)));
  }

  lemma EscapedStep(cfg: Config, stat: nat, si: seq<byte>, i: nat, n: nat)
    requires i < n <= |si| && si[i] != NUL
    ensures Escaped(cfg, stat, si[i..], n - i)
         == EscapedByte(cfg, Stat(cfg.ccsc, stat, si[i]), si[i], At(si, i + 1))
            + Escaped(cfg, Stat(cfg.ccsc, stat, si[i]), si[i + 1..], n - (i + 1))
  {
    assert si[i..][1..] == si[i + 1..];
  }

  /** The branches of the loop body. */
  method PutEscaped(qb: Buffer, cfg: Config, nonAscii: bool, ghost stat: nat, tchar: byte, next: byte)
    requires qb.Valid() && qb.npos + 3 < qb.str_alsize
    requires nonAscii <==> stat != 0 || tchar >= 0x80
    modifies qb`npos, qb.query_statement
    ensures qb.Valid()
    ensures qb.Contents() == old(qb.Contents()) + EscapedByte(cfg, stat, tchar, next)
  {
    if nonAscii {
      PutByte(qb, tchar);
      return;
    }
    if cfg.convertLf && tchar == CARRIAGE_RETURN && next == LINEFEED {
      return;
    }
    if !cfg.bindRequest && (tchar == QUOTE || tchar == cfg.escape) {
      PutByte(qb, tchar);
    }
    PutByte(qb, tchar);
  }

  /** `query_statement[npos++] = c`, for which room must be there. */
  method PutByte(qb: Buffer, c: byte)
    requires qb.Valid() && qb.npos + 1 < qb.str_alsize
    modifies qb`npos, qb.query_statement
    ensures qb.Valid() && qb.npos == old(qb.npos) + 1
    ensures qb.Contents() == old(qb.Contents()) + [c]
  {
    qb.query_statement[qb.npos] := c;
    qb.npos := qb.npos + 1;
  }

  /** How many bytes the loop looks at, at most. */
  function Taken(si: seq<byte>, used: Option<nat>): (n: nat)
    ensures n <= |si|
  {
    if used.Some? && used.value < |si| then used.value else |si|
  }

  function Literal(cfg: Config, si: seq<byte>, n: nat): seq<byte>
    requires n <= |si|
  {
    (if cfg.literalExt then [LITERAL_EXT] else []) + [QUOTE] + Escaped(cfg, 0, si, n) + [QUOTE]
  }

  /** The quoted branch at the end of `ResolveOneParam`. */
  method AppendLiteral(qb: Buffer, cfg: Config, si: seq<byte>, used: Option<nat>)
    requires qb.Valid()
    modifies qb, qb.query_statement
    ensures qb.Valid() && (qb.query_statement == old(qb.query_statement) || fresh(qb.query_statement))
    ensures qb.Contents() == old(qb.Contents()) + Literal(cfg, si, Taken(si, used))
  {
    ghost var before := qb.Contents();
    if cfg.literalExt {
      qb.AppendChar(LITERAL_EXT);
    }
    assert qb.Contents() == before + (if cfg.literalExt then [LITERAL_EXT] else []);
    qb.AppendChar(QUOTE);
    ConvertSpecialChars(qb, cfg, si, used);
    qb.AppendChar(QUOTE);
    GroupLiteral(before, if cfg.literalExt then [LITERAL_EXT] else [], Escaped(cfg, 0, si, Taken(si, used)));
  }

  /** How a converted value is embedded: in a bind request, in parentheses, in quotes, with a cast behind it
      (`lastadd`, empty unless FLGB_PARAM_CAST is set). */
  datatype Embedding = Embedding(reqBind: bool, addParens: bool, needQuotes: bool, cast: seq<byte>)

  function Embedded(cfg: Config, how: Embedding, si: seq<byte>, n: nat): seq<byte>
    requires n <= |si|
  {
    if how.reqBind then si[..n]
    else
      var value := if how.needQuotes then Literal(cfg, si, n) else si[..n];
      (if how.addParens then [LPAREN] + value + [RPAREN] else value) + how.cast
  }

  /** The end of `ResolveOneParam` for values that are no bytea; `si` holds the bytes to be copied. */
  method AppendParameter(qb: Buffer, cfg: Config, how: Embedding, si: seq<byte>, used: Option<nat>)
    requires qb.Valid() && (used.Some? ==> used.value <= |si|)
    modifies qb, qb.query_statement
    ensures qb.Valid() && (qb.query_statement == old(qb.query_statement) || fresh(qb.query_statement))
    ensures qb.Contents() == old(qb.Contents()) + Embedded(cfg, how, si, Taken(si, used))
  {
    ghost var before := qb.Contents();
    var n := Taken(si, used);
    if how.reqBind {
      qb.AppendData(si[..n]);
      return;
    }
    if how.addParens {
      qb.AppendChar(LPAREN);
    }
    ghost var upTo := qb.Contents();
    if how.needQuotes {
      AppendLiteral(qb, cfg, si, used);
    } else {
      qb.AppendData(si[..n]);
    }
    ghost var value := if how.needQuotes then Literal(cfg, si, n) else si[..n];
    assert qb.Contents() == upTo + value;
    if how.addParens {
      qb.AppendChar(RPAREN);
      assert before + [LPAREN] + value + [RPAREN] == before + ([LPAREN] + value + [RPAREN]);
    }
    ghost var inner := if how.addParens then [LPAREN] + value + [RPAREN] else value;
    assert qb.Contents() == before + inner;
    qb.AppendData(how.cast);
    Associative(before, inner, how.cast);
  }

  lemma GroupLiteral(a: seq<byte>, e: seq<byte>, b: seq<byte>)
    ensures a + e + [QUOTE] + b + [QUOTE] == a + (e + [QUOTE] + b + [QUOTE])
  {
  }

  // ---------------------------------------------------------------- how the server reads a literal

  /** The characters up to the closing quote, and what follows it. */
  datatype Token = Token(payload: seq<Ch>, rest: seq<Ch>)

  function SimpleEscape(c: byte): Option<byte> {
    if c == BACKSLASH || c == QUOTE || c == DQUOTE then Some(c)
    else if c == 98 then Some(8)
    else if c == 102 then Some(12)
    else if c == 110 then Some(LINEFEED)
    else if c == 114 then Some(CARRIAGE_RETURN)
    else if c == 116 then Some(TAB)
    else None
  }

  function Prepend(ch: Ch, t: Option<Token>): Option<Token> {
    if t.None? then None else Some(Token([ch] + t.value.payload, t.value.rest))
  }

  /** `cs` follows an opening quote; `escapes` says whether backslash sequences are recognised
      (numeric ones are not decoded here: such a literal gives None). */
  function ReadBody(escapes: bool, cs: seq<Ch>): Option<Token> {
    if cs == [] then None
    else if cs[0] == [QUOTE] then
      if |cs| > 1 && cs[1] == [QUOTE] then Prepend([QUOTE], ReadBody(escapes, cs[2..]))
      else Some(Token([], cs[1..]))
    else if escapes && cs[0] == [BACKSLASH] then
      if |cs| > 1 && |cs[1]| == 1 && SimpleEscape(cs[1][0]).Some?
      then Prepend([SimpleEscape(cs[1][0]).value], ReadBody(escapes, cs[2..]))
      else None
    else Prepend(cs[0], ReadBody(escapes, cs[1..]))
  }

  /** A literal at the start of a text. `backslashEscapes` is the server's reading of plain
      literals: on exactly when standard_conforming_strings is off. */
  function ReadLiteral(enc: Encoding, backslashEscapes: bool, text: seq<byte>): Option<Token> {
    var cs := Segment(enc, text);
    if |cs| > 1 && cs[0] == [LITERAL_EXT] && cs[1] == [QUOTE] then ReadBody(true, cs[2..])
    else if |cs| > 0 && cs[0] == [QUOTE] then ReadBody(backslashEscapes, cs[1..])
    else None
  }

  // ---------------------------------------------------------------- round trip

  /** Carriage-return/linefeed pairs become linefeeds; `peek` is the byte after the text. */
  function SqueezeLf(on: bool, chars: seq<Ch>, peek: byte): seq<Ch> {
    if chars == [] then []
    else if on && chars[0] == [CARRIAGE_RETURN] && FirstByte(chars[1..], peek) == LINEFEED
    then SqueezeLf(on, chars[1..], peek)
    else [chars[0]] + SqueezeLf(on, chars[1..], peek)
  }

  function FirstByte(chars: seq<Ch>, peek: byte): byte {
    if chars == [] || chars[0] == [] then peek else chars[0][0]
  }

  /** Doubling, on characters. */
  function Doubled(cfg: Config, chars: seq<Ch>): seq<Ch> {
    if chars == [] then []
    else (if chars[0] == [QUOTE] || chars[0] == [cfg.escape] then [chars[0], chars[0]] else [chars[0]])
         + Doubled(cfg, chars[1..])
  }

  /** Bytes of non-ASCII characters are copied, also those that look like a quote or a backslash. */
  lemma {:induction false} EscapedCopies(cfg: Config, stat: nat, a: seq<byte>, rest: seq<byte>, m: nat)
    requires m <= |rest| && NulFree(a)
    requires AllNonAscii(cfg.ccsc, stat, a)
    ensures Escaped(cfg, stat, a + rest, |a| + m) == a + Escaped(cfg, StatRun(cfg.ccsc, stat, a), rest, m)
    decreases a
  {
    if a == [] {
      assert a + rest == rest;
    } else {
      var st := Stat(cfg.ccsc, stat, a[0]);
      EscapedCopy(cfg, stat, a, rest, m);
      EscapedCopies(cfg, st, a[1..], rest, m);
      Associative([a[0]], a[1..], Escaped(cfg, StatRun(cfg.ccsc, st, a[1..]), rest, m));
      assert a == [a[0]] + a[1..];
    }
  }

  lemma EscapedCopy(cfg: Config, stat: nat, a: seq<byte>, rest: seq<byte>, m: nat)
    requires a != [] && a[0] != NUL && m <= |rest| && NonAscii(cfg.ccsc, stat, a[0])
    ensures Escaped(cfg, stat, a + rest, |a| + m)
         == [a[0]] + Escaped(cfg, Stat(cfg.ccsc, stat, a[0]), a[1..] + rest, |a| - 1 + m)
  {
    assert (a + rest)[1..] == a[1..] + rest;
  }

  lemma {:induction false} WellFormedNulFree(enc: Encoding, ch: Ch)
    requires WellFormed(enc, ch)
    ensures NulFree(ch) && ch != []
  {
    if |ch| > 1 {
      assert forall i :: 1 <= i < |ch| ==> ch[i] == ch[1..][i - 1];
    }
  }

  /** The byte loop does on the bytes what squeezing and doubling do on the characters. */
  lemma {:induction false} EscapedChars(cfg: Config, stat: nat, chars: seq<Ch>, beyond: seq<byte>)
    requires cfg.Valid() && !cfg.bindRequest && cfg.ccsc != Johab
    requires AtBoundary(stat) && AllWellFormed(cfg.ccsc, chars)
    ensures Escaped(cfg, stat, Flat(chars) + beyond, |Flat(chars)|)
         == Flat(Doubled(cfg, SqueezeLf(cfg.convertLf, chars, At(beyond, 0))))
    decreases chars
  {
    if chars != [] {
      var ch, tail := chars[0], chars[1..];
      var rest := Flat(tail) + beyond;
      var n := |Flat(tail)|;
      assert Flat(chars) + beyond == ch + rest && |Flat(chars)| == |ch| + n;
      FirstOfText(cfg.ccsc, tail, beyond);
      CharPasses(cfg.ccsc, stat, ch);
      var after := StatRun(cfg.ccsc, stat, ch);
      EscapedChars(cfg, after, tail, beyond);
      EscapedChar(cfg, stat, ch, rest, n);
      SqueezeHead(cfg, ch, tail, At(beyond, 0));
      assert chars == [ch] + tail;
    }
  }

  /** What one character contributes. */
  function CharOutput(cfg: Config, ch: Ch, next: byte): seq<byte> {
    if cfg.convertLf && ch == [CARRIAGE_RETURN] && next == LINEFEED then []
    else if ch == [QUOTE] || ch == [cfg.escape] then ch + ch
    else ch
  }

  lemma EscapedAscii(cfg: Config, stat: nat, c: byte, rest: seq<byte>, m: nat)
    requires cfg.Valid() && !cfg.bindRequest && cfg.ccsc != Johab
    requires 0 < c < 0x80 && m <= |rest| && AtBoundary(stat)
    ensures Escaped(cfg, stat, [c] + rest, 1 + m)
         == CharOutput(cfg, [c], At(rest, 0)) + Escaped(cfg, StatRun(cfg.ccsc, stat, [c]), rest, m)
  {
    assert ([c] + rest)[1..] == rest;
    assert [c][1..] == [];
    AsciiCharPasses(cfg.ccsc, stat, c);
    assert EscapedByte(cfg, 0, c, At(rest, 0)) == CharOutput(cfg, [c], At(rest, 0));
  }

  lemma EscapedChar(cfg: Config, stat: nat, ch: Ch, rest: seq<byte>, m: nat)
    requires cfg.Valid() && !cfg.bindRequest && cfg.ccsc != Johab
    requires AtBoundary(stat) && WellFormed(cfg.ccsc, ch) && m <= |rest|
    ensures Escaped(cfg, stat, ch + rest, |ch| + m)
         == CharOutput(cfg, ch, At(rest, 0)) + Escaped(cfg, StatRun(cfg.ccsc, stat, ch), rest, m)
  {
    WellFormedNulFree(cfg.ccsc, ch);
    if IsAscii(ch) {
      EscapedAscii(cfg, stat, ch[0], rest, m);
      assert ch == [ch[0]];
    } else {
      HighCharPasses(cfg.ccsc, stat, ch);
      EscapedCopies(cfg, stat, ch, rest, m);
      HighCharOutput(cfg, ch, At(rest, 0));
    }
  }

  lemma HighCharOutput(cfg: Config, ch: Ch, next: byte)
    requires cfg.Valid() && !IsAscii(ch)
    ensures CharOutput(cfg, ch, next) == ch
  {
  }

  lemma SqueezeHead(cfg: Config, ch: Ch, tail: seq<Ch>, peek: byte)
    ensures Flat(Doubled(cfg, SqueezeLf(cfg.convertLf, [ch] + tail, peek)))
         == CharOutput(cfg, ch, FirstByte(tail, peek)) + Flat(Doubled(cfg, SqueezeLf(cfg.convertLf, tail, peek)))
  {
    assert ([ch] + tail)[1..] == tail;
    DoubledHead(cfg, ch, SqueezeLf(cfg.convertLf, tail, peek));
  }

  lemma FirstOfText(enc: Encoding, chars: seq<Ch>, beyond: seq<byte>)
    requires AllWellFormed(enc, chars)
    ensures At(Flat(chars) + beyond, 0) == FirstByte(chars, At(beyond, 0))
  {
    if chars != [] {
      WellFormedNulFree(enc, chars[0]);
    } else {
      assert Flat(chars) + beyond == beyond;
    }
  }

  lemma DoubledHead(cfg: Config, ch: Ch, cs: seq<Ch>)
    ensures Flat(Doubled(cfg, [ch] + cs))
         == (if ch == [QUOTE] || ch == [cfg.escape] then ch + ch else ch) + Flat(Doubled(cfg, cs))
  {
    assert ([ch] + cs)[1..] == cs;
    FlatPair(ch, Doubled(cfg, cs));
  }

  lemma FlatPair(ch: Ch, cs: seq<Ch>)
    ensures Flat([ch] + cs) == ch + Flat(cs)
    ensures Flat([ch, ch] + cs) == ch + ch + Flat(cs)
  {
    assert ([ch] + cs)[1..] == cs;
    assert [ch, ch] + cs == [ch] + ([ch] + cs);
    assert ([ch] + ([ch] + cs))[1..] == [ch] + cs;
  }

  /** Reading doubled characters gives the characters, and stops at the quote after them. */
  lemma {:induction false} ReadDoubled(cfg: Config, chars: seq<Ch>, tail: seq<Ch>)
    requires cfg.Valid() && (tail != [] ==> tail[0] != [QUOTE])
    requires forall k :: 0 <= k < |chars| ==> chars[k] != [NUL]
    ensures ReadBody(cfg.escape == BACKSLASH, Doubled(cfg, chars) + [[QUOTE]] + tail) == Some(Token(chars, tail))
  {
    if chars == [] {
      var cs := [[QUOTE]] + tail;
      assert Doubled(cfg, chars) + [[QUOTE]] + tail == cs;
      assert cs[1..] == tail;
    } else {
      ReadDoubled(cfg, chars[1..], tail);
      var ch, more := chars[0], Doubled(cfg, chars[1..]);
      assert chars == [ch] + chars[1..];
      if ch == [QUOTE] || ch == [cfg.escape] {
        Regroup([ch, ch], more, [[QUOTE]], tail);
        ReadPair(cfg, ch, more + [[QUOTE]] + tail);
      } else {
        Regroup([ch], more, [[QUOTE]], tail);
        ReadSingle(cfg, ch, more + [[QUOTE]] + tail);
      }
    }
  }

  lemma ReadSingle(cfg: Config, ch: Ch, rest: seq<Ch>)
    requires cfg.Valid() && ch != [QUOTE] && ch != [cfg.escape]
    ensures ReadBody(cfg.escape == BACKSLASH, [ch] + rest) == Prepend(ch, ReadBody(cfg.escape == BACKSLASH, rest))
  {
    assert ([ch] + rest)[1..] == rest;
  }

  lemma ReadPair(cfg: Config, ch: Ch, rest: seq<Ch>)
    requires cfg.Valid() && (ch == [QUOTE] || (ch == [cfg.escape] && cfg.escape == BACKSLASH))
    ensures ReadBody(cfg.escape == BACKSLASH, [ch, ch] + rest) == Prepend(ch, ReadBody(cfg.escape == BACKSLASH, rest))
  {
    assert ([ch, ch] + rest)[2..] == rest;
  }

  lemma {:induction false} SqueezeWellFormed(enc: Encoding, on: bool, chars: seq<Ch>, peek: byte)
    requires AllWellFormed(enc, chars)
    ensures AllWellFormed(enc, SqueezeLf(on, chars, peek))
  {
    if chars != [] {
      SqueezeWellFormed(enc, on, chars[1..], peek);
    }
  }

  lemma {:induction false} DoubledWellFormed(cfg: Config, chars: seq<Ch>)
    requires AllWellFormed(cfg.ccsc, chars)
    ensures AllWellFormed(cfg.ccsc, Doubled(cfg, chars))
  {
    if chars != [] {
      DoubledWellFormed(cfg, chars[1..]);
    }
  }

  /** Literal round trip: for every payload that is well formed in the client encoding, the server
      reads the emitted literal, wherever it stands, as exactly that payload (with CR-LF pairs
      squeezed when conversion is on) and finds its end at the last quote. */
  lemma LiteralRoundTrip(cfg: Config, chars: seq<Ch>, beyond: seq<byte>, tail: seq<Ch>)
    requires cfg.Valid() && !cfg.bindRequest && cfg.ccsc != Johab
    requires AllWellFormed(cfg.ccsc, chars) && AllWellFormed(cfg.ccsc, tail)
    requires tail != [] ==> tail[0] != [QUOTE]
    ensures ReadLiteral(cfg.ccsc, cfg.escape == BACKSLASH,
                        Literal(cfg, Flat(chars) + beyond, |Flat(chars)|) + Flat(tail))
         == Some(Token(SqueezeLf(cfg.convertLf, chars, At(beyond, 0)), tail))
  {
    var payload := SqueezeLf(cfg.convertLf, chars, At(beyond, 0));
    EscapedChars(cfg, 0, chars, beyond);
    SqueezeWellFormed(cfg.ccsc, cfg.convertLf, chars, At(beyond, 0));
    ReadQuoted(cfg, payload, tail);
    assert Literal(cfg, Flat(chars) + beyond, |Flat(chars)|) + Flat(tail)
        == Flat(Opening(cfg) + (Doubled(cfg, payload) + [[QUOTE]] + tail)) by {
      FlatLiteral(cfg, payload, tail);
    }
  }

  lemma FlatLiteral(cfg: Config, payload: seq<Ch>, tail: seq<Ch>)
    ensures Flat(Opening(cfg) + (Doubled(cfg, payload) + [[QUOTE]] + tail))
         == (if cfg.literalExt then [LITERAL_EXT] else []) + [QUOTE] + Flat(Doubled(cfg, payload)) + [QUOTE] + Flat(tail)
  {
    var body := Flat(Doubled(cfg, payload));
    FlatAppend(Opening(cfg), Doubled(cfg, payload) + [[QUOTE]] + tail);
    FlatAppend(Doubled(cfg, payload) + [[QUOTE]], tail);
    FlatAppend(Doubled(cfg, payload), [[QUOTE]]);
    FlatPair([QUOTE], []);
    FlatPair([LITERAL_EXT], [[QUOTE]]);
    assert Flat([[QUOTE]]) == [QUOTE];
    assert [[LITERAL_EXT]] + [[QUOTE]] == [[LITERAL_EXT], [QUOTE]];
    var open := (if cfg.literalExt then [LITERAL_EXT] else []) + [QUOTE];
    assert Flat(Opening(cfg)) == open;
    Regroup(open, body, [QUOTE], Flat(tail));
  }

  lemma Regroup<T>(a: seq<T>, b: seq<T>, c: seq<T>, d: seq<T>)
    ensures a + (b + c + d) == a + b + c + d
  {
  }

  function Opening(cfg: Config): seq<Ch> {
    if cfg.literalExt then [[LITERAL_EXT], [QUOTE]] else [[QUOTE]]
  }

  lemma ReadQuoted(cfg: Config, payload: seq<Ch>, tail: seq<Ch>)
    requires cfg.Valid() && AllWellFormed(cfg.ccsc, payload) && AllWellFormed(cfg.ccsc, tail)
    requires tail != [] ==> tail[0] != [QUOTE]
    ensures ReadLiteral(cfg.ccsc, cfg.escape == BACKSLASH, Flat(Opening(cfg) + (Doubled(cfg, payload) + [[QUOTE]] + tail)))
         == Some(Token(payload, tail))
  {
    DoubledWellFormed(cfg, payload);
    var body := Doubled(cfg, payload) + [[QUOTE]] + tail;
    var cs := Opening(cfg) + body;
    SegmentFlat(cfg.ccsc, cs);
    ReadDoubled(cfg, payload, tail);
    assert cs[|Opening(cfg)|..] == body;
  }
}
