/**
 Catalog search patterns (`adjustLikePattern`, `gen_opestr`): an ODBC pattern, in which a
 backslash escapes only `%` and `_`, is turned into the inside of a literal that the server
 reads as a LIKE pattern.
 */
module LikePattern {
  import opened CBytes
  import opened Multibyte
  import opened LiteralQuoting

  const SQL_NULL_DATA := -1
  const SQL_NTS := -3

  /** One backslash for the pattern, doubled when the lexer takes backslashes too. */
  function Backslashes(escape: byte): seq<byte> {
    if escape == BACKSLASH then [BACKSLASH, BACKSLASH] else [BACKSLASH]
  }

  /** Output of one ASCII byte. */
  function LikeByte(escape: byte, escapeIn: bool, c: byte): seq<byte> {
    (if escapeIn && c != PERCENT && c != UNDERSCORE then Backslashes(escape) else [])
    + (if c == BACKSLASH then Backslashes(escape) else if c == QUOTE then [c, c] else [c])
  }

  function LikeOutput(enc: Encoding, escape: byte, stat: nat, escapeIn: bool, s: seq<byte>): seq<byte>
    decreases s
  {
    if s == [] then (if escapeIn then Backslashes(escape) else [])
    else
      var st := Stat(enc, stat, s[0]);
      if st != 0 || s[0] >= 0x80 then [s[0]] + LikeOutput(enc, escape, st, escapeIn, s[1..])
      else LikeByte(escape, escapeIn, s[0]) + LikeOutput(enc, escape, st, s[0] == BACKSLASH, s[1..])
  }

  /** The allocated 4 * srclen + 1 bytes are enough. */
  lemma {:induction false} LikeOutputBound(enc: Encoding, escape: byte, stat: nat, escapeIn: bool, s: seq<byte>)
    ensures |LikeOutput(enc, escape, stat, escapeIn, s)| <= 4 * |s| + (if escapeIn then 2 else 0)
    decreases s
  {
    if s != [] {
      var st := Stat(enc, stat, s[0]);
      LikeOutputBound(enc, escape, st, escapeIn, s[1..]);
      LikeOutputBound(enc, escape, st, s[0] == BACKSLASH, s[1..]);
    }
  }

  /** `src` is None for a null pointer; the result is None for NULL. */
  method AdjustLikePattern(src: Option<seq<byte>>, srclen: int, enc: Encoding, escape: byte)
    returns (dest: Option<seq<byte>>)
    requires src.Some? ==> NulFree(src.value) && srclen <= |src.value|
    ensures dest.Some? <==> src.Some? && (srclen >= 0 || srclen == SQL_NTS)
    ensures dest.Some? ==>
              dest.value == LikeOutput(enc, escape, 0, false,
                                       src.value[..if srclen == SQL_NTS then |src.value| else srclen])
  {
    if src.None? || srclen == SQL_NULL_DATA {
      return None;
    }
    var len := if srclen == SQL_NTS then |src.value| else srclen;
    if len < 0 {
      return None;
    }
    var text := src.value;
    ghost var goal := LikeOutput(enc, escape, 0, false, text[..len]);
    LikeOutputBound(enc, escape, 0, false, text[..len]);
    var buf := new byte[4 * len + 1](i => NUL);
    var encstr := new EncodedStr(enc, text);
    var i, outlen, escapeIn := 0, 0, false;
    assert text[0..len] == text[..len];
    while i < len
      invariant 0 <= i <= len && 0 <= outlen <= 4 * len
      invariant encstr.encstr == text && encstr.ccsc == enc && encstr.pos == i - 1
      invariant buf[..outlen] + LikeOutput(enc, escape, encstr.ccst, escapeIn, text[i..len]) == goal
    {
      outlen, escapeIn := LikeOne(buf, outlen, encstr, escape, escapeIn, i, len);
      i := i + 1;
    }
    assert text[len..len] == [];
    if escapeIn {
      outlen := Put(buf, outlen, Backslashes(escape));
    }
    buf[outlen] := NUL;
    dest := Some(buf[..outlen]);
  }

  /** One turn of the loop. */
  method LikeOne(buf: array<byte>, pos: nat, encstr: EncodedStr, escape: byte, escapeIn: bool, i: nat, len: nat)
    returns (outlen: nat, escapeOut: bool)
    requires i < len <= |encstr.encstr| && NulFree(encstr.encstr) && encstr.pos == i - 1
    requires pos + |LikeOutput(encstr.ccsc, escape, encstr.ccst, escapeIn, encstr.encstr[i..len])| < buf.Length
    modifies buf, encstr
    ensures encstr.pos == i && pos <= outlen
            <= pos + |LikeOutput(encstr.ccsc, escape, old(encstr.ccst), escapeIn, encstr.encstr[i..len])|
    ensures buf[..outlen] + LikeOutput(encstr.ccsc, escape, encstr.ccst, escapeOut, encstr.encstr[i + 1..len])
         == old(buf[..pos]) + LikeOutput(encstr.ccsc, escape, old(encstr.ccst), escapeIn, encstr.encstr[i..len])
  {
    ghost var enc, rest := encstr.ccsc, encstr.encstr[i + 1..len];
    assert encstr.encstr[i..len][1..] == rest;
    var tchar := encstr.NextChar();
    if encstr.IsNonAscii() {
      Associative(buf[..pos], [tchar], LikeOutput(enc, escape, encstr.ccst, escapeIn, rest));
      outlen := Put(buf, pos, [tchar]);
      escapeOut := escapeIn;
    } else {
      escapeOut := tchar == BACKSLASH;
      Associative(buf[..pos], LikeByte(escape, escapeIn, tchar), LikeOutput(enc, escape, encstr.ccst, escapeOut, rest));
      outlen := PutLike(buf, pos, escape, escapeIn, tchar);
    }
  }

  method Put(buf: array<byte>, pos: nat, s: seq<byte>) returns (outlen: nat)
    requires pos + |s| < buf.Length
    modifies buf
    ensures outlen == pos + |s| && buf[..outlen] == old(buf[..pos]) + s
  {
    forall k | 0 <= k < |s| {
      buf[pos + k] := s[k];
    }
    outlen := pos + |s|;
  }

  /** The ASCII branch of the loop body. */
  method PutLike(buf: array<byte>, pos: nat, escape: byte, escapeIn: bool, tchar: byte) returns (outlen: nat)
    requires pos + |LikeByte(escape, escapeIn, tchar)| < buf.Length
    modifies buf
    ensures outlen == pos + |LikeByte(escape, escapeIn, tchar)|
    ensures buf[..outlen] == old(buf[..pos]) + LikeByte(escape, escapeIn, tchar)
  {
    outlen := pos;
    if escapeIn && tchar != PERCENT && tchar != UNDERSCORE {
      outlen := Put(buf, outlen, Backslashes(escape));
    }
    if tchar == BACKSLASH {
      if escape == BACKSLASH {
        outlen := Put(buf, outlen, [escape]);
      }
    } else if tchar == QUOTE {
      outlen := Put(buf, outlen, [tchar]);
    }
    outlen := Put(buf, outlen, [tchar]);
  }

  // ---------------------------------------------------------------- what patterns mean

  datatype Wild = Any | One | Lit(ch: Ch)

  predicate IsWildcard(ch: Ch) { ch == [PERCENT] || ch == [UNDERSCORE] }

  function Plain(ch: Ch): Wild {
    if ch == [PERCENT] then Any else if ch == [UNDERSCORE] then One else Lit(ch)
  }

  /** An ODBC pattern: a backslash makes a following wildcard literal and is literal elsewhere. */
  function OdbcMeaning(chars: seq<Ch>): seq<Wild> {
    if chars == [] then []
    else if chars[0] == [BACKSLASH] && |chars| > 1 && IsWildcard(chars[1])
    then [Lit(chars[1])] + OdbcMeaning(chars[2..])
    else [Plain(chars[0])] + OdbcMeaning(chars[1..])
  }

  /** A LIKE pattern of the server: a backslash makes any following character literal. */
  function ServerMeaning(chars: seq<Ch>): Option<seq<Wild>> {
    if chars == [] then Some([])
    else if chars[0] == [BACKSLASH] then
      if |chars| > 1 then Cons(Lit(chars[1]), ServerMeaning(chars[2..])) else None
    else Cons(Plain(chars[0]), ServerMeaning(chars[1..]))
  }

  function Cons(w: Wild, ws: Option<seq<Wild>>): Option<seq<Wild>> {
    if ws.None? then None else Some([w] + ws.value)
  }

  /** The pattern inside the emitted literal. */
  function Pattern(escapeIn: bool, chars: seq<Ch>): seq<Ch>
    decreases chars
  {
    if chars == [] then (if escapeIn then [[BACKSLASH]] else [])
    else if !IsAscii(chars[0]) then [chars[0]] + Pattern(escapeIn, chars[1..])
    else
      (if escapeIn && !IsWildcard(chars[0]) then [[BACKSLASH], chars[0]] else [chars[0]])
      + Pattern(chars[0] == [BACKSLASH], chars[1..])
  }

  /** No backslash stands directly before a non-ASCII character. */
  predicate NoBackslashBeforeMultibyte(chars: seq<Ch>) {
    |chars| < 2 || ((chars[0] == [BACKSLASH] ==> IsAscii(chars[1])) && NoBackslashBeforeMultibyte(chars[1..]))
  }

  lemma GoodCons(ch: Ch, chars: seq<Ch>)
    ensures NoBackslashBeforeMultibyte([ch] + chars)
       <==> (ch == [BACKSLASH] && chars != [] ==> IsAscii(chars[0])) && NoBackslashBeforeMultibyte(chars)
  {
    assert ([ch] + chars)[1..] == chars;
  }

  /** The translated pattern means what the ODBC pattern means exactly when no backslash stands
      directly before a non-ASCII character (there `escape_in` survives the character and the
      backslash is lost). */
  lemma {:induction false} PatternExact(chars: seq<Ch>)
    ensures ServerMeaning(Pattern(false, chars)) == Some(OdbcMeaning(chars)) <==> NoBackslashBeforeMultibyte(chars)
    decreases |chars|, 0
  {
    if chars != [] {
      var ch, rest := chars[0], chars[1..];
      assert chars == [ch] + rest;
      if ch == [BACKSLASH] {
        PendingExact(rest);
      } else {
        GoodCons(ch, rest);
        PatternExact(rest);
        HeadStep(ch, Pattern(false, rest));
        assert OdbcMeaning(chars) == [Plain(ch)] + OdbcMeaning(rest);
        ConsEqual(Plain(ch), ServerMeaning(Pattern(false, rest)), OdbcMeaning(rest));
      }
    }
  }

  /** The same with a backslash just read. */
  lemma {:induction false} PendingExact(chars: seq<Ch>)
    ensures ServerMeaning([[BACKSLASH]] + Pattern(true, chars)) == Some(OdbcMeaning([[BACKSLASH]] + chars))
       <==> NoBackslashBeforeMultibyte([[BACKSLASH]] + chars)
    decreases |chars|, 1
  {
    var all := [[BACKSLASH]] + chars;
    GoodCons([BACKSLASH], chars);
    assert all[1..] == chars;
    if chars == [] {
      EscapeStep([BACKSLASH], []);
    } else {
      var ch, rest := chars[0], chars[1..];
      assert chars == [ch] + rest && all[2..] == rest;
      if !IsAscii(ch) {
        EscapeStep(ch, Pattern(true, rest));
        assert OdbcMeaning(all)[0] == Lit([BACKSLASH]);
      } else if IsWildcard(ch) {
        GoodCons(ch, rest);
        PatternExact(rest);
        EscapeStep(ch, Pattern(false, rest));
        ConsEqual(Lit(ch), ServerMeaning(Pattern(false, rest)), OdbcMeaning(rest));
      } else {
        var more := [ch] + Pattern(ch == [BACKSLASH], rest);
        assert Pattern(true, chars) == [[BACKSLASH]] + more;
        EscapeStep([BACKSLASH], more);
        if ch == [BACKSLASH] {
          PendingExact(rest);
        } else {
          PatternExact(chars);
          assert Pattern(false, chars) == more;
        }
        assert OdbcMeaning(all) == [Lit([BACKSLASH])] + OdbcMeaning(chars);
        ConsEqual(Lit([BACKSLASH]), ServerMeaning(more), OdbcMeaning(chars));
      }
    }
  }

  lemma HeadStep(ch: Ch, p: seq<Ch>)
    requires ch != [BACKSLASH]
    ensures ServerMeaning([ch] + p) == Cons(Plain(ch), ServerMeaning(p))
  {
    assert ([ch] + p)[1..] == p;
  }

  lemma EscapeStep(ch: Ch, p: seq<Ch>)
    ensures ServerMeaning([[BACKSLASH]] + ([ch] + p)) == Cons(Lit(ch), ServerMeaning(p))
    ensures [[BACKSLASH]] + ([ch] + []) == [[BACKSLASH]] + [ch]
  {
    assert ([[BACKSLASH]] + ([ch] + p))[2..] == p;
    assert [ch] + [] == [ch];
  }

  lemma ConsEqual(w: Wild, a: Option<seq<Wild>>, b: seq<Wild>)
    ensures Cons(w, a) == Some([w] + b) <==> a == Some(b)
  {
    if Cons(w, a) == Some([w] + b) {
      assert a.value == ([w] + a.value)[1..];
      assert b == ([w] + b)[1..];
    }
  }

  // ---------------------------------------------------------------- bytes and characters

  function AsConfig(enc: Encoding, escape: byte, literalExt: bool): Config {
    Config(enc, escape, false, literalExt, false)
  }

  /** On well-formed text the byte loop emits the pattern with the lexer's doubling. */
  lemma {:induction false} LikeOutputChars(enc: Encoding, escape: byte, stat: nat, escapeIn: bool, chars: seq<Ch>)
    requires (escape == NUL || escape == BACKSLASH) && enc != Johab
    requires AtBoundary(stat) && AllWellFormed(enc, chars)
    ensures LikeOutput(enc, escape, stat, escapeIn, Flat(chars))
         == Flat(Doubled(AsConfig(enc, escape, false), Pattern(escapeIn, chars)))
    decreases chars
  {
    var cfg := AsConfig(enc, escape, false);
    if chars == [] {
      DoubledHead(cfg, [BACKSLASH], []);
      assert [[BACKSLASH]] + [] == [[BACKSLASH]];
    } else {
      var ch, tail := chars[0], chars[1..];
      WellFormedNulFree(enc, ch);
      if IsAscii(ch) {
        AsciiCharPasses(enc, stat, ch[0]);
        assert ch == [ch[0]] && Flat(chars)[1..] == Flat(tail);
        LikeOutputChars(enc, escape, 0, ch == [BACKSLASH], tail);
        LikeByteDoubled(cfg, escapeIn, ch[0], Pattern(ch == [BACKSLASH], tail));
      } else {
        HighCharPasses(enc, stat, ch);
        LikeCopies(enc, escape, stat, escapeIn, ch, Flat(tail));
        LikeOutputChars(enc, escape, StatRun(enc, stat, ch), escapeIn, tail);
        DoubledHead(cfg, ch, Pattern(escapeIn, tail));
      }
    }
  }

  lemma LikeByteDoubled(cfg: Config, escapeIn: bool, c: byte, p: seq<Ch>)
    requires cfg.Valid() && c != NUL
    ensures Flat(Doubled(cfg, (if escapeIn && !IsWildcard([c]) then [[BACKSLASH], [c]] else [[c]]) + p))
         == LikeByte(cfg.escape, escapeIn, c) + Flat(Doubled(cfg, p))
  {
    DoubledHead(cfg, [c], p);
    DoubledHead(cfg, [BACKSLASH], [[c]] + p);
    assert [[BACKSLASH], [c]] + p == [[BACKSLASH]] + ([[c]] + p);
    var own := if c == BACKSLASH then Backslashes(cfg.escape) else if c == QUOTE then [c, c] else [c];
    assert Flat(Doubled(cfg, [[c]] + p)) == own + Flat(Doubled(cfg, p)) by {
      assert [c] == [QUOTE] <==> c == QUOTE;
      assert [c] == [cfg.escape] <==> c == cfg.escape;
    }
    if escapeIn && !IsWildcard([c]) {
      Associative(Backslashes(cfg.escape), own, Flat(Doubled(cfg, p)));
    } else {
      assert [] + own == own;
    }
  }

  lemma {:induction false} LikeCopies(enc: Encoding, escape: byte, stat: nat, escapeIn: bool, a: seq<byte>, rest: seq<byte>)
    requires AllNonAscii(enc, stat, a)
    ensures LikeOutput(enc, escape, stat, escapeIn, a + rest)
         == a + LikeOutput(enc, escape, StatRun(enc, stat, a), escapeIn, rest)
    decreases a
  {
    if a == [] {
      assert a + rest == rest;
    } else {
      var st := Stat(enc, stat, a[0]);
      assert (a + rest)[1..] == a[1..] + rest;
      LikeCopies(enc, escape, st, escapeIn, a[1..], rest);
      Associative([a[0]], a[1..], LikeOutput(enc, escape, StatRun(enc, st, a[1..]), escapeIn, rest));
      assert a == [a[0]] + a[1..];
    }
  }

  lemma {:induction false} PatternWellFormed(enc: Encoding, escapeIn: bool, chars: seq<Ch>)
    requires AllWellFormed(enc, chars)
    ensures AllWellFormed(enc, Pattern(escapeIn, chars))
    decreases chars
  {
    if chars != [] {
      PatternWellFormed(enc, escapeIn, chars[1..]);
      PatternWellFormed(enc, chars[0] == [BACKSLASH], chars[1..]);
    }
  }

  /** `gen_opestr` puts an E before the literal exactly when backslashes need it. */
  predicate AddsE(escape: byte, serverSince81: bool) {
    escape != NUL && serverSince81
  }

  /** The argument of the LIKE operator in the catalog query. */
  function LikeOperand(enc: Encoding, escape: byte, serverSince81: bool, s: seq<byte>): seq<byte> {
    (if AddsE(escape, serverSince81) then [LITERAL_EXT] else []) + [QUOTE]
    + LikeOutput(enc, escape, 0, false, s) + [QUOTE]
  }

  /** LIKE translation: the server reads the emitted literal as a pattern that means what the ODBC
      pattern means, for every well-formed pattern and in both escape settings, if and only if
      no backslash stands directly before a non-ASCII character. */
  lemma LikeTranslation(enc: Encoding, escape: byte, serverSince81: bool, chars: seq<Ch>)
    requires (escape == NUL || escape == BACKSLASH) && enc != Johab && AllWellFormed(enc, chars)
    ensures var read := ReadLiteral(enc, escape == BACKSLASH, LikeOperand(enc, escape, serverSince81, Flat(chars)));
            && read.Some? && read.value.rest == []
            && (ServerMeaning(read.value.payload) == Some(OdbcMeaning(chars)) <==> NoBackslashBeforeMultibyte(chars))
  {
    var cfg := AsConfig(enc, escape, AddsE(escape, serverSince81));
    var p := Pattern(false, chars);
    LikeOutputChars(enc, escape, 0, false, chars);
    PatternWellFormed(enc, false, chars);
    DoublingIgnoresE(cfg, AsConfig(enc, escape, false), p);
    ReadQuoted(cfg, p, []);
    FlatLiteral(cfg, p, []);
    assert LikeOperand(enc, escape, serverSince81, Flat(chars)) + Flat([])
        == LikeOperand(enc, escape, serverSince81, Flat(chars));
    PatternExact(chars);
  }

  lemma {:induction false} DoublingIgnoresE(a: Config, b: Config, chars: seq<Ch>)
    requires a.escape == b.escape
    ensures Doubled(a, chars) == Doubled(b, chars)
  {
    if chars != [] {
      DoublingIgnoresE(a, b, chars[1..]);
    }
  }

  lemma {:induction false} AsciiIsGood(chars: seq<Ch>)
    requires forall k :: 0 <= k < |chars| ==> IsAscii(chars[k])
    ensures NoBackslashBeforeMultibyte(chars)
  {
    if chars != [] {
      AsciiIsGood(chars[1..]);
    }
  }
}
