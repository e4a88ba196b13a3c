/**
 Quoting of table names (`quote_table`) and the identifier reader (`findIdentifier`,
 `lower_or_remove_dquote`, `eatTableIdentifiers`).
 */
module QuotedNames {
  import opened CBytes
  import opened Multibyte

  // ---------------------------------------------------------------- quote_table

  /** The name with its double quotes doubled. */
  function Quoted(name: seq<byte>): seq<byte> {
    if name == [] then []
    else (if name[0] == DQUOTE then [DQUOTE, DQUOTE] else [name[0]]) + Quoted(name[1..])
  }

  /** How many characters of `name` are copied when copying starts at `i` and goes on below `limit`. */
  function Kept(name: seq<byte>, i: nat, limit: int): (n: nat)
    ensures n <= |name|
    decreases name
  {
    if name == [] || i >= limit then 0
    else 1 + Kept(name[1..], if name[0] == DQUOTE then i + 2 else i + 1, limit)
  }

  function QuotedPart(name: seq<byte>, i: nat, limit: int): seq<byte> {
    [DQUOTE] + Quoted(name[..Kept(name, i + 1, limit)]) + [DQUOTE]
  }

  function SchemaPart(schema: Option<seq<byte>>, bufSize: nat): seq<byte> {
    if schema.None? then [] else QuotedPart(schema.value, 0, bufSize - 6) + [DOT]
  }

  /** What `quote_table` leaves in a buffer of `bufSize` bytes, without the terminator. */
  function QuoteTable(schema: Option<seq<byte>>, table: seq<byte>, bufSize: nat): seq<byte> {
    var s := SchemaPart(schema, bufSize);
    s + QuotedPart(table, |s|, bufSize - 3)
  }

  /** `quote_table`; a table name that is not valid counts as empty. */
  method QuoteTableInto(schema: Option<seq<byte>>, table: Option<seq<byte>>, buf: array<byte>)
    requires buf.Length >= if schema.Some? then 6 else 3
    requires (schema.Some? ==> NulFree(schema.value)) && (table.Some? ==> NulFree(table.value))
    modifies buf
    ensures var t := QuoteTable(schema, if table.Some? then table.value else [], buf.Length);
            |t| < buf.Length && buf[..|t|] == t && buf[|t|] == NUL
  {
    var i := 0;
    if schema.Some? {
      i := CopyQuoted(schema.value, buf, i, buf.Length - 6);
      buf[i] := DOT;
      i := i + 1;
    }
    assert buf[..i] == SchemaPart(schema, buf.Length);
    i := CopyQuoted(if table.Some? then table.value else [], buf, i, buf.Length - 3);
    buf[i] := NUL;
  }

  /** An opening quote, the loop over the name and a closing quote. */
  method CopyQuoted(name: seq<byte>, buf: array<byte>, at: nat, limit: int) returns (i: nat)
    requires NulFree(name) && at + 2 <= buf.Length && limit + 3 <= buf.Length
    modifies buf
    ensures at + 2 <= i <= (if at > limit then at + 2 else limit + 2)
    ensures buf[..i] == old(buf[..at]) + QuotedPart(name, at, limit)
  {
    buf[at] := DQUOTE;
    i := at + 1;
    var ptr := 0;
    ghost var goal := old(buf[..at]) + [DQUOTE] + Quoted(name[..Kept(name, at + 1, limit)]);
    assert buf[..i] == old(buf[..at]) + [DQUOTE];
    assert name[0..] == name;
    while ptr < |name| && i < limit
      invariant at + 1 <= i <= (if at > limit then at + 1 else limit + 1)
      invariant ptr <= |name| && Copying(buf[..], i, name[ptr..], limit, goal)
    {
      i := CopyNameByte(name, ptr, buf, i, limit, goal);
      ptr := ptr + 1;
    }
    assert buf[..i] == goal;
    buf[i] := DQUOTE;
    i := i + 1;
    assert buf[..i] == goal + [DQUOTE];
  }

  /** What is copied, followed by what will be copied, is the goal. */
  ghost predicate Copying(m: seq<byte>, i: nat, rest: seq<byte>, limit: int, goal: seq<byte>) {
    i <= |m| && m[..i] + Quoted(rest[..Kept(rest, i, limit)]) == goal
  }

  method CopyNameByte(name: seq<byte>, ptr: nat, buf: array<byte>, i0: nat, limit: int, ghost goal: seq<byte>)
    returns (i: nat)
    requires ptr < |name| && i0 < limit && limit + 3 <= buf.Length
    requires Copying(buf[..], i0, name[ptr..], limit, goal)
    modifies buf
    ensures i0 < i <= limit + 1 && Copying(buf[..], i, name[ptr + 1..], limit, goal)
  {
    ghost var before := buf[..i0];
    i := i0;
    buf[i] := name[ptr];
    i := i + 1;
    if name[ptr] == DQUOTE {
      buf[i] := DQUOTE;
      i := i + 1;
    }
    ghost var out := if name[ptr] == DQUOTE then [DQUOTE, DQUOTE] else [name[ptr]];
    assert buf[..][..i] == before + out;
    CopyStep(name[ptr..], i0, limit);
    assert name[ptr..][1..] == name[ptr + 1..];
    Associative(before, out, Quoted(name[ptr + 1..][..Kept(name[ptr + 1..], i, limit)]));
  }

  lemma CopyStep(rest: seq<byte>, i: nat, limit: int)
    requires rest != [] && i < limit
    ensures var out := if rest[0] == DQUOTE then [DQUOTE, DQUOTE] else [rest[0]];
            Quoted(rest[..Kept(rest, i, limit)]) == out + Quoted(rest[1..][..Kept(rest[1..], i + |out|, limit)])
  {
    var k := Kept(rest, i, limit);
    assert rest[..k][1..] == rest[1..][..k - 1];
  }

  // ---------------------------------------------------------------- identifiers

  /** Length of the rest of a quoted identifier, closing quote included. */
  function ScanQuoted(enc: Encoding, stat: nat, s: seq<byte>): (n: Option<nat>)
    ensures n.Some? ==> 0 < n.value <= |s|
    decreases |s|
  {
    if s == [] then None
    else
      var st := Stat(enc, stat, s[0]);
      if st != 0 || s[0] >= 0x80 || s[0] != DQUOTE then More(1, ScanQuoted(enc, st, s[1..]))
      else if At(s, 1) == DQUOTE then More(2, ScanQuoted(enc, Stat(enc, st, DQUOTE), s[2..]))
      else Some(1)
  }

  function More(k: nat, n: Option<nat>): Option<nat> { if n.None? then None else Some(k + n.value) }

  predicate IdentifierByte(c: byte) { IsAlnum(c) || c == UNDERSCORE || c == DOLLAR }

  /** Length of the rest of an unquoted identifier. */
  function ScanBare(enc: Encoding, stat: nat, s: seq<byte>): (n: nat)
    ensures n <= |s|
    decreases |s|
  {
    if s == [] then 0
    else
      var st := Stat(enc, stat, s[0]);
      if st != 0 || s[0] >= 0x80 || IdentifierByte(s[0]) then 1 + ScanBare(enc, st, s[1..]) else 0
  }

  /** `slen` is the length found (-1: no closing quote), `stop` where scanning stopped. */
  datatype Scan = Scan(slen: int, stop: nat)

  function Quotes(n: Option<nat>, from: nat, end: nat): Scan {
    if n.None? then Scan(-1, end) else Scan(from + n.value, from + n.value)
  }

  function FindIdentifier(enc: Encoding, s: seq<byte>): (r: Scan)
    ensures r.stop <= |s| && r.slen <= |s|
  {
    if s == [] then Scan(0, 0)
    else
      var st := Stat(enc, 0, s[0]);
      if st != 0 || s[0] >= 0x80 || IsAlpha(s[0]) then
        var n := 1 + ScanBare(enc, st, s[1..]);
        Scan(n, n)
      else if s[0] == DQUOTE then Quotes(ScanQuoted(enc, st, s[1..]), 1, |s|)
      else Scan(0, 0)
  }

  function FirstNonSpace(s: seq<byte>, from: nat): (p: Option<nat>)
    requires from <= |s|
    ensures p.Some? ==> from <= p.value < |s|
  {
    var p := SkipSpace(s, from);
    if p == |s| then None else Some(p)
  }

  /** What the loop of `findIdentifier` still has to find when the byte at `p` has just been read. */
  ghost function Ahead(enc: Encoding, s: seq<byte>, p: nat, before: nat, dquote: bool): Scan
    requires p <= |s|
  {
    if p == 0 then FindIdentifier(enc, s)
    else if dquote then Quotes(ScanQuoted(enc, before, s[p..]), p, |s|)
    else Scan(p + ScanBare(enc, before, s[p..]), p + ScanBare(enc, before, s[p..]))
  }

  /** `findIdentifier`; the next token is where the first byte that is no space stands, if any. */
  method FindIdentifierIn(s: seq<byte>, ccsc: Encoding) returns (slen: int, nextToken: Option<nat>)
    requires NulFree(s)
    ensures slen == FindIdentifier(ccsc, s).slen
    ensures nextToken == FirstNonSpace(s, FindIdentifier(ccsc, s).stop)
  {
    slen := -1;
    var dquote, found := false, false;
    var encstr := new EncodedStr(ccsc, s);
    ghost var before := 0;
    var tchar := encstr.NextChar();
    while tchar != NUL && !found
      invariant encstr.Valid() && fresh(encstr) && encstr.encstr == s && encstr.ccsc == ccsc && encstr.pos >= 0
      invariant tchar == At(s, encstr.pos)
      invariant !found ==> slen == -1 && (dquote ==> encstr.pos > 0) && encstr.ccst == Stat(ccsc, before, tchar)
      invariant !found ==> (encstr.pos == 0 ==> before == 0)
      invariant !found ==> Ahead(ccsc, s, encstr.pos, before, dquote) == FindIdentifier(ccsc, s)
      invariant found ==> FindIdentifier(ccsc, s) == Scan(slen, encstr.pos) && slen >= 0
      decreases |s| - encstr.pos, !found
    {
      tchar, slen, dquote, found, before := IdentifierTurn(encstr, tchar, dquote, before);
    }
    if slen < 0 && !dquote {
      slen := encstr.pos;
    }
    nextToken := None;
    while tchar != NUL && nextToken.None?
      invariant encstr.Valid() && fresh(encstr) && encstr.encstr == s && encstr.ccsc == ccsc && encstr.pos >= 0
      invariant tchar == At(s, encstr.pos)
      invariant nextToken.None? ==> FirstNonSpace(s, encstr.pos) == FirstNonSpace(s, FindIdentifier(ccsc, s).stop)
      invariant nextToken.Some? ==> nextToken == FirstNonSpace(s, FindIdentifier(ccsc, s).stop)
      decreases |s| - encstr.pos, nextToken.None?
    {
      if !IsSpace(tchar) {
        nextToken := Some(encstr.pos);
      } else {
        tchar := encstr.NextChar();
      }
    }
  }

  /** One turn of the loop, with the read that precedes the next one. */
  method IdentifierTurn(encstr: EncodedStr, tchar0: byte, dquote0: bool, ghost before0: nat)
    returns (tchar: byte, slen: int, dquote: bool, found: bool, ghost before: nat)
    requires encstr.Valid() && NulFree(encstr.encstr) && encstr.pos >= 0
    requires tchar0 == At(encstr.encstr, encstr.pos) && tchar0 != NUL
    requires encstr.ccst == Stat(encstr.ccsc, before0, tchar0) && (encstr.pos == 0 ==> before0 == 0 && !dquote0)
    modifies encstr
    ensures encstr.Valid() && encstr.pos >= 0 && tchar == At(encstr.encstr, encstr.pos)
    ensures !found ==>
              && slen == -1 && encstr.pos > old(encstr.pos) && encstr.ccst == Stat(encstr.ccsc, before, tchar)
              && Ahead(encstr.ccsc, encstr.encstr, encstr.pos, before, dquote)
                 == Ahead(encstr.ccsc, encstr.encstr, old(encstr.pos), before0, dquote0)
    ensures found ==>
              && encstr.pos >= old(encstr.pos) && slen >= 0
              && Ahead(encstr.ccsc, encstr.encstr, old(encstr.pos), before0, dquote0) == Scan(slen, encstr.pos)
  {
    tchar, slen, dquote, found, before := tchar0, -1, dquote0, false, before0;
    ghost var s := encstr.encstr;
    if encstr.IsNonAscii() {
      before := encstr.ccst;
      tchar := encstr.NextChar();
      return;
    }
    if encstr.pos == 0 {
      if tchar == DQUOTE {
        dquote := true;
        before := encstr.ccst;
        tchar := encstr.NextChar();
        return;
      }
      if !IsAlpha(tchar) {
        slen, found := 0, true;
        return;
      }
    }
    if dquote {
      if tchar == DQUOTE {
        before := encstr.ccst;
        tchar := encstr.NextChar();
        if tchar == DQUOTE {
          before := encstr.ccst;
          tchar := encstr.NextChar();
          return;
        }
        slen, found := encstr.pos, true;
        return;
      }
    } else if !IdentifierByte(tchar) {
      slen, found := encstr.pos, true;
      return;
    }
    before := encstr.ccst;
    tchar := encstr.NextChar();
  }

  // ---------------------------------------------------------------- names

  /** A quoted name of `n` bytes without its quotes; `first` marks the opening one. */
  function Unquoted(enc: Encoding, stat: nat, s: seq<byte>, n: nat, first: bool): (r: seq<byte>)
    requires n <= |s|
    ensures |r| <= n
    decreases n
  {
    if n == 0 then []
    else
      var st := Stat(enc, stat, s[0]);
      if st != 0 || s[0] >= 0x80 || s[0] != DQUOTE then [s[0]] + Unquoted(enc, st, s[1..], n - 1, false)
      else if first || n == 1 then Unquoted(enc, st, s[1..], n - 1, false)
      else [s[1]] + Unquoted(enc, Stat(enc, st, s[1]), s[2..], n - 2, false)
  }

  function Lowered(enc: Encoding, stat: nat, s: seq<byte>, n: nat): (r: seq<byte>)
    requires n <= |s|
    ensures |r| == n
    decreases n
  {
    if n == 0 then []
    else
      var st := Stat(enc, stat, s[0]);
      [if st != 0 || s[0] >= 0x80 then s[0] else ToLower(s[0])] + Lowered(enc, st, s[1..], n - 1)
  }

  function NameOf(enc: Encoding, s: seq<byte>, n: nat): seq<byte>
    requires 0 < n <= |s|
  {
    if s[0] == DQUOTE then Unquoted(enc, 0, s, n, true) else Lowered(enc, 0, s, n)
  }

  /** What is still to be written when the byte at `i` has been read after state `before`. */
  ghost function NameRest(enc: Encoding, before: nat, src: seq<byte>, n: nat, i: nat): (r: seq<byte>)
    requires 0 < n <= |src| && i <= n
    ensures |r| <= n - i
  {
    if src[0] == DQUOTE then Unquoted(enc, before, src[i..], n - i, i == 0) else Lowered(enc, before, src[i..], n - i)
  }

  /** `lower_or_remove_dquote` */
  method LowerOrRemoveDquote(src: seq<byte>, srclen: nat, ccsc: Encoding) returns (name: seq<byte>)
    requires 0 < srclen <= |src| && NulFree(src)
    ensures name == NameOf(ccsc, src, srclen)
  {
    var tc := new byte[srclen + 1](i => NUL);
    var idQuote := src[0] == DQUOTE;
    var encstr := new EncodedStr(ccsc, src);
    ghost var before, goal := 0, NameOf(ccsc, src, srclen);
    var i: nat, outlen: nat := 0, 0;
    var tchar := encstr.NextChar();
    assert src[0..] == src;
    while i < srclen
      invariant i <= srclen && outlen <= i && encstr.Valid() && fresh(encstr) && fresh(tc)
      invariant encstr.encstr == src && encstr.ccsc == ccsc && encstr.pos == i
      invariant tchar == At(src, i) && encstr.ccst == Stat(ccsc, before, tchar)
      invariant tc[..outlen] + NameRest(ccsc, before, src, srclen, i) == goal
    {
      i, outlen, tchar, before := NameTurn(encstr, srclen, tc, idQuote, i, outlen, tchar, before, goal);
    }
    name := tc[..outlen];
    tc[outlen] := NUL;
  }

  /** One turn of the loop, with the read that precedes the next one. */
  method NameTurn(encstr: EncodedStr, srclen: nat, tc: array<byte>, idQuote: bool,
                  i0: nat, out0: nat, tchar0: byte, ghost before0: nat, ghost goal: seq<byte>)
    returns (i: nat, outlen: nat, tchar: byte, ghost before: nat)
    requires out0 <= i0 < srclen <= |encstr.encstr| && tc.Length == srclen + 1 && NulFree(encstr.encstr)
    requires encstr.Valid() && encstr.pos == i0 && tchar0 == encstr.encstr[i0]
    requires encstr.ccst == Stat(encstr.ccsc, before0, tchar0) && idQuote == (encstr.encstr[0] == DQUOTE)
    requires tc[..out0] + NameRest(encstr.ccsc, before0, encstr.encstr, srclen, i0) == goal
    modifies encstr, tc
    ensures i0 < i <= srclen && outlen <= i && encstr.Valid() && encstr.pos == i
    ensures tchar == At(encstr.encstr, i) && encstr.ccst == Stat(encstr.ccsc, before, tchar)
    ensures tc[..outlen] + NameRest(encstr.ccsc, before, encstr.encstr, srclen, i) == goal
  {
    i, outlen, tchar, before := i0, out0, tchar0, before0;
    ghost var s := encstr.encstr;
    assert s[i0..][1..] == s[i0 + 1..];
    ghost var c: seq<byte> := [];
    if encstr.IsNonAscii() {
      c := [tchar];
      outlen := PutName(tc, outlen, tchar);
    } else if idQuote {
      var skip := false;
      if tchar == DQUOTE {
        if i == 0 || i == srclen - 1 {
          skip := true;
        } else {
          i := i + 1;
          before := encstr.ccst;
          tchar := encstr.NextChar();
          assert s[i0..][2..] == s[i0 + 2..];
        }
      }
      if !skip {
        c := [tchar];
        outlen := PutName(tc, outlen, tchar);
      }
    } else {
      c := [ToLower(tchar)];
      outlen := PutName(tc, outlen, ToLower(tchar));
    }
    before := encstr.ccst;
    i := i + 1;
    tchar := encstr.NextChar();
    assert NameRest(encstr.ccsc, before0, s, srclen, i0) == c + NameRest(encstr.ccsc, before, s, srclen, i);
    Associative(old(tc[..out0]), c, NameRest(encstr.ccsc, before, s, srclen, i));
  }

  method PutName(tc: array<byte>, at: nat, c: byte) returns (outlen: nat)
    requires at < tc.Length
    modifies tc
    ensures outlen == at + 1 && tc[..outlen] == old(tc[..at]) + [c]
  {
    tc[at] := c;
    outlen := at + 1;
  }

  // ---------------------------------------------------------------- eatTableIdentifiers

  /** The result of `eatTableIdentifiers`: no identifier (0 or -1), the position of the next token,
      or the end of the text, where the C code subtracts from a null pointer. */
  datatype Eaten = Stopped(code: int) | Next(at: nat) | Ended

  datatype Names = Names(ret: Eaten, table: Option<seq<byte>>, schema: Option<seq<byte>>)

  /** A dot follows the identifier of length `slen` immediately. */
  predicate Dotted(s: seq<byte>, next: Option<nat>, slen: int)
    requires next.Some? ==> next.value < |s|
  {
    next.Some? && s[next.value] == DOT && next.value == slen
  }

  function Where(next: Option<nat>, at: nat): Eaten { if next.None? then Ended else Next(at + next.value) }

  /** The identifier after a dot; the name read before it moves to the schema. */
  function EatNext(enc: Encoding, str: seq<byte>, at: nat, table: Option<seq<byte>>, schema: Option<seq<byte>>, more: bool): Names
    requires at <= |str|
    decreases more
  {
    var s := str[at..];
    var f := FindIdentifier(enc, s);
    var next := FirstNonSpace(s, f.stop);
    if f.slen <= 0 then Names(Stopped(-1), table, schema)
    else
      var name := Some(NameOf(enc, s, f.slen));
      if more && Dotted(s, next, f.slen) then EatNext(enc, str, at + f.slen + 1, name, table, false)
      else Names(Where(next, at), name, table)
  }

  /** An unquoted first identifier keeps its case. */
  function FirstName(enc: Encoding, s: seq<byte>, n: nat): seq<byte>
    requires 0 < n <= |s|
  {
    if s[0] == DQUOTE then NameOf(enc, s, n) else s[..n]
  }

  function Eat(enc: Encoding, str: seq<byte>, table: Option<seq<byte>>, schema: Option<seq<byte>>): Names {
    EatFrom(enc, str, SkipSpace(str, 0), table, schema)
  }

  function EatFrom(enc: Encoding, str: seq<byte>, a: nat, table: Option<seq<byte>>, schema: Option<seq<byte>>): Names
    requires a <= |str|
  {
    var s := str[a..];
    var f := FindIdentifier(enc, s);
    var next := FirstNonSpace(s, f.stop);
    if f.slen <= 0 then Names(Stopped(f.slen), table, schema)
    else
      var name := Some(FirstName(enc, s, f.slen));
      if Dotted(s, next, f.slen) then EatNext(enc, str, a + f.slen + 1, name, schema, true)
      else Names(Where(next, a), name, schema)
  }

  class PgName {
    var name: Option<seq<byte>>
  }

  ghost function NameIn(p: PgName?): Option<seq<byte>>
    reads p
  {
    if p == null then None else p.name
  }

  /** What is asked for has been stored. */
  ghost predicate Stored(table: PgName?, schema: PgName?, names: Names)
    reads table, schema
  {
    table != null ==> table.name == names.table && (schema != null ==> schema.name == names.schema)
  }

  /** `eatTableIdentifiers`; either name may be absent. */
  method EatTableIdentifiers(str: seq<byte>, ccsc: Encoding, table: PgName?, schema: PgName?) returns (ret: Eaten)
    requires NulFree(str) && (table == null || table != schema)
    modifies if table == null then {} else {table}, if table == null || schema == null then {} else {schema}
    ensures var was := Eat(ccsc, str, old(NameIn(table)), old(NameIn(schema)));
            ret == was.ret && Stored(table, schema, was)
  {
    var a := 0;
    while a < |str| && IsSpace(str[a])
      invariant a <= |str| && SkipSpace(str, 0) == SkipSpace(str, a)
    {
      a := a + 1;
    }
    assert a == SkipSpace(str, 0);
    ret := EatFirst(str, ccsc, a, table, schema, NameIn(table), NameIn(schema));
  }

  lemma EatNextCases(enc: Encoding, str: seq<byte>, at: nat, t0: Option<seq<byte>>, s0: Option<seq<byte>>, more: bool,
                     len: int, next: Option<nat>)
    requires at <= |str| && len == FindIdentifier(enc, str[at..]).slen
    requires next == FirstNonSpace(str[at..], FindIdentifier(enc, str[at..]).stop)
    ensures len <= 0 ==> EatNext(enc, str, at, t0, s0, more) == Names(Stopped(-1), t0, s0)
    ensures len > 0 ==>
              var name := Some(NameOf(enc, str[at..], len));
              EatNext(enc, str, at, t0, s0, more)
              == if more && Dotted(str[at..], next, len)
                 then EatNext(enc, str, at + len + 1, name, t0, false)
                 else Names(Where(next, at), name, t0)
  {
    hide FindIdentifier, FirstNonSpace, NameOf, SkipSpace;
  }

  lemma EatCases(enc: Encoding, str: seq<byte>, a: nat, t0: Option<seq<byte>>, s0: Option<seq<byte>>,
                 len: int, next: Option<nat>)
    requires a <= |str| && len == FindIdentifier(enc, str[a..]).slen
    requires next == FirstNonSpace(str[a..], FindIdentifier(enc, str[a..]).stop)
    ensures len <= 0 ==> EatFrom(enc, str, a, t0, s0) == Names(Stopped(len), t0, s0)
    ensures len > 0 ==>
              var name := Some(FirstName(enc, str[a..], len));
              EatFrom(enc, str, a, t0, s0)
              == if Dotted(str[a..], next, len)
                 then EatNext(enc, str, a + len + 1, name, s0, true)
                 else Names(Where(next, a), name, s0)
  {
  }

  method EatFirst(str: seq<byte>, ccsc: Encoding, a: nat, table: PgName?, schema: PgName?,
                  ghost t0: Option<seq<byte>>, ghost s0: Option<seq<byte>>) returns (ret: Eaten)
    requires NulFree(str) && (table == null || table != schema) && a <= |str|
    requires Stored(table, schema, Names(Ended, t0, s0))
    modifies if table == null then {} else {table}, if table == null || schema == null then {} else {schema}
    ensures var was := EatFrom(ccsc, str, a, t0, s0); ret == was.ret && Stored(table, schema, was)
  {
    hide EatFrom, EatNext, FindIdentifier, FirstNonSpace;
    var tstr := str[a..];
    var len, next := FindIdentifierIn(tstr, ccsc);
    EatCases(ccsc, str, a, t0, s0, len, next);
    if len <= 0 {
      return Stopped(len);
    }
    StoreFirst(tstr, len, ccsc, table, schema, s0);
    if !Dotted(tstr, next, len) {
      return Where(next, a);
    }
    ghost var name := Some(FirstName(ccsc, tstr, len));
    ret := EatAfterDot(str, ccsc, a + len + 1, table, schema, true, name, s0);
  }

  method StoreFirst(tstr: seq<byte>, len: nat, ccsc: Encoding, table: PgName?, schema: PgName?, ghost s0: Option<seq<byte>>)
    requires NulFree(tstr) && 0 < len <= |tstr| && (table == null || table != schema)
    requires table != null && schema != null ==> schema.name == s0
    modifies if table == null then {} else {table}
    ensures Stored(table, schema, Names(Ended, Some(FirstName(ccsc, tstr, len)), s0))
  {
    if table != null {
      var nm := tstr[..len];
      if tstr[0] == DQUOTE {
        nm := LowerOrRemoveDquote(tstr, len, ccsc);
      }
      table.name := Some(nm);
    }
  }

  /** The name read so far becomes the schema. */
  method StoreNext(tstr: seq<byte>, len: nat, ccsc: Encoding, table: PgName?, schema: PgName?, ghost t0: Option<seq<byte>>)
    requires NulFree(tstr) && 0 < len <= |tstr| && (table == null || table != schema)
    requires table != null ==> table.name == t0
    modifies if table == null then {} else {table}, if table == null || schema == null then {} else {schema}
    ensures Stored(table, schema, Names(Ended, Some(NameOf(ccsc, tstr, len)), t0))
  {
    if table != null {
      if schema != null {
        schema.name, table.name := table.name, None;
      }
      var nm := LowerOrRemoveDquote(tstr, len, ccsc);
      table.name := Some(nm);
    }
  }

  method EatAfterDot(str: seq<byte>, ccsc: Encoding, at: nat, table: PgName?, schema: PgName?, more: bool,
                     ghost t0: Option<seq<byte>>, ghost s0: Option<seq<byte>>) returns (ret: Eaten)
    requires NulFree(str) && at <= |str| && (table == null || table != schema)
    requires Stored(table, schema, Names(Ended, t0, s0))
    modifies if table == null then {} else {table}, if table == null || schema == null then {} else {schema}
    ensures var was := EatNext(ccsc, str, at, t0, s0, more); ret == was.ret && Stored(table, schema, was)
    decreases more
  {
    hide EatNext, FindIdentifier, FirstNonSpace;
    var tstr := str[at..];
    var len, next := FindIdentifierIn(tstr, ccsc);
    EatNextCases(ccsc, str, at, t0, s0, more, len, next);
    if len <= 0 {
      return Stopped(-1);
    }
    StoreNext(tstr, len, ccsc, table, schema, t0);
    if !more || !Dotted(tstr, next, len) {
      return Where(next, at);
    }
    ghost var name := Some(NameOf(ccsc, tstr, len));
    ret := EatAfterDot(str, ccsc, at + len + 1, table, schema, false, name, t0);
  }

  // ---------------------------------------------------------------- round trip

  lemma {:induction false} QuotedAppend(a: seq<byte>, b: seq<byte>)
    ensures Quoted(a + b) == Quoted(a) + Quoted(b)
  {
    if a == [] {
      assert a + b == b;
    } else {
      assert (a + b)[1..] == a[1..] + b;
      QuotedAppend(a[1..], b);
    }
  }

  lemma {:induction false} QuotedNothing(a: seq<byte>)
    requires forall i :: 0 <= i < |a| ==> a[i] != DQUOTE
    ensures Quoted(a) == a
  {
    if a != [] {
      QuotedNothing(a[1..]);
      assert a == [a[0]] + a[1..];
    }
  }

  /** No encoding uses the double quote as a later byte of a character. */
  lemma NoQuoteInside(enc: Encoding, ch: Ch)
    requires WellFormed(enc, ch) && !IsAscii(ch)
    ensures forall i :: 0 <= i < |ch| ==> ch[i] != DQUOTE
  {
    assert forall i :: 1 <= i < |ch| ==> ch[i] == ch[1..][i - 1];
  }

  lemma {:induction false} ScanCopies(enc: Encoding, stat: nat, a: seq<byte>, t: seq<byte>)
    requires AllNonAscii(enc, stat, a)
    ensures ScanQuoted(enc, stat, a + t) == More(|a|, ScanQuoted(enc, StatRun(enc, stat, a), t))
    decreases a
  {
    if a == [] {
      assert a + t == t;
    } else {
      assert (a + t)[1..] == a[1..] + t;
      ScanCopies(enc, Stat(enc, stat, a[0]), a[1..], t);
    }
  }

  lemma {:induction false} UnquotedCopies(enc: Encoding, stat: nat, a: seq<byte>, t: seq<byte>, m: nat)
    requires AllNonAscii(enc, stat, a) && m <= |t|
    ensures Unquoted(enc, stat, a + t, |a| + m, false) == a + Unquoted(enc, StatRun(enc, stat, a), t, m, false)
    decreases a
  {
    if a == [] {
      assert a + t == t;
    } else {
      assert (a + t)[1..] == a[1..] + t;
      UnquotedCopies(enc, Stat(enc, stat, a[0]), a[1..], t, m);
      assert a == [a[0]] + a[1..];
    }
  }

  /** A quoted name from behind its opening quote, and what follows. */
  function Tail(name: seq<byte>, rest: seq<byte>): (t: seq<byte>)
    ensures |t| == |Quoted(name)| + 1 + |rest|
  {
    Quoted(name) + ([DQUOTE] + rest)
  }

  lemma TailSplit(a: seq<byte>, b: seq<byte>, rest: seq<byte>)
    ensures Tail(a + b, rest) == Quoted(a) + Tail(b, rest) && Quoted(a + b) == Quoted(a) + Quoted(b)
  {
    QuotedAppend(a, b);
  }

  /** The reader passes over one character of the name. */
  lemma ReadsChar(enc: Encoding, stat: nat, ch: Ch, t: seq<byte>, m: nat)
    requires AtBoundary(stat) && enc != Johab && WellFormed(enc, ch) && 0 < m <= |t|
    ensures var q, st := Quoted(ch), StatRun(enc, stat, ch);
            && AtBoundary(st) && |q| + m <= |q + t|
            && ScanQuoted(enc, stat, q + t) == More(|q|, ScanQuoted(enc, st, t))
            && Unquoted(enc, stat, q + t, |q| + m, false) == ch + Unquoted(enc, st, t, m, false)
  {
    hide ScanQuoted, Unquoted;
    if IsAscii(ch) {
      AsciiCharPasses(enc, stat, ch[0]);
      AsciiCharPasses(enc, 0, ch[0]);
      hide Stat;
      assert ch == [ch[0]] && ch[1..] == [];
      ReadsAscii(enc, stat, ch[0], t, m);
    } else {
      NoQuoteInside(enc, ch);
      QuotedNothing(ch);
      HighCharPasses(enc, stat, ch);
      ScanCopies(enc, stat, ch, t);
      UnquotedCopies(enc, stat, ch, t, m);
    }
  }

  lemma ReadsAscii(enc: Encoding, stat: nat, c: byte, t: seq<byte>, m: nat)
    requires 0 < c < 0x80 && Stat(enc, stat, c) == 0 && Stat(enc, 0, c) == 0 && 0 < m <= |t|
    ensures var q := Quoted([c]);
            && |q| + m <= |q + t|
            && ScanQuoted(enc, stat, q + t) == More(|q|, ScanQuoted(enc, 0, t))
            && Unquoted(enc, stat, q + t, |q| + m, false) == [c] + Unquoted(enc, 0, t, m, false)
  {
    hide Stat;
    assert [c][1..] == [];
    if c == DQUOTE {
      assert Quoted([c]) == [DQUOTE, DQUOTE];
      ReadsPair(enc, stat, t, m);
    } else {
      assert Quoted([c]) == [c];
      assert ([c] + t)[1..] == t;
    }
  }

  lemma ReadsPair(enc: Encoding, stat: nat, t: seq<byte>, m: nat)
    requires Stat(enc, stat, DQUOTE) == 0 && Stat(enc, 0, DQUOTE) == 0 && 0 < m <= |t|
    ensures ScanQuoted(enc, stat, [DQUOTE, DQUOTE] + t) == More(2, ScanQuoted(enc, 0, t))
    ensures Unquoted(enc, stat, [DQUOTE, DQUOTE] + t, 2 + m, false) == [DQUOTE] + Unquoted(enc, 0, t, m, false)
  {
    hide Stat;
    assert ([DQUOTE, DQUOTE] + t)[2..] == t;
  }

  /** The rest of a quoted name is found and its quotes are removed. */
  ghost predicate Reads(enc: Encoding, stat: nat, name: seq<byte>, rest: seq<byte>) {
    var t, n := Tail(name, rest), |Quoted(name)| + 1;
    ScanQuoted(enc, stat, t) == Some(n) && Unquoted(enc, stat, t, n, false) == name
  }

  lemma ReadsEnd(enc: Encoding, stat: nat, rest: seq<byte>)
    requires AtBoundary(stat) && enc != Johab && (rest != [] ==> rest[0] != DQUOTE)
    ensures Reads(enc, stat, [], rest)
  {
    AsciiCharPasses(enc, stat, DQUOTE);
    hide Stat;
    assert Tail([], rest) == [DQUOTE] + rest;
  }

  lemma ReadsMore(enc: Encoding, stat: nat, ch: Ch, more: seq<byte>, rest: seq<byte>)
    requires AtBoundary(stat) && enc != Johab && WellFormed(enc, ch)
    requires Reads(enc, StatRun(enc, stat, ch), more, rest)
    ensures Reads(enc, stat, ch + more, rest)
  {
    hide ScanQuoted, Unquoted, Stat, StatRun, WellFormed, Quoted;
    TailSplit(ch, more, rest);
    ReadsChar(enc, stat, ch, Tail(more, rest), |Quoted(more)| + 1);
  }

  lemma {:induction false} ReadsName(enc: Encoding, stat: nat, chars: seq<Ch>, rest: seq<byte>)
    requires AtBoundary(stat) && enc != Johab && AllWellFormed(enc, chars) && (rest != [] ==> rest[0] != DQUOTE)
    ensures Reads(enc, stat, Flat(chars), rest)
    decreases chars
  {
    hide Reads, Stat;
    if chars == [] {
      ReadsEnd(enc, stat, rest);
    } else {
      CharPasses(enc, stat, chars[0]);
      ReadsName(enc, StatRun(enc, stat, chars[0]), chars[1..], rest);
      ReadsMore(enc, stat, chars[0], Flat(chars[1..]), rest);
    }
  }

  /** A quoted name is one identifier, and removing its quotes gives the name. */
  lemma ReadsQuoted(enc: Encoding, chars: seq<Ch>, rest: seq<byte>)
    requires enc != Johab && AllWellFormed(enc, chars) && (rest != [] ==> rest[0] != DQUOTE)
    ensures var q := [DQUOTE] + Quoted(Flat(chars)) + [DQUOTE];
            && FindIdentifier(enc, q + rest) == Scan(|q|, |q|)
            && NameOf(enc, q + rest, |q|) == Flat(chars)
  {
    var q := [DQUOTE] + Quoted(Flat(chars)) + [DQUOTE];
    assert q + rest == [DQUOTE] + Tail(Flat(chars), rest);
    assert ([DQUOTE] + Tail(Flat(chars), rest))[1..] == Tail(Flat(chars), rest);
    AsciiCharPasses(enc, 0, DQUOTE);
    ReadsName(enc, 0, chars, rest);
  }

  lemma {:induction false} NonSpaceShift(a: seq<byte>, s: seq<byte>, p: nat)
    requires p <= |s|
    ensures FirstNonSpace(a + s, |a| + p) == More(|a|, FirstNonSpace(s, p))
    decreases |s| - p
  {
    if p < |s| && IsSpace(s[p]) {
      NonSpaceShift(a, s, p + 1);
    }
  }

  lemma {:induction false} SpacesSkipped(spaces: seq<byte>, s: seq<byte>, p: nat)
    requires p <= |spaces| && (forall i :: 0 <= i < |spaces| ==> IsSpace(spaces[i])) && s != [] && !IsSpace(s[0])
    ensures FirstNonSpace(spaces + s, p) == Some(|spaces|)
    decreases |spaces| - p
  {
    if p < |spaces| {
      SpacesSkipped(spaces, s, p + 1);
    }
  }

  /** The name is copied completely: its last character is met below the limit. */
  predicate Fits(name: seq<byte>, i: nat, limit: int) {
    name == [] || i + |Quoted(name[..|name| - 1])| < limit
  }

  lemma {:induction false} FitsExactly(name: seq<byte>, i: nat, limit: int)
    ensures Kept(name, i, limit) == |name| <==> Fits(name, i, limit)
    decreases name
  {
    if name != [] {
      var j := if name[0] == DQUOTE then i + 2 else i + 1;
      FitsExactly(name[1..], j, limit);
      if |name| > 1 {
        assert name[..|name| - 1][1..] == name[1..][..|name| - 2];
      }
    }
  }

  lemma PartComplete(name: seq<byte>, i: nat, limit: int)
    requires Fits(name, i + 1, limit)
    ensures QuotedPart(name, i, limit) == [DQUOTE] + Quoted(name) + [DQUOTE]
  {
    hide Quoted, Kept;
    FitsExactly(name, i + 1, limit);
    assert name[..|name|] == name;
  }

  predicate FitsBuffer(schema: Option<seq<byte>>, table: seq<byte>, bufSize: nat) {
    && (schema.Some? ==> Fits(schema.value, 1, bufSize - 6))
    && Fits(table, |SchemaPart(schema, bufSize)| + 1, bufSize - 3)
  }

  function FlatName(name: Option<seq<Ch>>): Option<seq<byte>> {
    if name.None? then None else Some(Flat(name.value))
  }

  function QuotedName(chars: seq<Ch>): seq<byte> { [DQUOTE] + Quoted(Flat(chars)) + [DQUOTE] }

  /** A quoted name at `a`, followed by no dot. */
  lemma EatsLast(enc: Encoding, str: seq<byte>, a: nat, chars: seq<Ch>, rest: seq<byte>,
                 t0: Option<seq<byte>>, s0: Option<seq<byte>>)
    requires enc != Johab && AllWellFormed(enc, chars) && a <= |str| && str[a..] == QuotedName(chars) + rest
    requires rest != [] ==> rest[0] != DQUOTE && rest[0] != DOT
    ensures var ret := Where(FirstNonSpace(rest, 0), a + |QuotedName(chars)|);
            && EatFrom(enc, str, a, t0, s0) == Names(ret, Some(Flat(chars)), s0)
            && EatNext(enc, str, a, t0, s0, true) == Names(ret, Some(Flat(chars)), t0)
  {
    hide EatFrom, EatNext, ScanQuoted, Unquoted;
    var q := QuotedName(chars);
    ReadsQuoted(enc, chars, rest);
    NonSpaceShift(q, rest, 0);
    var next := FirstNonSpace(q + rest, |q|);
    assert rest != [] ==> (q + rest)[|q|] == rest[0];
    EatCases(enc, str, a, t0, s0, |q|, next);
    EatNextCases(enc, str, a, t0, s0, true, |q|, next);
  }

  /** A quoted name at `a`, followed by a dot. */
  lemma EatsSchema(enc: Encoding, str: seq<byte>, a: nat, chars: seq<Ch>, rest: seq<byte>,
                   t0: Option<seq<byte>>, s0: Option<seq<byte>>)
    requires enc != Johab && AllWellFormed(enc, chars) && a <= |str| && str[a..] == QuotedName(chars) + ([DOT] + rest)
    ensures EatFrom(enc, str, a, t0, s0)
         == EatNext(enc, str, a + |QuotedName(chars)| + 1, Some(Flat(chars)), s0, true)
  {
    hide EatFrom, EatNext, ScanQuoted, Unquoted;
    var q := QuotedName(chars);
    var s := q + ([DOT] + rest);
    ReadsQuoted(enc, chars, [DOT] + rest);
    assert s[|q|] == DOT && FirstNonSpace(s, |q|) == Some(|q|);
    EatCases(enc, str, a, t0, s0, |q|, Some(|q|));
  }

  lemma EatsBoth(enc: Encoding, str: seq<byte>, a: nat, schema: seq<Ch>, table: seq<Ch>, rest: seq<byte>,
                 t0: Option<seq<byte>>, s0: Option<seq<byte>>)
    requires enc != Johab && AllWellFormed(enc, table) && AllWellFormed(enc, schema) && a <= |str|
    requires str[a..] == QuotedName(schema) + [DOT] + QuotedName(table) + rest
    requires rest != [] ==> rest[0] != DQUOTE && rest[0] != DOT
    ensures EatFrom(enc, str, a, t0, s0)
         == Names(Where(FirstNonSpace(rest, 0), a + |QuotedName(schema)| + 1 + |QuotedName(table)|),
                  Some(Flat(table)), Some(Flat(schema)))
  {
    hide *;
    var k := |QuotedName(schema)| + 1;
    assert str[a..] == QuotedName(schema) + ([DOT] + (QuotedName(table) + rest));
    var r := EatNext(enc, str, a + k, Some(Flat(schema)), s0, true);
    assert EatFrom(enc, str, a, t0, s0) == r by {
      EatsSchema(enc, str, a, schema, QuotedName(table) + rest, t0, s0);
    }
    assert str[a + k..] == str[a..][k..] == QuotedName(table) + rest;
    assert r == Names(Where(FirstNonSpace(rest, 0), a + k + |QuotedName(table)|), Some(Flat(table)), Some(Flat(schema))) by {
      EatsLast(enc, str, a + k, table, rest, Some(Flat(schema)), s0);
    }
  }

  lemma SpacesFirst(enc: Encoding, spaces: seq<byte>, s: seq<byte>, t0: Option<seq<byte>>, s0: Option<seq<byte>>)
    requires (forall i :: 0 <= i < |spaces| ==> IsSpace(spaces[i])) && s != [] && s[0] == DQUOTE
    ensures Eat(enc, spaces + s, t0, s0) == EatFrom(enc, spaces + s, |spaces|, t0, s0)
  {
    hide EatFrom;
    SpacesSkipped(spaces, s, 0);
  }

  /** Names that fit are quoted completely. */
  lemma QuoteTableComplete(schema: Option<seq<Ch>>, table: seq<Ch>, bufSize: nat)
    requires FitsBuffer(FlatName(schema), Flat(table), bufSize)
    ensures QuoteTable(FlatName(schema), Flat(table), bufSize)
         == if schema.None? then QuotedName(table) else QuotedName(schema.value) + [DOT] + QuotedName(table)
    ensures QuoteTable(FlatName(schema), Flat(table), bufSize) != []
    ensures QuoteTable(FlatName(schema), Flat(table), bufSize)[0] == DQUOTE
    ensures FlatName(schema) == if schema.None? then None else Some(Flat(schema.value))
  {
    hide Flat, Quoted, QuotedPart, Fits;
    PartComplete(Flat(table), |SchemaPart(FlatName(schema), bufSize)|, bufSize - 3);
    if schema.Some? {
      PartComplete(Flat(schema.value), 0, bufSize - 6);
    }
  }

  /** Quoted names round trip: wherever `quote_table`'s output stands (after spaces, before anything
      but a quote or a dot), `eatTableIdentifiers` reads exactly the schema and table names, embedded
      double quotes included, and goes on behind the output. */
  lemma QuotedNameRoundTrip(enc: Encoding, schema: Option<seq<Ch>>, table: seq<Ch>, bufSize: nat,
                            spaces: seq<byte>, rest: seq<byte>, t0: Option<seq<byte>>, s0: Option<seq<byte>>)
    requires enc != Johab && AllWellFormed(enc, table) && (schema.Some? ==> AllWellFormed(enc, schema.value))
    requires FitsBuffer(FlatName(schema), Flat(table), bufSize)
    requires forall i :: 0 <= i < |spaces| ==> IsSpace(spaces[i])
    requires rest != [] ==> rest[0] != DQUOTE && rest[0] != DOT
    ensures var q := QuoteTable(FlatName(schema), Flat(table), bufSize);
            Eat(enc, spaces + (q + rest), t0, s0)
            == Names(Where(FirstNonSpace(rest, 0), |spaces| + |q|),
                     Some(Flat(table)), if schema.Some? then FlatName(schema) else s0)
  {
    hide *;
    var q := QuoteTable(FlatName(schema), Flat(table), bufSize);
    QuoteTableComplete(schema, table, bufSize);
    var str := spaces + (q + rest);
    assert str[|spaces|..] == q + rest;
    SpacesFirst(enc, spaces, q + rest, t0, s0);
    if schema.None? {
      EatsLast(enc, str, |spaces|, table, rest, t0, s0);
    } else {
      EatsBoth(enc, str, |spaces|, schema.value, table, rest, t0, s0);
    }
  }
}
