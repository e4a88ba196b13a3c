/**
 Connection strings: brace-quoted values (`makeBracketConnectString`, `decode_or_remove_braces`),
 percent encoding (`encode`, `decode`) and the parser that cuts the string up in place
 (`dconn_get_attributes`).
 */
module ConnectString {
  import opened CBytes
  import HexBytea

  // ---------------------------------------------------------------- what the parser finds

  datatype Pair = Pair(attribute: seq<byte>, value: seq<byte>)

  /** Position of the first `c` in `from..to`. */
  function FindByte(s: seq<byte>, c: byte, from: nat, to: nat): (i: Option<nat>)
    requires to <= |s|
    ensures i.Some? ==> from <= i.value < to && s[i.value] == c
    decreases if from < to then to - from else 0
  {
    if from >= to then None else if s[from] == c then Some(from) else FindByte(s, c, from + 1, to)
  }

  function SkipDelims(s: seq<byte>, p: nat): (q: nat)
    requires p <= |s|
    ensures p <= q <= |s|
    decreases |s| - p
  {
    if p < |s| && s[p] == SEMICOLON then SkipDelims(s, p + 1) else p
  }

  function TokenEnd(s: seq<byte>, q: nat): (e: nat)
    requires q <= |s|
    ensures q <= e <= |s| && (e < |s| ==> s[e] == SEMICOLON)
  {
    var e := FindByte(s, SEMICOLON, q, |s|);
    if e.Some? then e.value else |s|
  }

  /** Where a braced value ends: at a delimiter, past the end of the string, or nowhere. */
  datatype Close = Closed(delim: nat) | Overrun | Bad

  /** The search for the closing brace from `valuen`. `delp` is the delimiter found too early, as
      long as the search has not passed it. */
  function FindClose(s: seq<byte>, valuen: nat, delp: Option<nat>): (r: Close)
    requires delp.Some? ==> valuen <= delp.value < |s| && s[delp.value] == SEMICOLON
    ensures r.Closed? ==> valuen < r.delim <= |s|
    decreases |s| - valuen
  {
    if valuen >= |s| then Overrun
    else
      var near := FindByte(s, RBRACE, valuen, if delp.Some? then delp.value else |s|);
      if near.Some? then AfterBrace(s, near.value, delp)
      else if delp.None? then Bad
      else
        var far := FindByte(s, RBRACE, delp.value + 1, |s|);
        if far.None? then Bad else AfterBrace(s, far.value, None)
  }

  function AfterBrace(s: seq<byte>, closep: nat, delp: Option<nat>): (r: Close)
    requires closep < |s|
    requires delp.Some? ==> closep < delp.value < |s| && s[delp.value] == SEMICOLON
    ensures r.Closed? ==> closep < r.delim <= |s|
    decreases |s| - closep, 0
  {
    if closep + 1 == |s| || s[closep + 1] == SEMICOLON then Closed(closep + 1)
    else if s[closep + 1] != RBRACE then Bad
    else FindClose(s, closep + 2, if delp == Some(closep + 2) then None else delp)
  }

  /** How the loop goes on: from a position, not at all, or with an error. */
  datatype Outcome = Go(at: nat) | End | Fail

  /** One turn of the parser's loop: at most one pair is handed to the copy function. */
  datatype Turn = Turn(call: Option<Pair>, outcome: Outcome)

  function OneTurn(s: seq<byte>, p: nat): (t: Turn)
    requires p <= |s|
    ensures t.outcome.Go? ==> p < t.outcome.at <= |s|
  {
    var q := SkipDelims(s, p);
    if q == |s| then Turn(None, End)
    else
      var e := TokenEnd(s, q);
      var equals := FindByte(s, EQUALS, q, e);
      if equals.None? then Turn(None, Go(AfterToken(s, e)))
      else ReadValue(s, s[q..equals.value], equals.value + 1, e)
  }

  function AfterToken(s: seq<byte>, e: nat): (p: nat)
    requires e <= |s|
    ensures e <= p <= |s| && (e < |s| ==> e < p)
  {
    if e < |s| then e + 1 else |s|
  }

  /** The value that starts at `v` in a token that ends at `e`. */
  function ReadValue(s: seq<byte>, attribute: seq<byte>, v: nat, e: nat): (t: Turn)
    requires 0 < v <= e <= |s| && (e < |s| ==> s[e] == SEMICOLON)
    ensures t.outcome.Go? ==> v <= t.outcome.at <= |s|
  {
    if v == e || s[v] != LBRACE then Turn(Some(Pair(attribute, s[v..e])), Go(AfterToken(s, e)))
    else if e == |s| then Turn(Some(Pair(attribute, s[v..])), End)
    else if FindByte(s, RBRACE, v, e) == Some(e - 1) then Turn(Some(Pair(attribute, s[v..e])), Go(e + 1))
    else
      match FindClose(s, v, Some(e))
      case Bad => Turn(None, Fail)
      case Overrun => Turn(Some(Pair(attribute, s[v..])), Go(e + 1))
      case Closed(d) => Turn(Some(Pair(attribute, s[v..d])), if d + 2 >= |s| then End else Go(d + 1))
  }

  datatype Parsed = Parsed(ok: bool, calls: seq<Pair>)

  /** The pairs from `p` on, read off the unchanged string. */
  function Parse(s: seq<byte>, p: nat): Parsed
    requires p <= |s|
    decreases |s| - p
  {
    var t := OneTurn(s, p);
    Follow(t.call, match t.outcome
                   case Go(at) => Parse(s, at)
                   case End => Parsed(true, [])
                   case Fail => Parsed(false, []))
  }

  function Calls(call: Option<Pair>): seq<Pair> { if call.None? then [] else [call.value] }

  function Follow(call: Option<Pair>, r: Parsed): Parsed { Parsed(r.ok, Calls(call) + r.calls) }

  // ---------------------------------------------------------------- the parser, in place

  /** The buffer holds `s` from `from` on, except for a terminator at `delp`. */
  ghost predicate Cut(m: seq<byte>, s: seq<byte>, from: nat, delp: Option<nat>) {
    && |m| == |s| + 1 && m[|s|] == NUL
    && forall k :: from <= k < |s| ==> m[k] == if delp == Some(k) then NUL else s[k]
  }

  function StrChrOf(m: seq<byte>, from: nat, c: byte): (i: Option<nat>)
    requires from < |m| && m[|m| - 1] == NUL
    ensures i.Some? ==> from <= i.value < |m| && m[i.value] == c
    decreases |m| - from
  {
    if m[from] == c then Some(from)
    else if m[from] == NUL then None
    else StrChrOf(m, from + 1, c)
  }

  method StrChr(buf: array<byte>, from: nat, c: byte) returns (i: Option<nat>)
    requires from < buf.Length && buf[buf.Length - 1] == NUL
    ensures i == StrChrOf(buf[..], from, c)
  {
    var p := from;
    while buf[p] != NUL && buf[p] != c
      invariant p < buf.Length && StrChrOf(buf[..], p, c) == StrChrOf(buf[..], from, c)
      decreases buf.Length - p
    {
      p := p + 1;
    }
    return if buf[p] == c then Some(p) else None;
  }

  function Limit(s: seq<byte>, delp: Option<nat>): nat { if delp.Some? then delp.value else |s| }

  lemma {:induction false} StrChrFinds(m: seq<byte>, s: seq<byte>, from: nat, delp: Option<nat>, c: byte, p: nat)
    requires NulFree(s) && from <= p <= Limit(s, delp) <= |s| && Cut(m, s, from, delp) && c != NUL
    ensures StrChrOf(m, p, c) == FindByte(s, c, p, Limit(s, delp))
    ensures StrChrOf(m, p, NUL) == Some(Limit(s, delp))
    decreases Limit(s, delp) - p
  {
    if p < Limit(s, delp) {
      StrChrFinds(m, s, from, delp, c, p + 1);
    }
  }

  /** `strtok_r` with the delimiter `;`: the token found is cut off in the buffer. */
  method StrTok(buf: array<byte>, ghost s: seq<byte>, start: nat) returns (pair: Option<nat>, last: nat)
    requires NulFree(s) && start <= |s| && Cut(buf[..], s, start, None)
    modifies buf
    ensures var q := SkipDelims(s, start);
            if q == |s| then pair == None && last == q && buf[..] == old(buf[..])
            else
              var e := TokenEnd(s, q);
              pair == Some(q) && last == AfterToken(s, e) && Cut(buf[..], s, start, if e < |s| then Some(e) else None)
  {
    var p := start;
    while buf[p] == SEMICOLON
      invariant start <= p <= |s| && SkipDelims(s, p) == SkipDelims(s, start)
      decreases |s| - p
    {
      p := p + 1;
    }
    if buf[p] == NUL {
      return None, p;
    }
    pair := Some(p);
    while buf[p] != NUL && buf[p] != SEMICOLON
      invariant start <= p <= |s| && pair.value <= p
      invariant FindByte(s, SEMICOLON, p, |s|) == FindByte(s, SEMICOLON, pair.value, |s|)
      decreases |s| - p
    {
      p := p + 1;
    }
    if buf[p] == NUL {
      return pair, p;
    }
    buf[p] := NUL;
    last := p + 1;
  }

  /** The loop that corrects a misdetected delimiter `delp0` of a value that starts with a brace. */
  method FindCloseIn(buf: array<byte>, ghost s: seq<byte>, value: nat, delp0: nat) returns (r: Close)
    requires NulFree(s) && value < delp0 < |s| && delp0 == TokenEnd(s, value) && Cut(buf[..], s, value, Some(delp0))
    modifies buf
    ensures r == FindClose(s, value, Some(delp0))
    ensures r.Closed? ==> Cut(buf[..], s, value, if r.delim < |s| then Some(r.delim) else None)
    ensures r.Overrun? ==> Cut(buf[..], s, value, None)
  {
    var termp := buf.Length - 1;
    var valuen, delp := value, Some(delp0);
    while valuen < termp
      invariant value <= valuen <= termp == |s| && Cut(buf[..], s, value, delp)
      invariant delp.Some? ==> delp.value == delp0 && valuen <= delp0
      invariant FindClose(s, valuen, delp) == FindClose(s, value, Some(delp0))
      decreases termp - valuen
    {
      var done;
      done, r, valuen, delp := CloseTurn(buf, s, value, delp0, valuen, delp);
      if done {
        return;
      }
    }
    r := Overrun;
  }

  /** One turn: restore the delimiter when the brace lies behind it, pass a doubled brace, or stop. */
  method CloseTurn(buf: array<byte>, ghost s: seq<byte>, ghost value: nat, ghost delp0: nat, valuen0: nat, delimiter: Option<nat>)
    returns (done: bool, r: Close, valuen: nat, delp: Option<nat>)
    requires NulFree(s) && value <= valuen0 < |s| && value <= delp0 < |s| && delp0 == TokenEnd(s, value)
    requires Cut(buf[..], s, value, delimiter)
    requires delimiter.Some? ==> delimiter.value == delp0 && valuen0 <= delp0
    modifies buf
    ensures done ==>
              && r == FindClose(s, valuen0, delimiter) && !r.Overrun?
              && (r.Closed? ==> Cut(buf[..], s, value, if r.delim < |s| then Some(r.delim) else None))
    ensures !done ==>
              && valuen0 < valuen <= |s| && Cut(buf[..], s, value, delp)
              && (delp.Some? ==> delp.value == delp0 && valuen <= delp0)
              && FindClose(s, valuen, delp) == FindClose(s, valuen0, delimiter)
  {
    done, r, valuen, delp := true, Bad, valuen0, delimiter;
    StrChrFinds(buf[..], s, value, delp, RBRACE, valuen0);
    var closep := StrChr(buf, valuen0, RBRACE);
    if closep.None? {
      if delp.None? {
        return;
      }
      closep, delp := RestoreDelimiter(buf, s, value, delp.value);
      if closep.None? {
        return;
      }
    }
    done, r, valuen, delp := PassBrace(buf, s, value, delp0, closep.value, delp);
  }

  method RestoreDelimiter(buf: array<byte>, ghost s: seq<byte>, ghost value: nat, delp: nat)
    returns (closep: Option<nat>, delimiter: Option<nat>)
    requires NulFree(s) && value <= delp < |s| && s[delp] == SEMICOLON && Cut(buf[..], s, value, Some(delp))
    modifies buf
    ensures closep == FindByte(s, RBRACE, delp + 1, |s|) && (closep.Some? ==> delimiter == None && Cut(buf[..], s, value, None))
  {
    assert Cut(buf[..], s, delp + 1, None);
    StrChrFinds(buf[..], s, delp + 1, None, RBRACE, delp + 1);
    closep := StrChr(buf, delp + 1, RBRACE);
    delimiter := Some(delp);
    if closep.Some? {
      buf[delp] := SEMICOLON;
      delimiter := None;
    }
  }

  /** Nothing before the token's end is a delimiter. */
  lemma {:induction false} NoDelimiter(s: seq<byte>, q: nat, k: nat)
    requires q <= |s| && q <= k < TokenEnd(s, q)
    ensures s[k] != SEMICOLON
    decreases k - q
  {
    if q < k {
      NoDelimiter(s, q + 1, k);
    }
  }

  method PassBrace(buf: array<byte>, ghost s: seq<byte>, ghost value: nat, ghost delp0: nat, closep: nat, delimiter: Option<nat>)
    returns (done: bool, r: Close, valuen: nat, delp: Option<nat>)
    requires NulFree(s) && value <= closep < |s| && value <= delp0 < |s| && delp0 == TokenEnd(s, value)
    requires Cut(buf[..], s, value, delimiter)
    requires delimiter.Some? ==> delimiter.value == delp0 && closep < delp0
    modifies buf
    ensures done ==>
              && r == AfterBrace(s, closep, delimiter) && !r.Overrun?
              && (r.Closed? ==> Cut(buf[..], s, value, if r.delim < |s| then Some(r.delim) else None))
    ensures !done ==>
              && closep + 2 == valuen <= |s| && Cut(buf[..], s, value, delp)
              && (delp.Some? ==> delp.value == delp0 && valuen <= delp0)
              && FindClose(s, valuen, delp) == AfterBrace(s, closep, delimiter)
  {
    done, r, valuen, delp := true, Bad, closep, delimiter;
    if delp.Some? && closep + 1 < delp.value {
      NoDelimiter(s, value, closep + 1);
    }
    if buf[closep + 1] == RBRACE {
      done, valuen := false, closep + 2;
      if delp == Some(valuen) {
        buf[valuen] := SEMICOLON;
        delp := None;
      }
    } else if buf[closep + 1] == SEMICOLON || buf[closep + 1] == NUL || delp == Some(closep + 1) {
      buf[closep + 1] := NUL;
      r := Closed(closep + 1);
    }
  }

  /** One turn of the loop, from the position strtok goes on at. */
  method OnePair(buf: array<byte>, ghost s: seq<byte>, start: nat) returns (t: Turn)
    requires NulFree(s) && start <= |s| && Cut(buf[..], s, start, None)
    modifies buf
    ensures t == OneTurn(s, start)
    ensures t.outcome.Go? ==> Cut(buf[..], s, t.outcome.at, None)
  {
    hide FindByte, StrChrOf, ReadValue, SkipDelims;
    var pair, last := StrTok(buf, s, start);
    if pair.None? {
      return Turn(None, End);
    }
    ghost var q := pair.value;
    ghost var e := TokenEnd(s, q);
    StrChrFinds(buf[..], s, start, if e < |s| then Some(e) else None, EQUALS, q);
    var equals := StrChr(buf, pair.value, EQUALS);
    if equals.None? {
      return Turn(None, Go(last));
    }
    var attribute := buf[pair.value..equals.value];
    CutSlice(buf[..], s, start, if e < |s| then Some(e) else None, q, equals.value);
    buf[equals.value] := NUL;
    TokenEndFrom(s, q, equals.value + 1);
    t := CopyValue(buf, s, attribute, equals.value + 1, last, e);
  }

  /** Before the cut the buffer is the string. */
  lemma CutSlice(m: seq<byte>, s: seq<byte>, start: nat, delp: Option<nat>, q: nat, end: nat)
    requires Cut(m, s, start, delp) && start <= q <= end <= |s| && (delp.Some? ==> end <= delp.value)
    ensures m[q..end] == s[q..end]
  {
  }

  lemma {:induction false} TokenEndFrom(s: seq<byte>, q: nat, v: nat)
    requires q <= |s| && q <= v <= TokenEnd(s, q)
    ensures TokenEnd(s, v) == TokenEnd(s, q)
    decreases v - q
  {
    if q < v {
      TokenEndFrom(s, q + 1, v);
    }
  }

  method CopyValue(buf: array<byte>, ghost s: seq<byte>, attribute: seq<byte>, v: nat, last: nat, ghost e: nat) returns (t: Turn)
    requires NulFree(s) && 0 < v <= |s| && v <= e == TokenEnd(s, v) && last == AfterToken(s, e)
    requires Cut(buf[..], s, v, if e < |s| then Some(e) else None)
    modifies buf
    ensures t == ReadValue(s, attribute, v, e)
    ensures t.outcome.Go? ==> Cut(buf[..], s, t.outcome.at, None)
  {
    var termp := buf.Length - 1;
    ghost var delimiter := if e < |s| then Some(e) else None;
    StrChrFinds(buf[..], s, v, delimiter, RBRACE, v);
    if buf[v] == LBRACE {
      var delp := StrChr(buf, v, NUL);
      if delp.value >= termp {
        assert buf[v..delp.value] == s[v..];
        return Turn(Some(Pair(attribute, buf[v..delp.value])), End);
      }
      var closep := StrChr(buf, v, RBRACE);
      if closep.None? || buf[closep.value + 1] != NUL {
        t := CopyBraced(buf, s, attribute, v, last, e, delp.value);
        return;
      }
    }
    var end := StrChr(buf, v, NUL);
    assert buf[v..end.value] == s[v..e];
    t := Turn(Some(Pair(attribute, buf[v..end.value])), Go(last));
  }

  method CopyBraced(buf: array<byte>, ghost s: seq<byte>, attribute: seq<byte>, v: nat, last: nat, ghost e: nat, delp: nat)
    returns (t: Turn)
    requires NulFree(s) && 0 < v <= |s| && v < e == TokenEnd(s, v) && e < |s| && delp == e && last == e + 1
    requires s[v] == LBRACE && FindByte(s, RBRACE, v, e) != Some(e - 1)
    requires Cut(buf[..], s, v, Some(e))
    modifies buf
    ensures t == ReadValue(s, attribute, v, e)
    ensures t.outcome.Go? ==> Cut(buf[..], s, t.outcome.at, None)
  {
    hide FindClose, AfterBrace, FindByte, StrChrOf, TokenEnd;
    var termp := buf.Length - 1;
    var r := FindCloseIn(buf, s, v, delp);
    if r.Bad? {
      return Turn(None, Fail);
    }
    ghost var delimiter := if r.Closed? && r.delim < |s| then Some(r.delim) else None;
    StrChrFinds(buf[..], s, v, delimiter, RBRACE, v);
    var end := StrChr(buf, v, NUL);
    assert buf[v..end.value] == s[v..Limit(s, delimiter)];
    assert s[v..|s|] == s[v..];
    var strtokArg := if r.Closed? then r.delim + 1 else last;
    t := Turn(Some(Pair(attribute, buf[v..end.value])),
              if r.Closed? && strtokArg + 1 >= termp then End else Go(strtokArg));
  }

  /** `dconn_get_attributes`: the pairs handed to the copy function, in order, and the result. */
  method DconnGetAttributes(connectString: seq<byte>) returns (ret: bool, calls: seq<Pair>)
    requires NulFree(connectString)
    ensures Parsed(ret, calls) == Parse(connectString, 0)
  {
    var termp := |connectString|;
    var buf := new byte[termp + 1](i => if 0 <= i < termp then connectString[i] else NUL);
    var strtokArg := 0;
    calls := [];
    while true
      invariant strtokArg <= termp == |connectString| && fresh(buf) && Cut(buf[..], connectString, strtokArg, None)
      invariant Ahead(calls, Parse(connectString, strtokArg)) == Parse(connectString, 0)
      decreases termp - strtokArg
    {
      var t := OnePair(buf, connectString, strtokArg);
      AheadTurn(calls, connectString, strtokArg);
      calls := calls + Calls(t.call);
      match t.outcome
      case Go(at) => strtokArg := at;
      case End => return true, calls;
      case Fail => return false, calls;
    }
  }

  function Ahead(calls: seq<Pair>, r: Parsed): Parsed { Parsed(r.ok, calls + r.calls) }

  lemma AheadTurn(calls: seq<Pair>, s: seq<byte>, p: nat)
    requires p <= |s|
    ensures var t := OneTurn(s, p);
            Ahead(calls, Parse(s, p))
            == Ahead(calls + Calls(t.call), match t.outcome
                                            case Go(at) => Parse(s, at)
                                            case End => Parsed(true, [])
                                            case Fail => Parsed(false, []))
  {
    hide OneTurn;
    var t := OneTurn(s, p);
    var rest := match t.outcome
      case Go(at) => Parse(s, at)
      case End => Parsed(true, [])
      case Fail => Parsed(false, []);
    assert calls + (Calls(t.call) + rest.calls) == calls + Calls(t.call) + rest.calls;
  }

  // ---------------------------------------------------------------- braces

  function DoubledBraces(value: seq<byte>): seq<byte> {
    if value == [] then []
    else (if value[0] == RBRACE then [RBRACE, RBRACE] else [value[0]]) + DoubledBraces(value[1..])
  }

  function Braced(value: seq<byte>): seq<byte> { [LBRACE] + DoubledBraces(value) + [RBRACE] }

  /** `makeBracketConnectString`: nothing for an empty or missing value. */
  method MakeBracketConnectString(item: Option<seq<byte>>, optname: seq<byte>) returns (str: seq<byte>)
    requires (item.Some? ==> NulFree(item.value)) && |optname| <= 25
    ensures str == if item.None? || item.value == [] then [] else optname + [EQUALS] + Braced(item.value) + [SEMICOLON]
  {
    if item.None? || item.value == [] {
      return [];
    }
    var istr := item.value;
    var len := CountBytes(istr);
    var buf := new byte[len + 30](i => NUL);
    var optr := CopyBytes(buf, 0, optname + [EQUALS, LBRACE]);
    ghost var head := optname + [EQUALS, LBRACE];
    assert buf[..optr] == head;
    optr := CopyDoubling(buf, optr, istr);
    optr := CopyBytes(buf, optr, [RBRACE, SEMICOLON]);
    buf[optr] := NUL;
    str := buf[..optr];
    assert str == head + DoubledBraces(istr) + [RBRACE, SEMICOLON];
    assert head + DoubledBraces(istr) + [RBRACE, SEMICOLON] == optname + [EQUALS] + Braced(istr) + [SEMICOLON];
  }

  method CopyBytes(buf: array<byte>, at: nat, s: seq<byte>) returns (optr: nat)
    requires at + |s| <= buf.Length
    modifies buf
    ensures optr == at + |s| && buf[..optr] == old(buf[..at]) + s
  {
    optr := at;
    while optr < at + |s|
      invariant at <= optr <= at + |s| && buf[..optr] == old(buf[..at]) + s[..optr - at]
    {
      buf[optr] := s[optr - at];
      optr := optr + 1;
    }
    assert s[..|s|] == s;
  }

  method CopyDoubling(buf: array<byte>, at: nat, istr: seq<byte>) returns (optr: nat)
    requires at + |DoubledBraces(istr)| <= buf.Length
    modifies buf
    ensures optr == at + |DoubledBraces(istr)| && buf[..optr] == old(buf[..at]) + DoubledBraces(istr)
  {
    optr := at;
    var iptr := 0;
    assert istr[0..] == istr;
    while iptr < |istr|
      invariant iptr <= |istr| && optr + |DoubledBraces(istr[iptr..])| == at + |DoubledBraces(istr)|
      invariant buf[..optr] + DoubledBraces(istr[iptr..]) == old(buf[..at]) + DoubledBraces(istr)
    {
      ghost var before := buf[..optr];
      assert istr[iptr..][1..] == istr[iptr + 1..];
      ghost var out := if istr[iptr] == RBRACE then [RBRACE, RBRACE] else [istr[iptr]];
      if istr[iptr] == RBRACE {
        buf[optr] := istr[iptr];
        optr := optr + 1;
      }
      buf[optr] := istr[iptr];
      optr := optr + 1;
      assert buf[..optr] == before + out;
      Associative(before, out, DoubledBraces(istr[iptr + 1..]));
      iptr := iptr + 1;
    }
    assert buf[..optr] == old(buf[..at]) + DoubledBraces(istr);
  }

  method CountBytes(istr: seq<byte>) returns (len: nat)
    ensures len == |DoubledBraces(istr)|
  {
    len := 0;
    var iptr := 0;
    assert istr[0..] == istr;
    while iptr < |istr|
      invariant iptr <= |istr| && len + |DoubledBraces(istr[iptr..])| == |DoubledBraces(istr)|
    {
      assert istr[iptr..][1..] == istr[iptr + 1..];
      if istr[iptr] == RBRACE {
        len := len + 1;
      }
      len := len + 1;
      iptr := iptr + 1;
    }
  }

  /** The text between braces, each doubled closing brace read as one; `n` bytes are left before
      the last brace, which serves as look-ahead. */
  function Unbraced(s: seq<byte>, n: nat): seq<byte>
    requires n < |s|
    decreases n
  {
    if n == 0 then []
    else if s[0] == RBRACE && s[1] == RBRACE then
      [RBRACE] + (if n == 1 then [] else Unbraced(s[2..], n - 2))
    else [s[0]] + Unbraced(s[1..], n - 1)
  }

  lemma {:induction false} UnbracedDoubled(value: seq<byte>, rest: seq<byte>)
    requires rest != []
    ensures Unbraced(DoubledBraces(value) + rest, |DoubledBraces(value)|) == value
  {
    if value != [] {
      var t := DoubledBraces(value) + rest;
      var more := DoubledBraces(value[1..]);
      UnbracedDoubled(value[1..], rest);
      if value[0] == RBRACE {
        assert t[2..] == more + rest;
      } else {
        assert t[1..] == more + rest;
      }
      assert value == [value[0]] + value[1..];
    }
  }

  // ---------------------------------------------------------------- percent encoding

  function LowerHexDigit(n: nat): byte
    requires n < 16
  {
    if n < 10 then 48 + n else 87 + n
  }

  /** One byte of `encode`; `%02x` prints the value of an ASCII char with two digits. */
  function EncodedByte(c: byte): seq<byte> {
    if c == PLUS then [PERCENT, 50, 66]
    else if IsSpace(c) then [PLUS]
    else if !IsAlnum(c) then [PERCENT, LowerHexDigit(c / 16), LowerHexDigit(c % 16)]
    else [c]
  }

  function Encoded(s: seq<byte>): seq<byte> {
    if s == [] then [] else EncodedByte(s[0]) + Encoded(s[1..])
  }

  /** `encode` of a name whose encoding fits. */
  method Encode(name: Option<seq<byte>>, out: array<byte>)
    requires name.Some? ==> IsAsciiText(name.value) && |Encoded(name.value)| < out.Length
    requires out.Length > 0
    modifies out
    ensures var e := if name.None? then [] else Encoded(name.value);
            out[..|e|] == e && out[|e|] == NUL
  {
    if name.None? {
      out[0] := NUL;
      return;
    }
    var ins := name.value;
    var i: nat, o: nat := 0, 0;
    assert ins[0..] == ins;
    while i < |ins| && o < out.Length - 1
      invariant i <= |ins| && o + |Encoded(ins[i..])| < out.Length
      invariant out[..o] + Encoded(ins[i..]) == Encoded(ins)
    {
      o := EncodeByte(ins, i, out, o);
      i := i + 1;
    }
    out[o] := NUL;
  }

  /** One turn of the loop. */
  method EncodeByte(ins: seq<byte>, i: nat, out: array<byte>, o0: nat) returns (o: nat)
    requires IsAsciiText(ins) && i < |ins| && o0 + |Encoded(ins[i..])| < out.Length
    modifies out
    ensures o + |Encoded(ins[i + 1..])| < out.Length && o0 < o
    ensures out[..o] + Encoded(ins[i + 1..]) == old(out[..o0]) + Encoded(ins[i..])
  {
    ghost var before := out[..o0];
    assert ins[i..][1..] == ins[i + 1..];
    o := o0;
    var inc := ins[i];
    if inc == PLUS {
      out[o], out[o + 1], out[o + 2] := PERCENT, 50, 66;
      o := o + 3;
    } else if IsSpace(inc) {
      out[o] := PLUS;
      o := o + 1;
    } else if !IsAlnum(inc) {
      out[o], out[o + 1], out[o + 2] := PERCENT, LowerHexDigit(inc / 16), LowerHexDigit(inc % 16);
      o := o + 3;
    } else {
      out[o] := inc;
      o := o + 1;
    }
    assert out[..o] == before + EncodedByte(inc);
    Associative(before, EncodedByte(inc), Encoded(ins[i + 1..]));
  }

  /** Every percent sign has its two digits: the decoder reads them unchecked. */
  predicate CompletePercents(s: seq<byte>) {
    if s == [] then true
    else if s[0] == PERCENT then |s| >= 3 && CompletePercents(s[3..])
    else CompletePercents(s[1..])
  }

  function Decoded(s: seq<byte>): seq<byte>
    requires CompletePercents(s)
  {
    if s == [] then []
    else if s[0] == PLUS then [SPACE] + Decoded(s[1..])
    else if s[0] == PERCENT then [HexBytea.Joined(s[1], s[2])] + Decoded(s[3..])
    else [s[0]] + Decoded(s[1..])
  }

  /** A C string ends at its first NUL. */
  function UpToNul(s: seq<byte>): seq<byte> {
    if s == [] || s[0] == NUL then [] else [s[0]] + UpToNul(s[1..])
  }

  lemma {:induction false} UpToNulAll(s: seq<byte>)
    requires NulFree(s)
    ensures UpToNul(s) == s
  {
    if s != [] {
      UpToNulAll(s[1..]);
      assert s == [s[0]] + s[1..];
    }
  }

  /** `conv_from_hex`, as the char that is printed. */
  method ConvFromHex(s: seq<byte>) returns (y: byte)
    requires |s| >= 3
    ensures y == HexBytea.Joined(s[1], s[2])
  {
    hide HexBytea.NibbleOf;
    ghost var hi, lo := HexBytea.NibbleOf(s[1]), HexBytea.NibbleOf(s[2]);
    var sum: int := 0;
    for i := 1 to 3
      invariant sum == if i == 1 then 0 else if i == 2 then hi * 16 else hi * 16 + lo
    {
      var val := HexBytea.NibbleOf(s[i]);
      sum := sum + (if i == 1 then val * 16 else val);
    }
    ModSum(hi * 16, lo);
    y := sum % 256;
  }

  lemma ModSum(a: int, b: int)
    ensures (a + b) % 256 == (a % 256 + b) % 256
  {
  }

  /** `decode`; an empty text gives no name. */
  method Decode(text: seq<byte>) returns (name: Option<seq<byte>>)
    requires CompletePercents(text)
    ensures name == if text == [] then None else Some(UpToNul(Decoded(text)))
  {
    if text == [] {
      return None;
    }
    var outs := new byte[|text| + 1](i => NUL);
    var i: nat, o: nat := 0, 0;
    assert text[0..] == text;
    while i < |text|
      invariant i <= |text| && o <= i && CompletePercents(text[i..])
      invariant outs[..o] + Decoded(text[i..]) == Decoded(text)
    {
      i, o := DecodeTurn(text, i, outs, o);
    }
    assert outs[..o] == Decoded(text);
    name := Some(UpToNul(outs[..o]));
  }

  method DecodeTurn(text: seq<byte>, i0: nat, outs: array<byte>, o0: nat) returns (i: nat, o: nat)
    requires o0 <= i0 < |text| && outs.Length == |text| + 1 && CompletePercents(text[i0..])
    modifies outs
    ensures i0 < i <= |text| && o == o0 + 1 && CompletePercents(text[i..])
    ensures outs[..o] + Decoded(text[i..]) == old(outs[..o0]) + Decoded(text[i0..])
  {
    ghost var before, rest := outs[..o0], text[i0..];
    var inc := text[i0];
    i, o := i0 + 1, o0 + 1;
    if inc == PLUS {
      outs[o0] := SPACE;
    } else if inc == PERCENT {
      var c := ConvFromHex(text[i0..]);
      outs[o0] := c;
      i := i0 + 3;
    } else {
      outs[o0] := inc;
    }
    assert rest[i - i0..] == text[i..];
    assert outs[..o] == before + [outs[o0]];
    Associative(before, [outs[o0]], Decoded(text[i..]));
  }

  predicate InBraces(text: seq<byte>) {
    text != [] && text[0] == LBRACE && text[|text| - 1] == RBRACE
  }

  function NameOf(text: seq<byte>): Option<seq<byte>>
    requires InBraces(text) || CompletePercents(text)
  {
    if InBraces(text) then Some(Unbraced(text[1..], |text| - 2))
    else if text == [] then None else Some(UpToNul(Decoded(text)))
  }

  /** `decode_or_remove_braces` */
  method DecodeOrRemoveBraces(text: seq<byte>) returns (name: Option<seq<byte>>)
    requires NulFree(text) && (InBraces(text) || CompletePercents(text))
    ensures name == NameOf(text)
  {
    if text == [] || text[0] != LBRACE || text[|text| - 1] != RBRACE {
      name := Decode(text);
      return;
    }
    var inlen := |text|;
    var ostr := new byte[inlen](i => NUL);
    var eptr, istr, i: nat := inlen - 1, 1, 0;
    while istr < eptr
      invariant 1 <= istr <= inlen && i < istr
      invariant ostr[..i] + (if istr < eptr then Unbraced(text[istr..], eptr - istr) else []) == Unbraced(text[1..], inlen - 2)
    {
      istr, i := BraceTurn(text, istr, ostr, i, eptr);
    }
    assert ostr[..i] == Unbraced(text[1..], inlen - 2);
    name := Some(ostr[..i]);
  }

  method BraceTurn(text: seq<byte>, istr0: nat, ostr: array<byte>, i0: nat, eptr: nat) returns (istr: nat, i: nat)
    requires 1 <= istr0 < eptr == |text| - 1 && ostr.Length == |text| && i0 < istr0
    modifies ostr
    ensures istr0 < istr <= |text| && i == i0 + 1
    ensures ostr[..i] + (if istr < eptr then Unbraced(text[istr..], eptr - istr) else [])
         == old(ostr[..i0]) + Unbraced(text[istr0..], eptr - istr0)
  {
    hide Unbraced;
    ghost var before := ostr[..i0];
    ghost var rest := text[istr0..];
    istr := istr0;
    if text[istr] == RBRACE && text[istr + 1] == RBRACE {
      istr := istr + 1;
    }
    ghost var c := text[istr];
    ostr[i0] := text[istr];
    istr, i := istr + 1, i0 + 1;
    assert ostr[..i] == before + [c];
    assert rest[istr - istr0..] == text[istr..];
    UnbracedStep(rest, eptr - istr0, istr - istr0);
    Associative(before, [c], if istr < eptr then Unbraced(text[istr..], eptr - istr) else []);
  }

  lemma UnbracedStep(rest: seq<byte>, n: nat, k: nat)
    requires 0 < n < |rest| && k == if rest[0] == RBRACE && rest[1] == RBRACE then 2 else 1
    ensures Unbraced(rest, n) == [rest[k - 1]] + if k < n then Unbraced(rest[k..], n - k) else []
  {
  }

  // ---------------------------------------------------------------- round trips

  /** White space other than the space itself comes back as a space. */
  function Spaced(s: seq<byte>): seq<byte> {
    if s == [] then [] else [if IsSpace(s[0]) then SPACE else s[0]] + Spaced(s[1..])
  }

  lemma HexOfAscii(c: byte)
    ensures HexBytea.Joined(LowerHexDigit(c / 16), LowerHexDigit(c % 16)) == c
  {
    var q, r := c / 16, c % 16;
    assert HexBytea.NibbleOf(LowerHexDigit(q)) == q && HexBytea.NibbleOf(LowerHexDigit(r)) == r;
    HexBytea.HighHalf(q);
    assert q * 16 + r == c;
  }

  lemma {:induction false} DecodeEncoded(s: seq<byte>)
    requires IsAsciiText(s)
    ensures CompletePercents(Encoded(s)) && Decoded(Encoded(s)) == Spaced(s)
  {
    if s != [] {
      DecodeEncoded(s[1..]);
      DecodeByte(s[0], Encoded(s[1..]));
    }
  }

  lemma DecodeByte(c: byte, rest: seq<byte>)
    requires 0 < c < 0x80 && CompletePercents(rest)
    ensures CompletePercents(EncodedByte(c) + rest)
    ensures Decoded(EncodedByte(c) + rest) == [if IsSpace(c) then SPACE else c] + Decoded(rest)
  {
    var t := EncodedByte(c) + rest;
    if c == PLUS {
      assert t[3..] == rest && HexBytea.Joined(50, 66) == PLUS;
    } else if !IsSpace(c) && !IsAlnum(c) {
      HexOfAscii(c);
      assert t[3..] == rest;
    } else {
      assert t[1..] == rest;
    }
  }

  lemma {:induction false} SpacedSame(s: seq<byte>)
    ensures Spaced(s) == s <==> forall i :: 0 <= i < |s| && IsSpace(s[i]) ==> s[i] == SPACE
  {
    if s != [] {
      SpacedSame(s[1..]);
      assert s == [s[0]] + s[1..];
      assert Spaced(s)[1..] == Spaced(s[1..]);
      assert forall i :: 1 <= i < |s| ==> s[i] == s[1..][i - 1];
    }
  }

  /** Percent encoding round trip: a non-empty ASCII text comes back exactly when its only white space
      is the space character; other white space comes back as spaces. */
  lemma PercentRoundTrip(s: seq<byte>)
    requires IsAsciiText(s)
    ensures CompletePercents(Encoded(s)) && UpToNul(Decoded(Encoded(s))) == Spaced(s)
    ensures UpToNul(Decoded(Encoded(s))) == s <==> forall i :: 0 <= i < |s| && IsSpace(s[i]) ==> s[i] == SPACE
  {
    DecodeEncoded(s);
    SpacedNulFree(s);
    UpToNulAll(Spaced(s));
    SpacedSame(s);
  }

  lemma {:induction false} SpacedNulFree(s: seq<byte>)
    requires NulFree(s)
    ensures NulFree(Spaced(s))
  {
    if s != [] {
      SpacedNulFree(s[1..]);
    }
  }

  // ---------------------------------------------------------------- connection strings

  /** An attribute as it is printed: with its value as it is, or between braces. */
  datatype Item = Plain(name: seq<byte>, value: seq<byte>) | InBrace(name: seq<byte>, value: seq<byte>)

  predicate Free(s: seq<byte>, c: byte) { forall i :: 0 <= i < |s| ==> s[i] != c }

  predicate Printable(item: Item) {
    && NulFree(item.name) && Free(item.name, SEMICOLON) && Free(item.name, EQUALS) && NulFree(item.value)
    && (item.Plain? ==> Free(item.value, SEMICOLON) && (item.value != [] ==> item.value[0] != LBRACE))
  }

  predicate AllPrintable(items: seq<Item>) { forall k :: 0 <= k < |items| ==> Printable(items[k]) }

  /** The value part of the text. */
  function Raw(item: Item): seq<byte> { if item.Plain? then item.value else Braced(item.value) }

  function Text(item: Item): seq<byte> { item.name + [EQUALS] + Raw(item) + [SEMICOLON] }

  function Texts(items: seq<Item>): seq<byte> {
    if items == [] then [] else Text(items[0]) + Texts(items[1..])
  }

  function RawPair(item: Item): Pair { Pair(item.name, Raw(item)) }

  function Pairs(items: seq<Item>): seq<Pair> {
    if items == [] then [] else [RawPair(items[0])] + Pairs(items[1..])
  }

  lemma {:induction false} FindsFirst(s: seq<byte>, c: byte, from: nat, to: nat, i: nat)
    requires from <= i < to <= |s| && s[i] == c && Free(s[from..i], c)
    ensures FindByte(s, c, from, to) == Some(i)
    decreases i - from
  {
    if from < i {
      assert s[from] == s[from..i][0];
      assert s[from + 1..i] == s[from..i][1..];
      FindsFirst(s, c, from + 1, to, i);
    }
  }

  lemma {:induction false} FindsNone(s: seq<byte>, c: byte, from: nat, to: nat)
    requires from <= to <= |s| && Free(s[from..to], c)
    ensures FindByte(s, c, from, to) == None
    decreases if from < to then to - from else 0
  {
    if from < to {
      assert s[from] == s[from..to][0];
      assert s[from + 1..to] == s[from..to][1..];
      FindsNone(s, c, from + 1, to);
    }
  }

  /** The first delimiter of `a + rest` lies in `a` or is the given one behind it. */
  lemma {:induction false} FirstDelimiter(s: seq<byte>, from: nat, end: nat)
    requires from <= end < |s| && s[end] == SEMICOLON
    ensures FindByte(s, SEMICOLON, from, |s|).Some? && from <= FindByte(s, SEMICOLON, from, |s|).value <= end
    ensures Free(s[from..FindByte(s, SEMICOLON, from, |s|).value], SEMICOLON)
    decreases end - from
  {
    if s[from] != SEMICOLON {
      FirstDelimiter(s, from + 1, end);
      var e := FindByte(s, SEMICOLON, from, |s|).value;
      assert s[from..e] == [s[from]] + s[from + 1..e];
    }
  }

  lemma FreeMore(c: byte, s: seq<byte>)
    ensures c != RBRACE && Free(s, RBRACE) ==> Free([c] + s, RBRACE)
  {
  }

  /** Either no closing brace, or text without one before a doubled brace. */
  lemma {:induction false} SplitAtBrace(w: seq<byte>) returns (k: nat)
    ensures k <= |w| && Free(w[..k], RBRACE) && (k < |w| ==> w[k] == RBRACE)
    ensures DoubledBraces(w) == w[..k] + if k == |w| then [] else [RBRACE, RBRACE] + DoubledBraces(w[k + 1..])
  {
    if w == [] || w[0] == RBRACE {
      k := 0;
      assert w[..0] == [];
    } else {
      var j := SplitAtBrace(w[1..]);
      k := j + 1;
      SplitMore(w, w[1..], j);
    }
  }

  lemma SplitMore(w: seq<byte>, t: seq<byte>, j: nat)
    requires w != [] && w[0] != RBRACE && t == w[1..] && j <= |t| && Free(t[..j], RBRACE) && (j < |t| ==> t[j] == RBRACE)
    requires DoubledBraces(t) == t[..j] + if j == |t| then [] else [RBRACE, RBRACE] + DoubledBraces(t[j + 1..])
    ensures Free(w[..j + 1], RBRACE) && (j + 1 < |w| ==> w[j + 1] == RBRACE)
    ensures DoubledBraces(w) == w[..j + 1] + if j + 1 == |w| then [] else [RBRACE, RBRACE] + DoubledBraces(w[j + 2..])
  {
    FirstByte(w);
    hide *;
    TakeMore(w, t, j);
    FreeMore(w[0], t[..j]);
    if j < |t| {
      DropMore(w, t, j);
      Associative([w[0]], t[..j], [RBRACE, RBRACE] + DoubledBraces(w[j + 2..]));
    } else {
      Associative([w[0]], t[..j], []);
    }
  }

  lemma FirstByte(w: seq<byte>)
    ensures w != [] && w[0] != RBRACE ==> DoubledBraces(w) == [w[0]] + DoubledBraces(w[1..])
  {
  }

  lemma TakeMore(w: seq<byte>, t: seq<byte>, j: nat)
    requires w != [] && t == w[1..] && j <= |t|
    ensures w[..j + 1] == [w[0]] + t[..j]
  {
  }

  lemma DropMore(w: seq<byte>, t: seq<byte>, j: nat)
    requires w != [] && t == w[1..] && j < |t|
    ensures w[j + 2..] == t[j + 1..] && w[j + 1] == t[j]
  {
  }

  /** The loop finds the closing brace of a doubled value, wherever delimiters lie in it. */
  lemma {:induction false} ClosesValue(s: seq<byte>, valuen: nat, w: seq<byte>, rest: seq<byte>, delp: Option<nat>)
    requires valuen <= |s| && s[valuen..] == DoubledBraces(w) + ([RBRACE, SEMICOLON] + rest)
    requires delp.Some? ==> valuen <= delp.value < |s| && s[delp.value] == SEMICOLON
    requires delp.Some? ==> delp == FindByte(s, SEMICOLON, valuen, |s|)
    ensures FindClose(s, valuen, delp) == Closed(valuen + |DoubledBraces(w)| + 1)
    decreases |w|
  {
    hide FindClose, AfterBrace, DoubledBraces;
    var k := SplitAtBrace(w);
    var closep := valuen + k;
    BraceAt(s, valuen, w, k, rest);
    var near := ClosesNear(s, valuen, closep, delp);
    if k < |w| {
      DoubledHead(s, valuen, w, k, rest);
      var delp' := if near == Some(closep + 2) then None else near;
      if delp'.Some? {
        FirstFrom(s, valuen, closep + 2);
      }
      ClosesValue(s, closep + 2, w[k + 1..], rest, delp');
      assert AfterBrace(s, closep, near) == FindClose(s, closep + 2, delp') by { AfterPair(s, closep, near); }
    } else {
      AfterLast(s, closep, near);
    }
  }

  lemma AfterPair(s: seq<byte>, closep: nat, delp: Option<nat>)
    requires closep + 2 <= |s| && s[closep + 1] == RBRACE
    requires delp.Some? ==> closep < delp.value < |s| && s[delp.value] == SEMICOLON
    ensures delp.Some? ==> closep + 2 <= delp.value
    ensures AfterBrace(s, closep, delp) == FindClose(s, closep + 2, if delp == Some(closep + 2) then None else delp)
  {
    hide FindClose;
  }

  lemma AfterLast(s: seq<byte>, closep: nat, delp: Option<nat>)
    requires closep + 1 < |s| && s[closep + 1] == SEMICOLON
    requires delp.Some? ==> closep < delp.value < |s| && s[delp.value] == SEMICOLON
    ensures AfterBrace(s, closep, delp) == Closed(closep + 1)
  {
  }

  /** The bytes around the first closing brace. */
  lemma BraceAt(s: seq<byte>, valuen: nat, w: seq<byte>, k: nat, rest: seq<byte>)
    requires valuen <= |s| && s[valuen..] == DoubledBraces(w) + ([RBRACE, SEMICOLON] + rest)
    requires k <= |w| && Free(w[..k], RBRACE) && (k < |w| ==> w[k] == RBRACE)
    requires DoubledBraces(w) == w[..k] + if k == |w| then [] else [RBRACE, RBRACE] + DoubledBraces(w[k + 1..])
    ensures valuen + k + 1 < |s| && s[valuen + k] == RBRACE && Free(s[valuen..valuen + k], RBRACE)
    ensures s[valuen + k + 1] == if k == |w| then SEMICOLON else RBRACE
    ensures k == |w| ==> |DoubledBraces(w)| == k
  {
    hide DoubledBraces;
    var t := s[valuen..];
    assert t[..k] == w[..k];
    assert s[valuen..valuen + k] == t[..k];
    assert s[valuen + k] == t[k] && s[valuen + k + 1] == t[k + 1];
  }

  lemma DoubledHead(s: seq<byte>, valuen: nat, w: seq<byte>, k: nat, rest: seq<byte>)
    requires valuen <= |s| && s[valuen..] == DoubledBraces(w) + ([RBRACE, SEMICOLON] + rest)
    requires k < |w| && DoubledBraces(w) == w[..k] + ([RBRACE, RBRACE] + DoubledBraces(w[k + 1..]))
    ensures valuen + k + 2 <= |s|
    ensures s[valuen + k + 2..] == DoubledBraces(w[k + 1..]) + ([RBRACE, SEMICOLON] + rest)
    ensures |DoubledBraces(w)| == k + 2 + |DoubledBraces(w[k + 1..])|
  {
    hide DoubledBraces;
    assert s[valuen + k + 2..] == s[valuen..][k + 2..];
  }

  /** With or without a misdetected delimiter before it, the first closing brace is the one found. */
  lemma ClosesNear(s: seq<byte>, valuen: nat, closep: nat, delp: Option<nat>) returns (near: Option<nat>)
    requires valuen <= closep < |s| && s[closep] == RBRACE && Free(s[valuen..closep], RBRACE)
    requires delp.Some? ==> valuen <= delp.value < |s| && s[delp.value] == SEMICOLON
    ensures near == if delp.Some? && delp.value < closep then None else delp
    ensures near.Some? ==> closep < near.value
    ensures FindClose(s, valuen, delp) == AfterBrace(s, closep, near)
  {
    hide AfterBrace;
    near := if delp.Some? && delp.value < closep then None else delp;
    if delp.Some? && delp.value < closep {
      assert s[valuen..delp.value] == s[valuen..closep][..delp.value - valuen];
      FindsNone(s, RBRACE, valuen, delp.value);
      assert s[delp.value + 1..closep] == s[valuen..closep][delp.value + 1 - valuen..];
      FindsFirst(s, RBRACE, delp.value + 1, |s|, closep);
    } else {
      FindsFirst(s, RBRACE, valuen, if delp.Some? then delp.value else |s|, closep);
    }
  }

  lemma {:induction false} FirstFrom(s: seq<byte>, from: nat, p: nat)
    requires from <= p <= |s| && FindByte(s, SEMICOLON, from, |s|).Some? && p <= FindByte(s, SEMICOLON, from, |s|).value
    ensures FindByte(s, SEMICOLON, p, |s|) == FindByte(s, SEMICOLON, from, |s|)
    decreases p - from
  {
    if from < p {
      FirstFrom(s, from + 1, p);
    }
  }

  /** When the token ends right behind its first closing brace, it ends at the closing brace proper. */
  lemma ClosedAtOnce(s: seq<byte>, v: nat, w: seq<byte>, rest: seq<byte>, e: nat)
    requires v <= |s| && s[v..] == DoubledBraces(w) + ([RBRACE, SEMICOLON] + rest)
    requires v < e < |s| && s[e] == SEMICOLON && FindByte(s, RBRACE, v, e) == Some(e - 1)
    ensures e == v + |DoubledBraces(w)| + 1
  {
    hide DoubledBraces;
    var k := SplitAtBrace(w);
    BraceAt(s, v, w, k, rest);
    assert v + k < e;
    FindsFirst(s, RBRACE, v, e, v + k);
  }

  /** A value in braces is read completely, whatever it contains. */
  lemma ReadsBraced(s: seq<byte>, attribute: seq<byte>, v: nat, value: seq<byte>, rest: seq<byte>)
    requires 0 < v <= |s| && s[v..] == Braced(value) + ([SEMICOLON] + rest)
    ensures var d := v + |Braced(value)|;
            var t := ReadValue(s, attribute, v, TokenEnd(s, v));
            && d < |s| && t.call == Some(Pair(attribute, Braced(value)))
            && (t.outcome == Go(d + 1) || (t.outcome == End && d + 2 >= |s|))
  {
    hide *;
    var w, d := [LBRACE] + value, v + |Braced(value)|;
    ValueInBraces(s, v, value, rest);
    FirstDelimiter(s, v, d);
    var e := TokenEnd(s, v);
    DelimiterEnds(s, v);
    UnfoldBraced(s, attribute, v, e);
    if FindByte(s, RBRACE, v, e) == Some(e - 1) {
      ClosedAtOnce(s, v, w, rest, e);
    } else {
      ClosesValue(s, v, w, rest, Some(e));
    }
  }

  /** Where a braced value stands. */
  lemma ValueInBraces(s: seq<byte>, v: nat, value: seq<byte>, rest: seq<byte>)
    requires v <= |s| && s[v..] == Braced(value) + ([SEMICOLON] + rest)
    ensures var d := v + |Braced(value)|;
            && v < d < |s| && s[v] == LBRACE && s[d] == SEMICOLON && s[v..d] == Braced(value)
            && d == v + |DoubledBraces([LBRACE] + value)| + 1
    ensures s[v..] == DoubledBraces([LBRACE] + value) + ([RBRACE, SEMICOLON] + rest)
  {
    var m := DoubledBraces(value);
    BraceFirst(value);
    hide *;
    BracedIs(value);
    WhereItStands(s, v, Braced(value), rest);
    Regrouped(m, rest);
  }

  lemma BraceFirst(value: seq<byte>)
    ensures DoubledBraces([LBRACE] + value) == [LBRACE] + DoubledBraces(value)
  {
    assert ([LBRACE] + value)[1..] == value;
  }

  lemma BracedIs(value: seq<byte>)
    ensures Braced(value) == [LBRACE] + DoubledBraces(value) + [RBRACE]
  {
    hide DoubledBraces;
  }

  lemma WhereItStands(s: seq<byte>, v: nat, text: seq<byte>, rest: seq<byte>)
    requires v <= |s| && text != [] && s[v..] == text + ([SEMICOLON] + rest)
    ensures v + |text| < |s| && s[v] == text[0] && s[v + |text|] == SEMICOLON && s[v..v + |text|] == text
  {
    var tail := s[v..];
    assert tail[0] == text[0] && tail[|text|] == SEMICOLON && tail[..|text|] == text;
  }

  lemma Regrouped(m: seq<byte>, rest: seq<byte>)
    ensures ([LBRACE] + m + [RBRACE]) + ([SEMICOLON] + rest) == ([LBRACE] + m) + ([RBRACE, SEMICOLON] + rest)
  {
  }

  lemma DelimiterEnds(s: seq<byte>, v: nat)
    requires v <= |s| && FindByte(s, SEMICOLON, v, |s|).Some?
    ensures FindByte(s, SEMICOLON, v, |s|) == Some(TokenEnd(s, v))
  {
    hide FindByte;
  }

  lemma UnfoldBraced(s: seq<byte>, attribute: seq<byte>, v: nat, e: nat)
    requires 0 < v <= e < |s| && s[e] == SEMICOLON && s[v] == LBRACE
    ensures v < e
    ensures FindByte(s, RBRACE, v, e) == Some(e - 1) ==>
              ReadValue(s, attribute, v, e) == Turn(Some(Pair(attribute, s[v..e])), Go(e + 1))
    ensures FindByte(s, RBRACE, v, e) != Some(e - 1) && FindClose(s, v, Some(e)).Closed? ==>
              var d := FindClose(s, v, Some(e)).delim;
              ReadValue(s, attribute, v, e) == Turn(Some(Pair(attribute, s[v..d])), if d + 2 >= |s| then End else Go(d + 1))
  {
    hide FindByte, FindClose;
  }

  /** One item is one turn. */
  lemma TurnOnItem(s: seq<byte>, p: nat, item: Item, rest: seq<byte>)
    requires Printable(item) && p <= |s| && s[p..] == Text(item) + rest
    ensures var next := p + |Text(item)|;
            var t := OneTurn(s, p);
            && t.call == Some(RawPair(item)) && next <= |s|
            && (t.outcome == Go(next) || (t.outcome == End && next + 1 >= |s|))
  {
    var v := p + |item.name| + 1;
    TextParts(s, p, item, rest);
    hide FindByte, FindClose, Braced, Text, OneTurn, ReadValue, TokenEnd, SkipDelims;
    NameEnds(s, p, item.name, v, v + |Raw(item)|);
    NamedTurn(s, p, v);
    if item.InBrace? {
      ReadsBraced(s, item.name, v, item.value, rest);
    } else {
      ReadsPlain(s, item.name, v, item.value, rest);
    }
  }

  lemma NamedTurn(s: seq<byte>, p: nat, v: nat)
    requires p < |s| && p < v <= TokenEnd(s, p) && SkipDelims(s, p) == p && FindByte(s, EQUALS, p, TokenEnd(s, p)) == Some(v - 1)
    ensures OneTurn(s, p) == ReadValue(s, s[p..v - 1], v, TokenEnd(s, p))
  {
    hide ReadValue, TokenEnd, FindByte;
  }

  lemma TextParts(s: seq<byte>, p: nat, item: Item, rest: seq<byte>)
    requires p <= |s| && s[p..] == Text(item) + rest
    ensures var equals, d := p + |item.name|, p + |item.name| + 1 + |Raw(item)|;
            && d < |s| && p + |Text(item)| == d + 1 && s[d] == SEMICOLON && s[equals] == EQUALS
            && s[p..equals] == item.name && s[equals + 1..] == Raw(item) + ([SEMICOLON] + rest)
  {
    hide Raw;
    var equals := p + |item.name|;
    var v := equals + 1;
    var d := v + |Raw(item)|;
    var t := s[p..];
    assert s[p..equals] == t[..|item.name|] == item.name;
    assert s[equals] == t[|item.name|] == EQUALS && s[p] == t[0];
    assert s[d] == t[d - p] == SEMICOLON;
    assert s[v..] == t[v - p..] == Raw(item) + ([SEMICOLON] + rest);
  }

  lemma NameEnds(s: seq<byte>, p: nat, name: seq<byte>, v: nat, d: nat)
    requires p + |name| + 1 == v <= d < |s| && s[p..v - 1] == name && s[v - 1] == EQUALS && s[d] == SEMICOLON
    requires Free(name, SEMICOLON) && Free(name, EQUALS)
    ensures SkipDelims(s, p) == p && TokenEnd(s, p) == TokenEnd(s, v) && v <= TokenEnd(s, v) < |s|
    ensures FindByte(s, EQUALS, p, TokenEnd(s, p)) == Some(v - 1)
  {
    hide FindByte;
    assert name != [] ==> s[p] == s[p..v - 1][0];
    FirstDelimiter(s, p, d);
    var e := TokenEnd(s, p);
    assert v <= e;
    FirstFrom(s, p, v);
    FindsFirst(s, EQUALS, p, e, v - 1);
  }

  lemma ReadsPlain(s: seq<byte>, attribute: seq<byte>, v: nat, value: seq<byte>, rest: seq<byte>)
    requires 0 < v <= |s| && s[v..] == value + ([SEMICOLON] + rest) && Free(value, SEMICOLON)
    requires value != [] ==> value[0] != LBRACE
    ensures ReadValue(s, attribute, v, TokenEnd(s, v)) == Turn(Some(Pair(attribute, value)), Go(v + |value| + 1))
  {
    var e := v + |value|;
    assert s[v..e] == s[v..][..|value|] == value;
    assert s[e] == s[v..][|value|];
    assert value != [] ==> s[v] == s[v..][0];
    FindsFirst(s, SEMICOLON, v, |s|, e);
  }

  lemma {:induction false} ParsesItems(s: seq<byte>, p: nat, items: seq<Item>)
    requires AllPrintable(items) && p <= |s| && s[p..] == Texts(items)
    ensures Parse(s, p) == Parsed(true, Pairs(items))
    decreases items
  {
    if items == [] {
      assert p == |s|;
    } else {
      var item, more := items[0], items[1..];
      var next := p + |Text(item)|;
      assert s[p..] == Text(item) + Texts(more) && Pairs(items) == [RawPair(item)] + Pairs(more);
      hide Text, RawPair, Parse, OneTurn, Pairs, Printable;
      TurnOnItem(s, p, item, Texts(more));
      assert s[next..] == s[p..][next - p..] == Texts(more);
      ParsesItems(s, next, more);
      if OneTurn(s, p).outcome == End {
        TextsLong(more);
        NoPairs(more);
      }
      ParseTurn(s, p, RawPair(item), Pairs(more), next);
    }
  }

  lemma NoPairs(items: seq<Item>)
    requires |Texts(items)| < 2
    ensures Pairs(items) == []
  {
  }

  lemma ParseTurn(s: seq<byte>, p: nat, pair: Pair, more: seq<Pair>, next: nat)
    requires p <= |s| && next <= |s| && OneTurn(s, p).call == Some(pair)
    requires OneTurn(s, p).outcome == Go(next) || (OneTurn(s, p).outcome == End && more == [])
    requires OneTurn(s, p).outcome.Go? ==> Parse(s, next) == Parsed(true, more)
    ensures Parse(s, p) == Parsed(true, [pair] + more)
  {
    hide OneTurn;
  }

  lemma TextsLong(items: seq<Item>)
    ensures items != [] ==> |Texts(items)| >= 2
  {
  }

  /** Connection-string round trip: parsing any list of printed attributes calls the copy function with
      exactly the printed pairs, in order, and succeeds; no value disturbs another. */
  lemma ConnectStringRoundTrip(items: seq<Item>)
    requires AllPrintable(items)
    ensures Parse(Texts(items), 0) == Parsed(true, Pairs(items))
  {
    assert Texts(items)[0..] == Texts(items);
    ParsesItems(Texts(items), 0, items);
  }

  /** A value printed between braces is recovered, for every value. */
  lemma BracedRoundTrip(name: seq<byte>, value: seq<byte>)
    ensures InBraces(Raw(InBrace(name, value))) && NameOf(Raw(InBrace(name, value))) == Some(value)
  {
    var text := Braced(value);
    assert text[1..] == DoubledBraces(value) + [RBRACE];
    UnbracedDoubled(value, [RBRACE]);
  }

  /** So is a value printed percent-encoded (`PWD=%s`), if its only white space is the space. */
  lemma EncodedRoundTrip(name: seq<byte>, value: seq<byte>)
    requires IsAsciiText(value) && value != [] && (forall i :: 0 <= i < |value| && IsSpace(value[i]) ==> value[i] == SPACE)
    requires NulFree(name) && Free(name, SEMICOLON) && Free(name, EQUALS)
    ensures Printable(Plain(name, Encoded(value)))
    ensures CompletePercents(Encoded(value)) && !InBraces(Encoded(value)) && NameOf(Encoded(value)) == Some(value)
  {
    PercentRoundTrip(value);
    EncodedPrintable(value);
  }

  lemma {:induction false} EncodedPrintable(s: seq<byte>)
    requires IsAsciiText(s)
    ensures NulFree(Encoded(s)) && Free(Encoded(s), SEMICOLON) && Free(Encoded(s), LBRACE)
    ensures s != [] ==> Encoded(s) != []
  {
    if s != [] {
      EncodedPrintable(s[1..]);
    }
  }
}
