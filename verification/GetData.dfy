/**
 SQLGetData in parts for SQL_C_CHAR over a text column (`copy_and_convert_field`,
 `convert_text_field_to_sql_c`, `setup_getdataclass`, `convert_linefeeds`), without localization.
 */
module GetData {
  import opened CBytes

  const INT_MAX: nat := 0x7fff_ffff
  const MAX_SIZE: nat := 0xffff_ffff

  // ---------------------------------------------------------------- line feeds

  /** A linefeed gets a carriage return unless one stands before it. */
  function LfChunk(convlf: bool, prev: byte, c: byte): seq<byte> {
    if convlf && c == LINEFEED && prev != CARRIAGE_RETURN then [CARRIAGE_RETURN, LINEFEED] else [c]
  }

  /** The converted value; `prev` is the byte before `s`, 0 at the start. */
  function Expanded(convlf: bool, prev: byte, s: seq<byte>): seq<byte>
    decreases s
  {
    if s == [] then [] else LfChunk(convlf, prev, s[0]) + Expanded(convlf, s[0], s[1..])
  }

  /** What one pass of `convert_linefeeds` produces that stops when `room` bytes are out. */
  function Converted(convlf: bool, prev: byte, s: seq<byte>, room: int): seq<byte>
    decreases s
  {
    if s == [] || room <= 0 then []
    else var chunk := LfChunk(convlf, prev, s[0]);
         chunk + Converted(convlf, s[0], s[1..], room - |chunk|)
  }

  predicate AddsReturn(convlf: bool, prev: byte, s: seq<byte>)
    decreases s
  {
    s != [] && (|LfChunk(convlf, prev, s[0])| == 2 || AddsReturn(convlf, s[0], s[1..]))
  }

  lemma {:induction false} ExpandedSize(convlf: bool, prev: byte, s: seq<byte>)
    ensures |Expanded(convlf, prev, s)| >= |s|
    ensures !AddsReturn(convlf, prev, s) ==> Expanded(convlf, prev, s) == s
    decreases s
  {
    if s != [] {
      ExpandedSize(convlf, s[0], s[1..]);
    }
  }

  /** A pass with room for the whole value produces it. */
  lemma {:induction false} RoomEnough(convlf: bool, prev: byte, s: seq<byte>, room: int)
    requires room >= |Expanded(convlf, prev, s)|
    ensures Converted(convlf, prev, s, room) == Expanded(convlf, prev, s)
    decreases s
  {
    if s != [] {
      RoomEnough(convlf, s[0], s[1..], room - |LfChunk(convlf, prev, s[0])|);
    }
  }

  /** With room for one byte less than the value (what SQL_C_BINARY gives a new buffer) the value is
      complete if and only if it is empty or its last line feed was given a carriage return at the
      very end; otherwise exactly the last byte is missing. */
  lemma {:induction false} RoomOneShort(convlf: bool, prev: byte, s: seq<byte>)
    requires s != []
    ensures var v := Expanded(convlf, prev, s);
            var last := LfChunk(convlf, if |s| > 1 then s[|s| - 2] else prev, s[|s| - 1]);
            && (Converted(convlf, prev, s, |v| - 1) == v <==> |last| == 2)
            && (|last| == 1 ==> Converted(convlf, prev, s, |v| - 1) == v[..|v| - 1])
    decreases s
  {
    var chunk := LfChunk(convlf, prev, s[0]);
    var v := Expanded(convlf, prev, s);
    if |s| == 1 {
      assert s[1..] == [] && Expanded(convlf, s[0], s[1..]) == [];
      assert v == chunk && chunk[..0] == [];
    } else {
      var tail := Expanded(convlf, s[0], s[1..]);
      RoomOneShort(convlf, s[0], s[1..]);
      ExpandedSize(convlf, s[0], s[1..]);
      assert v == chunk + tail;
      assert (chunk + tail)[..|v| - 1] == chunk + tail[..|tail| - 1];
      assert (chunk + tail)[|chunk|..] == tail;
      var out := Converted(convlf, s[0], s[1..], |tail| - 1);
      assert (chunk + out)[|chunk|..] == out;
    }
  }

  function Limit(max: nat): nat {
    if max == 0 then MAX_SIZE else max
  }

  /** `convert_linefeeds`: a null `dst` only counts, `max` 0 means no limit. */
  method ConvertLinefeeds(si: seq<byte>, dst: array?<byte>, max0: nat, convlf: bool) returns (out: nat, changed: bool)
    requires max0 <= MAX_SIZE && NulFree(si)
    requires dst != null ==> |Converted(convlf, NUL, si, Limit(max0) - 1)| < dst.Length
    modifies dst
    ensures out == |Converted(convlf, NUL, si, Limit(max0) - 1)|
    ensures dst != null ==>
              out < dst.Length && dst[out] == NUL
              && dst[..out] == Converted(convlf, NUL, si, Limit(max0) - 1)
    ensures |Expanded(convlf, NUL, si)| < Limit(max0) ==> changed == AddsReturn(convlf, NUL, si)
  {
    ghost var i, done;
    out, changed, i, done := LinefeedLoop(si, dst, Limit(max0), convlf);
    PassEnd(convlf, si, i, done, changed, Limit(max0) - 1);
    if dst != null {
      dst[out] := NUL;
    }
  }

  method LinefeedLoop(si: seq<byte>, dst: array?<byte>, max: nat, convlf: bool)
    returns (out: nat, changed: bool, ghost passed: nat, ghost done: seq<byte>)
    requires dst != null ==> |Converted(convlf, NUL, si, max - 1)| < dst.Length
    modifies dst
    ensures passed <= |si| && out == |done| && Pass(convlf, si, passed, done, changed, max - 1)
    ensures passed == |si| || out >= max - 1
    ensures dst != null ==> out < dst.Length && dst[..out] == done
  {
    var i := 0;
    out, changed, done := 0, false, [];
    assert si[0..] == si;
    while i < |si| && out < max - 1
      invariant 0 <= i <= |si| && out == |done|
      invariant Pass(convlf, si, i, done, changed, max - 1)
      invariant dst != null ==> out < dst.Length && dst[..out] == done
    {
      var added := convlf && si[i] == LINEFEED && !(i > 0 && si[i - 1] == CARRIAGE_RETURN);
      PassStep(convlf, si, i, done, changed, max - 1, added);
      out := PutChunk(dst, out, si[i], added);
      done := done + Chunk(added, si[i]);
      changed := changed || added;
      i := i + 1;
    }
    passed := i;
  }

  function Chunk(added: bool, c: byte): seq<byte> {
    if added then [CARRIAGE_RETURN, LINEFEED] else [c]
  }

  function Before(si: seq<byte>, i: nat): byte
    requires i <= |si|
  {
    if i == 0 then NUL else si[i - 1]
  }

  /** A pass that has turned the first `i` bytes into `done`. */
  ghost predicate Pass(convlf: bool, si: seq<byte>, i: nat, done: seq<byte>, changed: bool, room: int)
    requires i <= |si|
  {
    var prev := Before(si, i);
    && Converted(convlf, NUL, si, room) == done + Converted(convlf, prev, si[i..], room - |done|)
    && Expanded(convlf, NUL, si) == done + Expanded(convlf, prev, si[i..])
    && (AddsReturn(convlf, NUL, si) <==> changed || AddsReturn(convlf, prev, si[i..]))
  }

  lemma PassStep(convlf: bool, si: seq<byte>, i: nat, done: seq<byte>, changed: bool, room: int, added: bool)
    requires i < |si| && |done| < room && Pass(convlf, si, i, done, changed, room)
    requires added <==> convlf && si[i] == LINEFEED && Before(si, i) != CARRIAGE_RETURN
    ensures Pass(convlf, si, i + 1, done + Chunk(added, si[i]), changed || added, room)
    ensures |done + Chunk(added, si[i])| <= |Converted(convlf, NUL, si, room)|
  {
    var chunk, prev := Chunk(added, si[i]), Before(si, i);
    assert chunk == LfChunk(convlf, prev, si[i]);
    assert si[i..][1..] == si[i + 1..] && Before(si, i + 1) == si[i];
    Associative(done, chunk, Converted(convlf, si[i], si[i + 1..], room - |done| - |chunk|));
    Associative(done, chunk, Expanded(convlf, si[i], si[i + 1..]));
  }

  lemma PassEnd(convlf: bool, si: seq<byte>, i: nat, done: seq<byte>, changed: bool, room: int)
    requires i <= |si| && (i == |si| || |done| >= room) && Pass(convlf, si, i, done, changed, room)
    ensures done == Converted(convlf, NUL, si, room)
    ensures |Expanded(convlf, NUL, si)| <= room ==> changed == AddsReturn(convlf, NUL, si)
  {
    ExpandedSize(convlf, Before(si, i), si[i..]);
  }

  /** The two branches of the loop body. */
  method PutChunk(dst: array?<byte>, pos: nat, c: byte, added: bool) returns (out: nat)
    requires dst != null ==> pos + 2 <= dst.Length || (pos + 1 <= dst.Length && !added)
    requires added ==> c == LINEFEED
    modifies dst
    ensures out == pos + (if added then 2 else 1)
    ensures dst != null ==> dst[..out] == old(dst[..pos]) + Chunk(added, c)
  {
    out := pos;
    if added {
      if dst != null {
        dst[out] := CARRIAGE_RETURN;
      }
      out := out + 1;
    }
    if dst != null {
      dst[out] := c;
    }
    out := out + 1;
  }

  // ---------------------------------------------------------------- one call

  datatype Status = CopyOk | Truncated | NoData

  /** `left` is `data_left` after the call: -1 nothing read yet, -2 end reported, otherwise the
      number of bytes still to be read. */
  datatype Part = Part(status: Status, chunk: seq<byte>, len: int, left: int)

  /** `data_left` as the call finds it, once -2 has been replaced. */
  function Entered(left: int, cb: nat): int {
    if left == -2 then (if cb > 0 then 0 else -1) else left
  }

  /** What remains of the value `v`. */
  function Remaining(v: seq<byte>, left: int): seq<byte>
    requires left <= |v|
  {
    if left == -1 then v else if left <= 0 then [] else v[|v| - left..]
  }

  function CopyLen(n: nat, cb: nat): nat {
    if cb <= 1 then 0 else if n + 1 > cb then cb - 1 else n
  }

  /** One call with a buffer of `cb` bytes; `spare` is how much longer than the value the internal
      buffer is (at least one). */
  function GetPart(v: seq<byte>, left0: int, cb: nat, spare: nat): Part
    requires -2 <= left0 <= |v|
  {
    var left := Entered(left0, cb);
    var rest := Remaining(v, left);
    var n := CopyLen(|rest|, cb);
    if left == 0 then Part(NoData, [], 0, -2)
    else if cb == 0 then
      if left == -1 then Part(Truncated, [], |v|, -1) else Part(CopyOk, [], left, 0)
    else if |rest| + (if left == -1 then 1 else spare) > cb then Part(Truncated, rest[..n], |rest|, |rest| - n)
    else Part(CopyOk, rest, |rest|, 0)
  }

  // ---------------------------------------------------------------- the object

  class GetDataClass {
    var ttlbuf: array?<byte>
    var ttlbuflen: nat
    var ttlbufused: nat
    var data_left: int

    /** While a value is partly read, `ttlbuf` holds it. */
    ghost predicate Valid(v: seq<byte>)
      reads this, ttlbuf
    {
      && -2 <= data_left <= |v| && |v| < INT_MAX
      && ttlbuflen <= INT_MAX
      && (ttlbuf != null ==> ttlbuf.Length >= ttlbuflen)
      && (data_left > 0 ==>
            ttlbuf != null && ttlbufused == |v| < ttlbuflen && ttlbuf[..ttlbufused] == v)
    }

    constructor ()
      ensures data_left == -1 && ttlbuf == null
      ensures forall v: seq<byte> :: |v| < INT_MAX ==> Valid(v)
    {
      ttlbuf, ttlbuflen, ttlbufused, data_left := null, 0, 0, -1;
    }

    /** `setup_getdataclass`: `buffered` tells whether the value is read from `ttlbuf`. */
    method Setup(neut_str: seq<byte>, lfConv: bool, cbValueMax: nat)
      returns (truncated: bool, len: nat, needbuflen: nat, buffered: bool)
      requires NulFree(neut_str) && Valid(Expanded(lfConv, NUL, neut_str))
      modifies this, ttlbuf
      ensures data_left == old(data_left)
      ensures ttlbuf == old(ttlbuf) || ttlbuf == null || fresh(ttlbuf)
      ensures len == |Expanded(lfConv, NUL, neut_str)|
      ensures truncated <==> cbValueMax == 0
      ensures truncated ==> ttlbuf == old(ttlbuf) && ttlbuflen == old(ttlbuflen) && ttlbufused == old(ttlbufused)
                            && (ttlbuf != null ==> ttlbuf[..] == old(ttlbuf[..]))
      ensures !truncated ==>
                && needbuflen == len + 1
                && ttlbuflen <= INT_MAX && (ttlbuf != null ==> ttlbuf.Length >= ttlbuflen)
                && (buffered ==> ttlbuf != null && ttlbufused == len < ttlbuflen
                                 && ttlbuf[..ttlbufused] == Expanded(lfConv, NUL, neut_str))
                && (!buffered ==> needbuflen <= cbValueMax && neut_str == Expanded(lfConv, NUL, neut_str))
    {
      ghost var v := Expanded(lfConv, NUL, neut_str);
      RoomEnough(lfConv, NUL, neut_str, MAX_SIZE - 1);
      ExpandedSize(lfConv, NUL, neut_str);
      var changed;
      len, changed := ConvertLinefeeds(neut_str, null, 0, lfConv);
      truncated, needbuflen, buffered := cbValueMax == 0, 0, false;
      if truncated {
        return;
      }
      if ttlbuf == null {
        ttlbuflen := 0;
      }
      needbuflen := len + 1;
      buffered := changed || needbuflen > cbValueMax;
      if buffered {
        if needbuflen > ttlbuflen {
          ttlbuf := new byte[needbuflen](i => NUL);
          ttlbuflen := needbuflen;
        }
        RoomEnough(lfConv, NUL, neut_str, ttlbuflen - 1);
        var out;
        out, changed := ConvertLinefeeds(neut_str, ttlbuf, ttlbuflen, lfConv);
        ttlbufused := len;
      } else {
        ttlbuf := null;
      }
    }

    /** One SQLGetData call with the buffer `rgb`: the chunk and its terminator are written, the length
        that remained is returned. */
    method GetData(neut_str: seq<byte>, lfConv: bool, rgb: array<byte>) returns (status: Status, len: int, copied: nat)
      requires NulFree(neut_str) && Valid(Expanded(lfConv, NUL, neut_str)) && rgb != ttlbuf
      modifies this, ttlbuf, rgb
      ensures Valid(Expanded(lfConv, NUL, neut_str))
      ensures copied <= rgb.Length
      ensures Part(status, rgb[..copied], len, data_left)
           == GetPart(Expanded(lfConv, NUL, neut_str), old(data_left), rgb.Length, Spare(old(ttlbuflen), old(ttlbufused)))
      ensures status != NoData && rgb.Length > 0 ==> copied < rgb.Length && rgb[copied] == NUL
      ensures ttlbuf == old(ttlbuf) || ttlbuf == null || fresh(ttlbuf)
    {
      var ended := Enter(rgb.Length);
      if ended {
        return NoData, 0, 0;
      }
      var truncated, rest, needbuflen, length := Position(neut_str, lfConv, rgb.Length);
      if truncated {
        return Truncated, length, 0;
      }
      status, copied := CopyOut(rest, needbuflen, rgb);
      len := length;
      PartComputed(Expanded(lfConv, NUL, neut_str), old(data_left), rgb.Length,
                   Spare(old(ttlbuflen), old(ttlbufused)), rest, status, copied);
    }

    /** Calls with buffers of the given sizes, one after the other, up to the first that reports the end:
        the chunks put together, and whether the end was reported. */
    method ReadParts(neut_str: seq<byte>, lfConv: bool, sizes: seq<nat>)
      returns (text: seq<byte>, ended: bool, ghost calls: seq<Call>)
      requires NulFree(neut_str) && Valid(Expanded(lfConv, NUL, neut_str)) && data_left >= -1
      modifies this, ttlbuf
      ensures Valid(Expanded(lfConv, NUL, neut_str)) && (ended <==> data_left == -2)
      ensures |calls| == |sizes| && forall i :: 0 <= i < |sizes| ==> calls[i].cb == sizes[i] && calls[i].spare > 0
      ensures var v := Expanded(lfConv, NUL, neut_str);
              var d := Deliver(v, old(data_left), calls);
              && text == d.text && ended == d.ended && text <= Remaining(v, old(data_left))
              && (ended ==> (text == Remaining(v, old(data_left)) <==> !d.abandoned))
      decreases |sizes|
    {
      hide Deliver, GetPart, Remaining, Expanded, Spare, NulFree;
      ghost var v, left := Expanded(lfConv, NUL, neut_str), data_left;
      if sizes == [] {
        text, ended, calls := [], false, [];
        NoCalls(v, left);
      } else {
        ghost var first := Call(sizes[0], Spare(ttlbuflen, ttlbufused));
        SpareRoom(ttlbuflen, ttlbufused);
        DeliverMore(v, left, first, []);
        var rgb := new byte[sizes[0]](i => NUL);
        var status, len, copied := GetData(neut_str, lfConv, rgb);
        if status == NoData {
          text, ended, calls := [], true, [first] + seq(|sizes| - 1, i requires 0 <= i < |sizes| - 1 => Call(sizes[i + 1], 1));
          DeliverMore(v, left, first, calls[1..]);
          assert calls == [first] + calls[1..];
        } else {
          text, ended, calls := ReadParts(neut_str, lfConv, sizes[1..]);
          DeliverMore(v, left, first, calls);
          text, calls := rgb[..copied] + text, [first] + calls;
        }
      }
      DeliveryExact(v, left, calls);
    }

    /** The start of `copy_and_convert_field`. */
    method Enter(cbValueMax: nat) returns (ended: bool)
      modifies this
      ensures ended <==> Entered(old(data_left), cbValueMax) == 0
      ensures data_left == if ended then -2 else Entered(old(data_left), cbValueMax)
      ensures !ended || old(ttlbuf) == null ==> ttlbuf == old(ttlbuf) && ttlbuflen == old(ttlbuflen)
      ensures ended ==> ttlbuf == null && ttlbuflen <= old(ttlbuflen)
      ensures ttlbufused == old(ttlbufused)
    {
      if data_left == -2 {
        data_left := if cbValueMax > 0 then 0 else -1;
      }
      ended := data_left == 0;
      if ended {
        if ttlbuf != null {
          ttlbuf, ttlbuflen := null, 0;
        }
        data_left := -2;
      }
    }

    /** Where the data to copy is: converted now, or left in `ttlbuf` by the calls before. */
    method Position(neut_str: seq<byte>, lfConv: bool, cbValueMax: nat)
      returns (truncated: bool, rest: seq<byte>, needbuflen: nat, length: nat)
      requires NulFree(neut_str) && Valid(Expanded(lfConv, NUL, neut_str))
      requires data_left == -1 || data_left > 0
      modifies this, ttlbuf
      ensures ttlbuf == old(ttlbuf) || ttlbuf == null || fresh(ttlbuf)
      ensures length == |Remaining(Expanded(lfConv, NUL, neut_str), old(data_left))|
      ensures truncated <==> old(data_left) == -1 && cbValueMax == 0
      ensures truncated ==> data_left == -1 && Valid(Expanded(lfConv, NUL, neut_str))
      ensures !truncated ==>
                && rest == Remaining(Expanded(lfConv, NUL, neut_str), old(data_left))
                && data_left == |rest|
                && needbuflen == |rest| + (if old(data_left) == -1 then 1 else Spare(old(ttlbuflen), old(ttlbufused)))
                && ttlbuflen <= INT_MAX && (ttlbuf != null ==> ttlbuf.Length >= ttlbuflen)
                && (cbValueMax > 0 && needbuflen > cbValueMax ==>
                      ttlbuf != null && ttlbufused == |Expanded(lfConv, NUL, neut_str)| < ttlbuflen
                      && ttlbuf[..ttlbufused] == Expanded(lfConv, NUL, neut_str))
    {
      ghost var v := Expanded(lfConv, NUL, neut_str);
      rest, needbuflen := [], 0;
      if data_left < 0 {
        var vlen, buffered;
        truncated, vlen, needbuflen, buffered := Setup(neut_str, lfConv, cbValueMax);
        if truncated {
          length := vlen;
          return;
        }
        rest := if buffered then ttlbuf[..ttlbufused] else neut_str;
        data_left := vlen;
      } else {
        truncated := false;
        rest := ttlbuf[ttlbufused - data_left..ttlbufused];
        assert rest == v[|v| - data_left..];
        needbuflen := data_left + (ttlbuflen - ttlbufused);
      }
      length := |rest|;
    }

    /** The second half of `convert_text_field_to_sql_c` and what `copy_and_convert_field` does after it. */
    method CopyOut(rest: seq<byte>, needbuflen: nat, rgb: array<byte>) returns (status: Status, copied: nat)
      requires data_left == |rest| && needbuflen > |rest|
      modifies this`data_left, this`ttlbuf, rgb
      ensures copied == CopyLen(|rest|, rgb.Length) && rgb[..copied] == rest[..copied]
      ensures rgb.Length > 0 ==> copied < rgb.Length && rgb[copied] == NUL
      ensures status == if rgb.Length > 0 && needbuflen > rgb.Length then Truncated else CopyOk
      ensures data_left == if status == Truncated then |rest| - copied else 0
      ensures ttlbuf == if status == Truncated then old(ttlbuf) else null
    {
      copied := 0;
      if rgb.Length > 0 {
        copied := if 1 >= rgb.Length then 0 else if |rest| + 1 > rgb.Length then rgb.Length - 1 else |rest|;
        forall i | 0 <= i < copied {
          rgb[i] := rest[i];
        }
        rgb[copied] := NUL;
        data_left := data_left - copied;
      }
      if rgb.Length > 0 && needbuflen > rgb.Length {
        status := Truncated;
      } else {
        ttlbuf := null;
        status := CopyOk;
        data_left := 0;
      }
    }
  }

  lemma PartComputed(v: seq<byte>, left0: int, cb: nat, spare: nat, rest: seq<byte>, status: Status, copied: nat)
    requires -2 <= left0 <= |v|
    requires var left := Entered(left0, cb);
             && left != 0 && !(left == -1 && cb == 0)
             && rest == Remaining(v, left)
             && copied == CopyLen(|rest|, cb)
             && status == if cb > 0 && |rest| + (if left == -1 then 1 else spare) > cb then Truncated else CopyOk
    requires spare >= 1
    ensures GetPart(v, left0, cb, spare)
         == Part(status, rest[..copied], |rest|, if status == Truncated then |rest| - copied else 0)
  {
  }

  function Spare(ttlbuflen: nat, ttlbufused: nat): nat {
    if ttlbuflen > ttlbufused then ttlbuflen - ttlbufused else 1
  }

  // ---------------------------------------------------------------- any sequence of calls

  /** A call: the size of the application's buffer, and how much longer than the value the internal
      buffer happens to be. */
  datatype Call = Call(cb: nat, spare: nat)

  /** What a sequence of calls has delivered by the first NoData or, without one, by its end. */
  datatype Delivery = Delivery(text: seq<byte>, ended: bool, abandoned: bool)

  /** A zero-length call while a value is partly read. */
  predicate Abandons(left: int, c: Call) { left > 0 && c.cb == 0 }

  function Deliver(v: seq<byte>, left: int, calls: seq<Call>): Delivery
    requires -1 <= left <= |v|
    decreases calls
  {
    if calls == [] then Delivery([], false, false)
    else
      var p := GetPart(v, left, calls[0].cb, calls[0].spare);
      if p.status == NoData then Delivery([], true, false)
      else
        var rest := Deliver(v, p.left, calls[1..]);
        Delivery(p.chunk + rest.text, rest.ended, Abandons(left, calls[0]) || rest.abandoned)
  }

  lemma NoCalls(v: seq<byte>, left: int)
    requires -1 <= left <= |v|
    ensures Deliver(v, left, []) == Delivery([], false, false)
  {
  }

  lemma SpareRoom(ttlbuflen: nat, ttlbufused: nat)
    ensures Spare(ttlbuflen, ttlbufused) > 0
  {
  }

  lemma DeliverMore(v: seq<byte>, left: int, c: Call, calls: seq<Call>)
    requires -1 <= left <= |v|
    ensures var p := GetPart(v, left, c.cb, c.spare);
            && (p.status == NoData ==> Deliver(v, left, [c] + calls) == Delivery([], true, false) && p.left == -2)
            && (p.status != NoData ==>
                  && -1 <= p.left <= |v|
                  && Deliver(v, left, [c] + calls).text == p.chunk + Deliver(v, p.left, calls).text
                  && Deliver(v, left, [c] + calls).ended == Deliver(v, p.left, calls).ended)
  {
    assert ([c] + calls)[1..] == calls;
  }

  /** The length a call reports is what remained before it, and the chunk is the start of that. */
  lemma PartOfRemaining(v: seq<byte>, left: int, c: Call)
    requires -1 <= left <= |v| && left != 0
    ensures var p := GetPart(v, left, c.cb, c.spare);
            && p.status != NoData
            && p.len == |Remaining(v, left)|
            && -1 <= p.left <= |v|
            && p.chunk <= Remaining(v, left)
            && (!Abandons(left, c) ==> p.chunk + Remaining(v, p.left) == Remaining(v, left))
            && (Abandons(left, c) ==> p.chunk == [] && p.left == 0)
            && (c.cb > 0 && c.spare > 0 ==> |p.chunk| < c.cb)
  {
    var p := GetPart(v, left, c.cb, c.spare);
    var rest := Remaining(v, left);
    if c.cb > 0 && p.status == Truncated {
      var n := CopyLen(|rest|, c.cb);
      assert rest[..n] + rest[n..] == rest;
      assert p.left > 0 ==> Remaining(v, p.left) == rest[n..];
    }
  }

  /** Over any sequence of calls with any buffer sizes the chunks, in order, are a beginning of the
      value; when the end is reported they are the whole value if and only if no zero-length call was
      made while the value was partly read (such a call drops what was left). */
  lemma {:induction false} DeliveryExact(v: seq<byte>, left: int, calls: seq<Call>)
    requires -1 <= left <= |v|
    ensures var d := Deliver(v, left, calls);
            && d.text <= Remaining(v, left)
            && (d.ended ==> (d.text == Remaining(v, left) <==> !d.abandoned))
    decreases calls
  {
    if calls != [] && left != 0 {
      PartOfRemaining(v, left, calls[0]);
      var p := GetPart(v, left, calls[0].cb, calls[0].spare);
      DeliveryExact(v, p.left, calls[1..]);
      var rest := Deliver(v, p.left, calls[1..]);
      if !Abandons(left, calls[0]) {
        assert p.chunk + rest.text <= p.chunk + Remaining(v, p.left);
        assert (p.chunk + rest.text)[|p.chunk|..] == rest.text;
        assert (p.chunk + Remaining(v, p.left))[|p.chunk|..] == Remaining(v, p.left);
      }
    }
  }

  /** The end, once reported, is reported by every further call with a buffer; a zero-length call
      starts over. */
  lemma EndIsSticky(v: seq<byte>, c: Call)
    ensures c.cb > 0 ==> GetPart(v, -2, c.cb, c.spare) == Part(NoData, [], 0, -2)
    ensures c.cb == 0 ==> GetPart(v, -2, c.cb, c.spare) == Part(Truncated, [], |v|, -1)
  {
  }

  /** Progress: a call with room for at least one byte and its terminator delivers something, so the
      end is reported after finitely many of them. */
  lemma {:induction false} EndIsReached(v: seq<byte>, left: int, calls: seq<Call>)
    requires -1 <= left <= |v|
    requires forall i :: 0 <= i < |calls| ==> calls[i].cb >= 2
    requires |calls| >= |Remaining(v, left)| + 2
    ensures Deliver(v, left, calls).ended
    decreases calls
  {
    if left != 0 {
      PartOfRemaining(v, left, calls[0]);
      var p := GetPart(v, left, calls[0].cb, calls[0].spare);
      assert |p.chunk| + |Remaining(v, p.left)| == |Remaining(v, left)|;
      if p.left == 0 {
        assert Deliver(v, 0, calls[1..]).ended;
      } else {
        EndIsReached(v, p.left, calls[1..]);
      }
    }
  }
}
