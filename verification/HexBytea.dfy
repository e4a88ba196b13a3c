/**
 Byte strings as text: `pg_bin2hex` (also in place), `pg_hex2bin`, `convert_to_pgbinary` and
 `convert_from_pgbinary`.
 */
module HexBytea {
  import opened CBytes
  import opened Multibyte
  import opened QueryBuffer
  import opened LiteralQuoting

  const LOWER_X: byte := 120

  // ---------------------------------------------------------------- hexadecimal

  function HexDigit(n: nat): byte
    requires n < 16
  {
    if n < 10 then 48 + n else 55 + n
  }

  /** Digit `i` of the hexadecimal form of `s`. */
  function HexAt(s: seq<byte>, i: nat): byte
    requires i < 2 * |s|
  {
    if i % 2 == 0 then HexDigit(s[i / 2] / 16) else HexDigit(s[i / 2] % 16)
  }

  function Hex(s: seq<byte>): (h: seq<byte>)
    ensures |h| == 2 * |s|
  {
    seq(2 * |s|, i requires 0 <= i < 2 * |s| => HexAt(s, i))
  }

  function NibbleOf(c: byte): int {
    if 97 <= c <= 102 then c - 97 + 10 else if 65 <= c <= 70 then c - 65 + 10 else c - 48
  }

  /** The byte of two digits, in `char` arithmetic. */
  function Joined(hi: byte, lo: byte): byte {
    (NibbleOf(hi) * 16 % 256 + NibbleOf(lo)) % 256
  }

  function Unhex(h: seq<byte>): (s: seq<byte>)
    ensures |s| == |h| / 2
  {
    seq(|h| / 2, i requires 0 <= i < |h| / 2 => Joined(h[2 * i], h[2 * i + 1]))
  }

  lemma NibbleOfDigit(n: nat)
    requires n < 16
    ensures NibbleOf(HexDigit(n)) == n
  {
  }

  lemma JoinedDigits(b: byte)
    ensures Joined(HexDigit(b / 16), HexDigit(b % 16)) == b
  {
    NibbleOfDigit(b / 16);
    NibbleOfDigit(b % 16);
    HighHalf(b / 16);
    assert b / 16 * 16 + b % 16 == b;
  }

  lemma HighHalf(q: nat)
    requires q < 16
    ensures q * 16 % 256 == q * 16
  {
    assert 0 <= q * 16 < 256;
  }

  lemma UnhexHex(s: seq<byte>)
    ensures Unhex(Hex(s)) == s
    ensures NulFree(Hex(s))
  {
    forall i | 0 <= i < |s|
      ensures Unhex(Hex(s))[i] == s[i]
    {
      assert (2 * i) / 2 == i && (2 * i) % 2 == 0 && (2 * i + 1) / 2 == i && (2 * i + 1) % 2 == 1;
      JoinedDigits(s[i]);
    }
  }

  /** The memory range from `p` holds `s`. */
  ghost predicate Holds(m: seq<byte>, p: nat, s: seq<byte>) {
    p + |s| <= |m| && forall k :: 0 <= k < |s| ==> m[p + k] == s[k]
  }

  /** Nothing outside `lo..hi` differs. */
  ghost predicate SameOutside(m: seq<byte>, was: seq<byte>, lo: nat, hi: nat) {
    |m| == |was| && forall k :: 0 <= k < |m| && !(lo <= k < hi) ==> m[k] == was[k]
  }

  /** The two digits of byte `k` are in place. */
  ghost predicate Written(m: seq<byte>, dst: nat, s: seq<byte>, k: nat)
    requires k < |s|
  {
    && dst + 2 * k + 1 < |m|
    && m[dst + 2 * k] == HexDigit(s[k] / 16)
    && m[dst + 2 * k + 1] == HexDigit(s[k] % 16)
  }

  ghost predicate WrittenAll(m: seq<byte>, dst: nat, s: seq<byte>, lo: nat, hi: nat)
    requires hi <= |s|
  {
    forall k :: lo <= k < hi ==> Written(m, dst, s, k)
  }

  lemma WrittenStep(before: seq<byte>, m: seq<byte>, dst: nat, s: seq<byte>, lo: nat, hi: nat, i: nat)
    requires hi <= |s| && i < |s| && (i < lo || i >= hi) && dst + 2 * |s| <= |before|
    requires WrittenAll(before, dst, s, lo, hi)
    requires m == before[dst + 2 * i := HexDigit(s[i] / 16)][dst + 2 * i + 1 := HexDigit(s[i] % 16)]
    ensures WrittenAll(m, dst, s, lo, hi) && Written(m, dst, s, i)
  {
    forall k | lo <= k < hi
      ensures Written(m, dst, s, k)
    {
      assert Written(before, dst, s, k);
    }
  }

  lemma WrittenHolds(m: seq<byte>, dst: nat, s: seq<byte>)
    requires WrittenAll(m, dst, s, 0, |s|) && dst + 2 * |s| <= |m|
    ensures Holds(m, dst, Hex(s))
  {
    forall i | 0 <= i < 2 * |s|
      ensures dst + i < |m| && m[dst + i] == Hex(s)[i]
    {
      assert Written(m, dst, s, i / 2);
      assert i == 2 * (i / 2) || i == 2 * (i / 2) + 1;
    }
  }

  /** `pg_bin2hex`. Ranges of different buffers never overlap. In one buffer, a destination that
      starts before the source is refused when the digits would overtake the bytes still to be
      read; otherwise the digits are those of the source as it was, for every overlap. */
  method BinToHex(from: array<byte>, src: nat, to: array<byte>, dst: nat, length: nat) returns (r: int)
    requires src + length <= from.Length && dst + 2 * length < to.Length
    modifies to
    ensures r == -1 <==> from == to && dst < src && dst + 2 * (length - 1) > src + length - 1
    ensures r == -1 ==> to[..] == old(to[..])
    ensures r != -1 ==>
              && r == 2 * length
              && Holds(to[..], dst, Hex(old(from[src..src + length])))
              && to[dst + 2 * length] == NUL
              && SameOutside(to[..], old(to[..]), dst, dst + 2 * length + 1)
  {
    ghost var s := from[src..src + length];
    var backwards := false;
    if from == to {
      if dst < src {
        if dst + 2 * (length - 1) > src + length - 1 {
          return -1;
        }
      } else if dst < src + length {
        backwards := true;
      }
    }
    if backwards {
      HexBackwards(from, src, to, dst, length);
    } else {
      HexForwards(from, src, to, dst, length);
    }
    WrittenHolds(to[..], dst, s);
    to[dst + 2 * length] := NUL;
    r := 2 * length;
  }

  method HexForwards(from: array<byte>, src: nat, to: array<byte>, dst: nat, length: nat)
    requires src + length <= from.Length && dst + 2 * length < to.Length
    requires from != to || dst >= src + length || (dst < src && dst + 2 * (length - 1) <= src + length - 1)
    modifies to
    ensures WrittenAll(to[..], dst, old(from[src..src + length]), 0, length)
    ensures SameOutside(to[..], old(to[..]), dst, dst + 2 * length)
  {
    ghost var s := from[src..src + length];
    var i := 0;
    while i < length
      invariant 0 <= i <= length
      invariant forall k :: i <= k < length ==> from[src + k] == s[k]
      invariant WrittenAll(to[..], dst, s, 0, i)
      invariant SameOutside(to[..], old(to[..]), dst, dst + 2 * length)
    {
      var chr := from[src + i];
      ghost var before := to[..];
      to[dst + 2 * i] := HexDigit(chr / 16);
      to[dst + 2 * i + 1] := HexDigit(chr % 16);
      WrittenStep(before, to[..], dst, s, 0, i, i);
      i := i + 1;
    }
  }

  method HexBackwards(from: array<byte>, src: nat, to: array<byte>, dst: nat, length: nat)
    requires src + length <= from.Length && dst + 2 * length < to.Length && (from == to ==> src <= dst)
    modifies to
    ensures WrittenAll(to[..], dst, old(from[src..src + length]), 0, length)
    ensures SameOutside(to[..], old(to[..]), dst, dst + 2 * length)
  {
    ghost var s := from[src..src + length];
    var i := length;
    while i > 0
      invariant 0 <= i <= length
      invariant forall k :: 0 <= k < i ==> from[src + k] == s[k]
      invariant WrittenAll(to[..], dst, s, i, length)
      invariant SameOutside(to[..], old(to[..]), dst, dst + 2 * length)
    {
      i := i - 1;
      var chr := from[src + i];
      ghost var before := to[..];
      to[dst + 2 * i + 1] := HexDigit(chr % 16);
      to[dst + 2 * i] := HexDigit(chr / 16);
      WrittenStep(before, to[..], dst, s, i + 1, length, i);
    }
  }

  /** Where the digits end: at a NUL or after `length` of them. */
  function HexEnd(h: seq<byte>): (n: nat)
    ensures n <= |h| && (n < |h| ==> h[n] == NUL) && NulFree(h[..n])
  {
    if h == [] || h[0] == NUL then 0 else
      var n := HexEnd(h[1..]);
      assert h[..1 + n] == [h[0]] + h[1..][..n];
      1 + n
  }

  lemma {:induction false} HexEndNulFree(h: seq<byte>)
    requires NulFree(h)
    ensures HexEnd(h) == |h|
  {
    if h != [] {
      HexEndNulFree(h[1..]);
    }
  }

  lemma {:induction false} HexEndIs(h: seq<byte>, n: nat)
    requires n <= |h| && (n == |h| || h[n] == NUL) && NulFree(h[..n])
    ensures HexEnd(h) == n
  {
    if n > 0 {
      assert h[0] == h[..n][0];
      assert h[1..][..n - 1] == h[..n][1..];
      HexEndIs(h[1..], n - 1);
    }
  }

  /** `pg_hex2bin`, possibly in place (destination at or before the source). */
  method HexToBin(from: array<byte>, src: nat, to: array<byte>, dst: nat, length: nat)
    requires src + length <= from.Length && dst + length / 2 < to.Length
    requires from != to || dst <= src || dst >= src + length
    modifies to
    ensures var h := old(from[src..src + length]);
            var n := HexEnd(h);
            && Holds(to[..], dst, Unhex(h[..n]))
            && to[dst + n / 2] == NUL
            && SameOutside(to[..], old(to[..]), dst, dst + n / 2 + 1)
  {
    ghost var h := from[src..src + length];
    ghost var was := to[..];
    ghost var i, high;
    var o;
    i, o, high := ScanHex(from, src, to, dst, length, h, was);
    HexEndIs(h, i);
    Finish(to, dst, o, h[..i], was);
  }

  method ScanHex(from: array<byte>, src: nat, to: array<byte>, dst: nat, length: nat, ghost h: seq<byte>, ghost was: seq<byte>)
    returns (ghost i: nat, o: nat, ghost high: bool)
    requires src + length <= from.Length && dst + length / 2 < to.Length && |h| == length
    requires from != to || dst <= src || dst >= src + length
    requires HexLoop(from[..], to[..], was, src, dst, h, 0, 0, true)
    modifies to
    ensures HexLoop(from[..], to[..], was, src, dst, h, i, o, high)
    ensures i == length || (i < length && from[..][src + i] == NUL)
  {
    var n, hByte := 0, true;
    o := 0;
    while n < length && from[src + n] != NUL
      invariant 0 <= n <= length && HexLoop(from[..], to[..], was, src, dst, h, n, o, hByte)
    {
      o, hByte := DigitAt(from, src, to, dst, h, was, n, o, hByte);
      n := n + 1;
    }
    i, high := n, hByte;
  }

  /** State of the loop after `i` digits and `o` complete bytes. */
  ghost predicate HexLoop(from: seq<byte>, to: seq<byte>, was: seq<byte>, src: nat, dst: nat,
                          h: seq<byte>, i: nat, o: nat, high: bool)
  {
    && i <= |h| && i == 2 * o + (if high then 0 else 1)
    && NulFree(h[..i])
    && Unread(from, src, h, i)
    && HalfDone(to, dst, h[..i])
    && SameOutside(to, was, dst, dst + o + (if high then 0 else 1))
  }

  /** One turn of the loop. */
  method DigitAt(from: array<byte>, src: nat, to: array<byte>, dst: nat, ghost h: seq<byte>, ghost was: seq<byte>,
                 i: nat, o0: nat, high0: bool) returns (o: nat, high: bool)
    requires i < |h| && src + |h| <= from.Length && dst + |h| / 2 < to.Length
    requires from != to || dst <= src || dst >= src + |h|
    requires HexLoop(from[..], to[..], was, src, dst, h, i, o0, high0) && from[src + i] != NUL
    modifies to
    ensures HexLoop(from[..], to[..], was, src, dst, h, i + 1, o, high)
  {
    ghost var source, before := from[..], to[..];
    var chr := from[src + i];
    PutDigit(to, dst, h[..i], high0, o0, chr);
    DigitFrame(source, from[..], from == to, before, to[..], was, src, dst, h, i, o0, high0);
    o, high := if high0 then o0 else o0 + 1, !high0;
  }

  /** The terminator after the last complete byte. */
  method Finish(to: array<byte>, dst: nat, o: nat, ghost h: seq<byte>, ghost was: seq<byte>)
    requires dst + o < to.Length && o == |h| / 2 && HalfDone(to[..], dst, h)
    requires SameOutside(to[..], was, dst, dst + o + 1)
    modifies to
    ensures Holds(to[..], dst, Unhex(h)) && to[dst + |h| / 2] == NUL
    ensures SameOutside(to[..], was, dst, dst + |h| / 2 + 1)
  {
    to[dst + o] := NUL;
  }

  /** The digits from the `i`-th on are still in place. */
  ghost predicate Unread(m: seq<byte>, src: nat, h: seq<byte>, i: nat) {
    src + |h| <= |m| && forall k :: i <= k < |h| ==> m[src + k] == h[k]
  }

  lemma DigitFrame(source: seq<byte>, from: seq<byte>, same: bool, before: seq<byte>, m: seq<byte>, was: seq<byte>,
                   src: nat, dst: nat, h: seq<byte>, i: nat, o: nat, high: bool)
    requires if same then source == before && from == m else from == source
    requires i == 2 * o + (if high then 0 else 1) && i < |h| && h[i] != NUL && NulFree(h[..i]) && (same ==> dst <= src || dst >= src + |h|)
    requires Unread(source, src, h, i) && SameOutside(m, before, dst + o, dst + o + 1)
    requires SameOutside(before, was, dst, dst + o + (if high then 0 else 1))
    ensures Unread(from, src, h, i + 1) && NulFree(h[..i + 1]) && h[..i + 1] == h[..i] + [h[i]]
    ensures SameOutside(m, was, dst, dst + o + 1)
  {
  }

  /** One digit: the high half starts a byte, the low half is added to it. */
  method PutDigit(to: array<byte>, dst: nat, ghost h: seq<byte>, high: bool, o: nat, chr: byte)
    requires dst + o < to.Length && |h| == 2 * o + (if high then 0 else 1)
    requires HalfDone(to[..], dst, h)
    modifies to
    ensures HalfDone(to[..], dst, h + [chr])
    ensures SameOutside(to[..], old(to[..]), dst + o, dst + o + 1)
  {
    ghost var was := to[..];
    HalfStep(was, dst, h, chr);
    if high {
      to[dst + o] := NibbleOf(chr) * 16 % 256;
    } else {
      to[dst + o] := (to[dst + o] + NibbleOf(chr)) % 256;
    }
    assert to[..] == was[dst + o := to[dst + o]];
  }

  /** The bytes of the complete pairs of `h`, then the high half of an odd last digit. */
  ghost predicate HalfDone(m: seq<byte>, dst: nat, h: seq<byte>) {
    && Holds(m, dst, Unhex(h))
    && (|h| % 2 == 1 ==> dst + |h| / 2 < |m| && m[dst + |h| / 2] == NibbleOf(h[|h| - 1]) * 16 % 256)
  }

  lemma HalfStep(m: seq<byte>, dst: nat, h: seq<byte>, c: byte)
    requires HalfDone(m, dst, h) && dst + |h| / 2 < |m|
    ensures var p := dst + |h| / 2;
            HalfDone(m[p := if |h| % 2 == 0 then NibbleOf(c) * 16 % 256 else (m[p] + NibbleOf(c)) % 256], dst, h + [c])
  {
    UnhexSnoc(h, c);
  }

  lemma UnhexSnoc(h: seq<byte>, c: byte)
    ensures |h| % 2 == 0 ==> Unhex(h + [c]) == Unhex(h)
    ensures |h| % 2 == 1 ==> Unhex(h + [c]) == Unhex(h) + [Joined(h[|h| - 1], c)]
  {
  }

  /** `pg_hex2bin` undoes `pg_bin2hex`, wherever the digits stand. */
  lemma HexRoundTrip(s: seq<byte>)
    ensures HexEnd(Hex(s)) == |Hex(s)| && Unhex(Hex(s)[..HexEnd(Hex(s))]) == s
  {
    UnhexHex(s);
    HexEndNulFree(Hex(s));
    assert Hex(s)[..|Hex(s)|] == Hex(s);
  }

  // ---------------------------------------------------------------- bytea

  /** Whether backslashes are written twice. */
  predicate EscDouble(cfg: Config) { !cfg.bindRequest && cfg.escape != NUL }

  function Lead(cfg: Config): seq<byte> { if EscDouble(cfg) then [cfg.escape] else [] }

  function OctalDigits(b: byte): (d: seq<byte>)
    ensures |d| == 3
  {
    [48 + b / 64, 48 + b / 8 % 8, 48 + b % 8]
  }

  predicate Plain(b: byte) { b < 128 && (IsAlnum(b) || b == SPACE) }

  function OctalByte(cfg: Config, b: byte): seq<byte> {
    if Plain(b) then [b] else Lead(cfg) + [BACKSLASH] + OctalDigits(b)
  }

  function Octal(cfg: Config, s: seq<byte>): (t: seq<byte>)
    ensures |t| <= 5 * |s|
  {
    if s == [] then [] else OctalByte(cfg, s[0]) + Octal(cfg, s[1..])
  }

  /** What `convert_to_pgbinary` writes. */
  function PgBinary(cfg: Config, hexFormat: bool, s: seq<byte>): seq<byte> {
    if hexFormat then Lead(cfg) + [BACKSLASH, LOWER_X] + Hex(s) else Octal(cfg, s)
  }

  /** The room `CVT_APPEND_BINARY` asks for. */
  function Reserved(hexFormat: bool, used: nat): nat {
    if hexFormat then 2 * used + 4 else 5 * used
  }

  /** `conv_to_octal`; without an escape character also `conv_to_octal2`. */
  method ConvToOctal(val: byte, octal: array<byte>, at: nat, escape: byte) returns (len: nat)
    requires at + (if escape != NUL then 5 else 4) < octal.Length
    modifies octal
    ensures len == (if escape != NUL then 5 else 4)
    ensures octal[..at] == old(octal[..at])
    ensures octal[at..at + len] == (if escape != NUL then [escape] else []) + [BACKSLASH] + OctalDigits(val)
    ensures octal[at + len] == NUL
  {
    var pos := at;
    if escape != NUL {
      octal[pos] := escape;
      pos := pos + 1;
    }
    octal[pos] := BACKSLASH;
    OctalLoop(val, octal, pos);
    len := pos + 4 - at;
  }

  method OctalLoop(val: byte, octal: array<byte>, pos: nat)
    requires pos + 4 < octal.Length
    modifies octal
    ensures octal[..pos + 1] == old(octal[..pos + 1])
    ensures octal[pos + 1..pos + 4] == OctalDigits(val) && octal[pos + 4] == NUL
  {
    octal[pos + 4] := NUL;
    var i, v := pos + 3, val as int;
    while i > pos
      invariant pos <= i <= pos + 3 && octal[pos + 4] == NUL
      invariant octal[..pos + 1] == old(octal[..pos + 1])
      invariant v == (if i == pos + 3 then val as int else if i == pos + 2 then val / 8 else if i == pos + 1 then val / 64 else 0)
      invariant i < pos + 3 ==> octal[pos + 3] == 48 + val % 8
      invariant i < pos + 2 ==> octal[pos + 2] == 48 + val / 8 % 8
      invariant i < pos + 1 ==> octal[pos + 1] == 48 + val / 64
    {
      octal[i] := v % 8 + 48;
      v := v / 8;
      i := i - 1;
    }
  }

  /** `convert_to_pgbinary`, within the room reserved for it. */
  method ConvertToPgbinary(input: array<byte>, out: array<byte>, pos: nat, len: nat, cfg: Config, hexFormat: bool)
    returns (o: nat)
    requires input != out && len <= input.Length && pos + Reserved(hexFormat, len) < out.Length
    modifies out
    ensures o <= Reserved(hexFormat, len)
    ensures out[..pos + o] == old(out[..pos]) + PgBinary(cfg, hexFormat, input[..len])
  {
    if hexFormat {
      o := PutHex(input, out, pos, len, cfg);
    } else {
      o := PutOctal(input, out, pos, len, cfg);
    }
  }

  method PutOctal(input: array<byte>, out: array<byte>, pos: nat, len: nat, cfg: Config) returns (o: nat)
    requires input != out && len <= input.Length && pos + 5 * len < out.Length
    modifies out
    ensures o <= 5 * len && out[..pos + o] == old(out[..pos]) + Octal(cfg, input[..len])
  {
    o := 0;
    ghost var s := input[..len];
    ghost var goal := out[..pos] + Octal(cfg, s);
    var i := 0;
    assert s[0..] == s;
    while i < len
      invariant i <= len && o <= 5 * i && Emitted(cfg, out[..], pos + o, s, i, goal)
    {
      o := OctalAt(input, out, pos, cfg, s, i, o, goal);
      i := i + 1;
    }
  }

  /** What is out, followed by what the rest of `s` gives, is the goal. */
  ghost predicate Emitted(cfg: Config, m: seq<byte>, n: nat, s: seq<byte>, i: nat, goal: seq<byte>) {
    n <= |m| && i <= |s| && m[..n] + Octal(cfg, s[i..]) == goal
  }

  method OctalAt(input: array<byte>, out: array<byte>, pos: nat, cfg: Config, ghost s: seq<byte>, i: nat, o0: nat, ghost goal: seq<byte>)
    returns (o: nat)
    requires input != out && i < |s| <= input.Length && input[i] == s[i] && pos + 5 * |s| < out.Length && o0 <= 5 * i
    requires Emitted(cfg, out[..], pos + o0, s, i, goal)
    modifies out
    ensures o <= 5 * (i + 1) && Emitted(cfg, out[..], pos + o, s, i + 1, goal)
  {
    ghost var text := out[..pos + o0];
    var k := PutOctalByte(out, pos + o0, input[i], cfg);
    o := o0 + k;
    assert s[i..][1..] == s[i + 1..];
    Associative(text, OctalByte(cfg, s[i]), Octal(cfg, s[i + 1..]));
    assert out[..][..pos + o] == out[..pos + o];
  }

  method PutHex(input: array<byte>, out: array<byte>, pos: nat, len: nat, cfg: Config) returns (o: nat)
    requires input != out && len <= input.Length && pos + 2 * len + 4 < out.Length
    modifies out
    ensures o <= 2 * len + 3
    ensures out[..pos + o] == old(out[..pos]) + PgBinary(cfg, true, input[..len])
  {
    ghost var before := out[..pos];
    o := PutPrefix(out, pos, cfg);
    var k := AppendHex(input, out, pos + o, len);
    Associative(before, Lead(cfg) + [BACKSLASH, LOWER_X], Hex(input[..len]));
    o := o + k;
  }

  method AppendHex(input: array<byte>, out: array<byte>, at: nat, len: nat) returns (k: nat)
    requires input != out && len <= input.Length && at + 2 * len < out.Length
    modifies out
    ensures k == 2 * len && out[..at + k] == old(out[..at]) + Hex(input[..len])
  {
    ghost var was := out[..];
    assert input[0..0 + len] == input[..len];
    var r := BinToHex(input, 0, out, at, len);
    HexAppended(was, out[..], at, Hex(input[..len]));
    k := r;
  }

  lemma HexAppended(before: seq<byte>, m: seq<byte>, at: nat, h: seq<byte>)
    requires Holds(m, at, h) && SameOutside(m, before, at, at + |h| + 1)
    ensures m[..at + |h|] == before[..at] + h
  {
  }

  method PutPrefix(out: array<byte>, pos: nat, cfg: Config) returns (o: nat)
    requires pos + 2 < out.Length
    modifies out
    ensures o <= 3 && out[..pos + o] == old(out[..pos]) + (Lead(cfg) + [BACKSLASH, LOWER_X])
  {
    o := 0;
    if EscDouble(cfg) {
      out[pos] := cfg.escape;
      o := 1;
    }
    out[pos + o] := BACKSLASH;
    out[pos + o + 1] := LOWER_X;
    o := o + 2;
  }

  method PutOctalByte(out: array<byte>, at: nat, inc: byte, cfg: Config) returns (k: nat)
    requires at + 5 < out.Length
    modifies out
    ensures 1 <= k <= 5 && out[..at + k] == old(out[..at]) + OctalByte(cfg, inc)
  {
    if Plain(inc) {
      out[at] := inc;
      k := 1;
    } else {
      k := ConvToOctal(inc, out, at, if EscDouble(cfg) then cfg.escape else NUL);
      assert out[..at + k] == out[..at] + out[at..at + k];
    }
  }

  /** `CVT_APPEND_BINARY` */
  method AppendBinary(qb: Buffer, cfg: Config, hexFormat: bool, buf: array<byte>, used: nat)
    requires qb.Valid() && buf != qb.query_statement && used <= buf.Length
    modifies qb, qb.query_statement
    ensures qb.Valid() && (qb.query_statement == old(qb.query_statement) || fresh(qb.query_statement))
    ensures qb.Contents() == old(qb.Contents()) + PgBinary(cfg, hexFormat, buf[..used])
  {
    var newlimit := qb.npos + Reserved(hexFormat, used);
    if newlimit >= qb.str_alsize {
      qb.Enlarge(newlimit);
    }
    var o := ConvertToPgbinary(buf, qb.query_statement, qb.npos, used, cfg, hexFormat);
    qb.npos := qb.npos + o;
  }

  // ---------------------------------------------------------------- and back

  /** `conv_from_octal`, stored in a char. */
  function FromOctal(d1: byte, d2: byte, d3: byte): byte {
    ((d1 - 48) * 64 + (d2 - 48) * 8 + (d3 - 48)) % 256
  }

  /** Octal escapes have their three digits: the converter reads them unchecked. */
  predicate CompleteEscapes(raw: bool, s: seq<byte>) {
    if s == [] then true
    else if s[0] == BACKSLASH then
      if At(s, 1) == BACKSLASH then CompleteEscapes(raw, s[2..])
      else if At(s, 1) == LOWER_X then true
      else |s| >= 4 && CompleteEscapes(raw, s[4..])
    else raw || CompleteEscapes(raw, s[1..])
  }

  /** The bytes `convert_from_pgbinary` makes of a text; `raw` is binary_rawout. */
  function FromBytea(raw: bool, s: seq<byte>): seq<byte>
    requires CompleteEscapes(raw, s)
  {
    if s == [] then []
    else if s[0] == BACKSLASH then
      if At(s, 1) == BACKSLASH then [BACKSLASH] + FromBytea(raw, s[2..])
      else if At(s, 1) == LOWER_X then Unhex(s[2..])
      else [FromOctal(s[1], s[2], s[3])] + FromBytea(raw, s[4..])
    else if raw then Unhex(s)
    else [s[0]] + FromBytea(raw, s[1..])
  }

  /** `o` bytes are out (kept only when there is a buffer), `rest` is still to come. */
  ghost predicate Produced(rgb: array?<byte>, o: nat, rest: seq<byte>, goal: seq<byte>)
    reads rgb
  {
    && o + |rest| == |goal|
    && (rgb != null ==> |goal| < rgb.Length && rgb[..o] + rest == goal)
  }

  /** `convert_from_pgbinary`; without a buffer it only measures. */
  method ConvertFromPgbinary(value: array<byte>, length: nat, raw: bool, rgbValue: array?<byte>) returns (o: nat)
    requires length < value.Length && value[length] == NUL && NulFree(value[..length])
    requires CompleteEscapes(raw, value[..length])
    requires rgbValue != null ==> rgbValue != value && |FromBytea(raw, value[..length])| < rgbValue.Length
    modifies if rgbValue == null then {} else {rgbValue}
    ensures o == |FromBytea(raw, value[..length])|
    ensures rgbValue != null ==> rgbValue[..o] == FromBytea(raw, value[..length]) && rgbValue[o] == NUL
  {
    o := 0;
    var i := 0;
    ghost var goal := FromBytea(raw, value[..length]);
    assert value[0..length] == value[..length];
    while i < length
      invariant i <= length && CompleteEscapes(raw, value[i..length])
      invariant Produced(rgbValue, o, FromBytea(raw, value[i..length]), goal)
      decreases length - i
    {
      var more := true;
      i, o, more := DecodeAt(value, length, raw, rgbValue, i, o, goal);
      if !more {
        break;
      }
    }
    if rgbValue != null {
      rgbValue[o] := NUL;
    }
  }

  /** One turn of the loop: an escape, a hexadecimal rest (which ends the loop) or a plain byte. */
  method DecodeAt(value: array<byte>, length: nat, raw: bool, rgb: array?<byte>, i0: nat, o0: nat, ghost goal: seq<byte>)
    returns (i: nat, o: nat, more: bool)
    requires i0 < length < value.Length && value[length] == NUL && NulFree(value[..length]) && rgb != value
    requires CompleteEscapes(raw, value[i0..length])
    requires Produced(rgb, o0, FromBytea(raw, value[i0..length]), goal)
    modifies if rgb == null then {} else {rgb}
    ensures i0 < i <= length || (i0 == i && !more)
    ensures more ==> CompleteEscapes(raw, value[i..length]) && Produced(rgb, o, FromBytea(raw, value[i..length]), goal)
    ensures !more ==> i <= length && Produced(rgb, o, [], goal)
  {
    i, o, more := i0, o0, true;
    ghost var s := value[i0..length];
    if value[i] == BACKSLASH {
      if value[i + 1] == BACKSLASH {
        assert s[2..] == value[i0 + 2..length];
        PutOut(rgb, o, value[i], FromBytea(raw, s[2..]), goal);
        i, o := i + 2, o + 1;
      } else if value[i + 1] == LOWER_X {
        i, more := i + 2, false;
        assert s[2..] == value[i0 + 2..length];
        if i < length {
          o := PutHexRest(value, i, length, rgb, o, goal);
        }
      } else {
        assert s[4..] == value[i0 + 4..length];
        assert s[1] == value[i0 + 1] && s[2] == value[i0 + 2] && s[3] == value[i0 + 3];
        PutOut(rgb, o, FromOctal(value[i + 1], value[i + 2], value[i + 3]), FromBytea(raw, s[4..]), goal);
        i, o := i + 4, o + 1;
      }
    } else if raw {
      o := PutHexRest(value, i, length, rgb, o, goal);
      more := false;
    } else {
      assert s[1..] == value[i0 + 1..length];
      PutOut(rgb, o, value[i], FromBytea(raw, s[1..]), goal);
      i, o := i + 1, o + 1;
    }
  }

  method PutOut(rgb: array?<byte>, o: nat, c: byte, ghost rest: seq<byte>, ghost goal: seq<byte>)
    requires Produced(rgb, o, [c] + rest, goal)
    modifies if rgb == null then {} else {rgb}
    ensures Produced(rgb, o + 1, rest, goal)
  {
    if rgb != null {
      ghost var before := rgb[..o];
      rgb[o] := c;
      assert rgb[..o + 1] == before + [c];
      Associative(before, [c], rest);
    }
  }

  method PutHexRest(value: array<byte>, i: nat, length: nat, rgb: array?<byte>, o0: nat, ghost goal: seq<byte>)
    returns (o: nat)
    requires i <= length < value.Length && NulFree(value[..length]) && rgb != value
    requires Produced(rgb, o0, Unhex(value[i..length]), goal)
    modifies if rgb == null then {} else {rgb}
    ensures Produced(rgb, o, [], goal)
  {
    o := o0 + (length - i) / 2;
    if rgb != null {
      ghost var h, before := value[i..length], rgb[..o0];
      assert NulFree(h) by {
        assert forall k :: 0 <= k < |h| ==> h[k] == value[..length][i + k];
      }
      HexEndNulFree(h);
      assert h[..|h|] == h;
      assert value[i..i + (length - i)] == h;
      HexToBin(value, i, rgb, o0, length - i);
      assert rgb[..o0] == before;
      assert rgb[..o] == before + Unhex(h);
    }
  }

  // ---------------------------------------------------------------- round trip

  /** The configuration that doubles nothing. */
  function Undoubled(cfg: Config): Config { cfg.(escape := NUL, literalExt := false) }

  function Singles(s: seq<byte>): (cs: seq<Ch>)
    ensures |cs| == |s|
  {
    seq(|s|, i requires 0 <= i < |s| => [s[i]])
  }

  lemma {:induction false} FlatSingles(s: seq<byte>)
    ensures Flat(Singles(s)) == s
  {
    if s != [] {
      assert Singles(s)[1..] == Singles(s[1..]);
      FlatSingles(s[1..]);
      assert s == [s[0]] + s[1..];
    }
  }

  lemma SinglesAppend(a: seq<byte>, b: seq<byte>)
    ensures Singles(a + b) == Singles(a) + Singles(b)
  {
  }

  lemma {:induction false} DoubledAppend(cfg: Config, a: seq<Ch>, b: seq<Ch>)
    ensures Doubled(cfg, a + b) == Doubled(cfg, a) + Doubled(cfg, b)
  {
    if a == [] {
      assert a + b == b;
    } else {
      assert (a + b)[1..] == a[1..] + b;
      DoubledAppend(cfg, a[1..], b);
    }
  }

  predicate Quiet(s: seq<byte>) {
    forall i :: 0 <= i < |s| ==> s[i] != QUOTE && s[i] != BACKSLASH && 0 < s[i] < 0x80
  }

  lemma {:induction false} DoubledQuiet(cfg: Config, s: seq<byte>)
    requires cfg.Valid() && Quiet(s)
    ensures Doubled(cfg, Singles(s)) == Singles(s)
  {
    if s != [] {
      assert Singles(s)[1..] == Singles(s[1..]);
      DoubledQuiet(cfg, s[1..]);
      assert Singles(s) == [[s[0]]] + Singles(s[1..]);
    }
  }

  /** A backslash and quiet text, as one unit. */
  lemma DoubledEscape(cfg: Config, s: seq<byte>)
    requires cfg.Valid() && !cfg.bindRequest && Quiet(s)
    ensures Doubled(cfg, Singles([BACKSLASH] + s)) == Singles(Lead(cfg) + [BACKSLASH] + s)
  {
    assert Singles([BACKSLASH] + s) == [[BACKSLASH]] + Singles(s);
    DoubledCons(cfg, [BACKSLASH], Singles(s));
    DoubledQuiet(cfg, s);
    SinglesAppend(Lead(cfg) + [BACKSLASH], s);
    if cfg.escape == BACKSLASH {
      assert Singles(Lead(cfg) + [BACKSLASH]) == [[BACKSLASH], [BACKSLASH]];
    } else {
      assert Singles(Lead(cfg) + [BACKSLASH]) == [[BACKSLASH]];
    }
  }

  lemma DoubledCons(cfg: Config, ch: Ch, cs: seq<Ch>)
    ensures Doubled(cfg, [ch] + cs)
         == (if ch == [QUOTE] || ch == [cfg.escape] then [ch, ch] else [ch]) + Doubled(cfg, cs)
  {
    assert ([ch] + cs)[1..] == cs;
  }

  lemma QuietHex(s: seq<byte>)
    ensures Quiet([LOWER_X] + Hex(s))
  {
  }

  lemma OctalByteDoubled(cfg: Config, b: byte)
    requires cfg.Valid() && !cfg.bindRequest
    ensures Doubled(cfg, Singles(OctalByte(Undoubled(cfg), b))) == Singles(OctalByte(cfg, b))
  {
    if Plain(b) {
      DoubledQuiet(cfg, [b]);
    } else {
      DoubledEscape(cfg, OctalDigits(b));
      assert Lead(Undoubled(cfg)) + [BACKSLASH] + OctalDigits(b) == [BACKSLASH] + OctalDigits(b);
    }
  }

  lemma {:induction false} OctalDoubled(cfg: Config, s: seq<byte>)
    requires cfg.Valid() && !cfg.bindRequest
    ensures Doubled(cfg, Singles(Octal(Undoubled(cfg), s))) == Singles(Octal(cfg, s))
  {
    if s == [] {
      assert Singles([]) == [];
    } else {
      var bare := Undoubled(cfg);
      OctalByteDoubled(cfg, s[0]);
      OctalDoubled(cfg, s[1..]);
      SinglesAppend(OctalByte(bare, s[0]), Octal(bare, s[1..]));
      SinglesAppend(OctalByte(cfg, s[0]), Octal(cfg, s[1..]));
      DoubledAppend(cfg, Singles(OctalByte(bare, s[0])), Singles(Octal(bare, s[1..])));
    }
  }

  /** Escape doubling is exactly what the literal needs. */
  lemma BinaryDoubled(cfg: Config, hexFormat: bool, s: seq<byte>)
    requires cfg.Valid() && !cfg.bindRequest
    ensures Doubled(cfg, Singles(PgBinary(Undoubled(cfg), hexFormat, s))) == Singles(PgBinary(cfg, hexFormat, s))
  {
    if hexFormat {
      var x := [LOWER_X] + Hex(s);
      QuietHex(s);
      DoubledEscape(cfg, x);
      assert PgBinary(Undoubled(cfg), true, s) == [BACKSLASH] + x;
      assert PgBinary(cfg, true, s) == Lead(cfg) + [BACKSLASH] + x;
    } else {
      OctalDoubled(cfg, s);
    }
  }

  lemma FromOctalDigits(b: byte)
    ensures FromOctal(48 + b / 64, 48 + b / 8 % 8, 48 + b % 8) == b
  {
    assert b / 8 == b / 64 * 8 + b / 8 % 8;
    assert b == b / 8 * 8 + b % 8;
  }

  lemma {:induction false} OctalDecodes(cfg: Config, s: seq<byte>)
    requires !EscDouble(cfg)
    ensures CompleteEscapes(false, Octal(cfg, s)) && FromBytea(false, Octal(cfg, s)) == s
  {
    if s != [] {
      OctalDecodes(cfg, s[1..]);
      OctalByteDecodes(cfg, s[0], Octal(cfg, s[1..]));
      assert s == [s[0]] + s[1..];
    }
  }

  lemma OctalByteDecodes(cfg: Config, b: byte, rest: seq<byte>)
    requires !EscDouble(cfg) && CompleteEscapes(false, rest)
    ensures CompleteEscapes(false, OctalByte(cfg, b) + rest)
    ensures FromBytea(false, OctalByte(cfg, b) + rest) == [b] + FromBytea(false, rest)
  {
    var t := OctalByte(cfg, b) + rest;
    if Plain(b) {
      assert t[1..] == rest;
    } else {
      FromOctalDigits(b);
      assert t[0] == BACKSLASH && t[1] == 48 + b / 64 && t[2] == 48 + b / 8 % 8 && t[3] == 48 + b % 8;
      assert t[4..] == rest;
    }
  }

  lemma BinaryDecodes(cfg: Config, hexFormat: bool, s: seq<byte>)
    requires !EscDouble(cfg)
    ensures CompleteEscapes(false, PgBinary(cfg, hexFormat, s)) && FromBytea(false, PgBinary(cfg, hexFormat, s)) == s
  {
    if hexFormat {
      assert PgBinary(cfg, true, s)[2..] == Hex(s);
      UnhexHex(s);
    } else {
      OctalDecodes(cfg, s);
    }
  }

  lemma {:induction false} OctalAscii(cfg: Config, s: seq<byte>)
    requires cfg.Valid()
    ensures IsAsciiText(Octal(cfg, s))
  {
    if s != [] {
      OctalAscii(cfg, s[1..]);
      OctalByteAscii(cfg, s[0]);
    }
  }

  lemma OctalByteAscii(cfg: Config, b: byte)
    requires cfg.Valid()
    ensures IsAsciiText(OctalByte(cfg, b))
  {
  }

  lemma BinaryWellFormed(cfg: Config, hexFormat: bool, s: seq<byte>)
    requires cfg.Valid()
    ensures AllWellFormed(cfg.ccsc, Singles(PgBinary(cfg, hexFormat, s)))
  {
    OctalAscii(cfg, s);
    QuietHex(s);
    var t := PgBinary(cfg, hexFormat, s);
    assert IsAsciiText(t) by {
      if hexFormat {
        assert t == Lead(cfg) + [BACKSLASH] + ([LOWER_X] + Hex(s));
      }
    }
  }

  function BinaryLiteral(cfg: Config, hexFormat: bool, s: seq<byte>): seq<byte> {
    (if cfg.literalExt then [LITERAL_EXT] else []) + [QUOTE] + PgBinary(cfg, hexFormat, s) + [QUOTE]
  }

  /** Bytea round trip: the server reads the literal as a text that `convert_from_pgbinary` turns
      back into the bytes, in both formats, whether or not backslashes are doubled. */
  lemma ByteaRoundTrip(cfg: Config, hexFormat: bool, s: seq<byte>, tail: seq<Ch>)
    requires cfg.Valid() && !cfg.bindRequest && AllWellFormed(cfg.ccsc, tail)
    requires tail != [] ==> tail[0] != [QUOTE]
    ensures var t := ReadLiteral(cfg.ccsc, cfg.escape == BACKSLASH, BinaryLiteral(cfg, hexFormat, s) + Flat(tail));
            && t.Some? && t.value.rest == tail
            && CompleteEscapes(false, Flat(t.value.payload))
            && FromBytea(false, Flat(t.value.payload)) == s
  {
    var bare := Undoubled(cfg);
    var text := PgBinary(bare, hexFormat, s);
    var payload := Singles(text);
    BinaryWellFormed(bare, hexFormat, s);
    BinaryDoubled(cfg, hexFormat, s);
    FlatSingles(PgBinary(cfg, hexFormat, s));
    ReadQuoted(cfg, payload, tail);
    FlatLiteral(cfg, payload, tail);
    FlatSingles(text);
    BinaryDecodes(bare, hexFormat, s);
  }

  /** In a bind request nothing is quoted or doubled. */
  lemma BindRoundTrip(cfg: Config, hexFormat: bool, s: seq<byte>)
    requires cfg.bindRequest
    ensures CompleteEscapes(false, PgBinary(cfg, hexFormat, s)) && FromBytea(false, PgBinary(cfg, hexFormat, s)) == s
  {
    BinaryDecodes(cfg, hexFormat, s);
  }

  /** The escape format of bytea output, section 8.4.2 of the PostgreSQL manual. */
  function ServerEscape(s: seq<byte>): seq<byte> {
    if s == [] then []
    else (if s[0] == BACKSLASH then [BACKSLASH, BACKSLASH]
          else if 32 <= s[0] <= 126 then [s[0]]
          else [BACKSLASH] + OctalDigits(s[0])) + ServerEscape(s[1..])
  }

  lemma {:induction false} EscapeFormDecodes(s: seq<byte>)
    ensures CompleteEscapes(false, ServerEscape(s)) && FromBytea(false, ServerEscape(s)) == s
  {
    if s != [] {
      EscapeFormDecodes(s[1..]);
      EscapeFormStep(s[0], ServerEscape(s[1..]));
      assert s == [s[0]] + s[1..];
    }
  }

  lemma EscapeFormStep(b: byte, rest: seq<byte>)
    requires CompleteEscapes(false, rest)
    ensures var t := (if b == BACKSLASH then [BACKSLASH, BACKSLASH]
                      else if 32 <= b <= 126 then [b]
                      else [BACKSLASH] + OctalDigits(b)) + rest;
            CompleteEscapes(false, t) && FromBytea(false, t) == [b] + FromBytea(false, rest)
  {
    if b == BACKSLASH {
      assert ([BACKSLASH, BACKSLASH] + rest)[2..] == rest;
    } else if 32 <= b <= 126 {
      assert ([b] + rest)[1..] == rest;
    } else {
      FromOctalDigits(b);
      assert ([BACKSLASH] + OctalDigits(b) + rest)[4..] == rest;
    }
  }

  /** Every output form of the server is decoded: escaped, hexadecimal, and hexadecimal without
      its prefix when binary_rawout is on. */
  lemma ServerFormsDecode(raw: bool, s: seq<byte>)
    ensures CompleteEscapes(false, ServerEscape(s)) && FromBytea(false, ServerEscape(s)) == s
    ensures CompleteEscapes(raw, [BACKSLASH, LOWER_X] + Hex(s)) && FromBytea(raw, [BACKSLASH, LOWER_X] + Hex(s)) == s
    ensures CompleteEscapes(true, Hex(s)) && FromBytea(true, Hex(s)) == s
  {
    UnhexHex(s);
    EscapeFormDecodes(s);
    assert ([BACKSLASH, LOWER_X] + Hex(s))[2..] == Hex(s);
  }
}
