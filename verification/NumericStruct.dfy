/**
 `SQL_NUMERIC_STRUCT` to decimal text and back (`ResolveNumericParam`, `parse_to_numeric_struct`):
 128-bit numbers in base 256, divided and multiplied by ten byte by byte.
 */
module NumericStruct {
  import opened CBytes

  const MAX_NUMERIC_LEN: nat := 16
  const MAX_NUMERIC_DIGITS: nat := 39
  const RETAINED_DIGITS: nat := 48  // sizeof(calv) in the parser
  const LIMIT: nat := 0x1_0000_0000_0000_0000_0000_0000_0000_0000  // 2^128

  class SqlNumeric {
    var precision: nat
    var scale: int
    var sign: nat
    const val: array<byte>

    constructor ()
      ensures val.Length == MAX_NUMERIC_LEN && fresh(val)
    {
      val := new byte[MAX_NUMERIC_LEN](i => 0);
      precision, scale, sign := 0, 0, 0;
    }
  }

  // ---------------------------------------------------------------- numbers

  /** Little-endian base 256. */
  function Value(s: seq<byte>): nat {
    if s == [] then 0 else s[0] + 256 * Value(s[1..])
  }

  function Pow256(k: nat): (r: nat)
    ensures r > 0
  {
    if k == 0 then 1 else 256 * Pow256(k - 1)
  }

  function Pow10(k: nat): (r: nat)
    ensures r > 0
  {
    if k == 0 then 1 else 10 * Pow10(k - 1)
  }

  lemma {:induction false} ValueSnoc(s: seq<byte>, b: byte)
    ensures Value(s + [b]) == Value(s) + b * Pow256(|s|)
  {
    if s == [] {
      assert [b][1..] == [];
    } else {
      assert (s + [b])[1..] == s[1..] + [b];
      ValueSnoc(s[1..], b);
      assert 256 * (b * Pow256(|s| - 1)) == b * Pow256(|s|);
    }
  }

  lemma {:induction false} ValueZeros(s: seq<byte>, k: nat)
    requires k <= |s| && forall i :: k <= i < |s| ==> s[i] == 0
    ensures Value(s) == Value(s[..k])
  {
    if |s| > k {
      var t := s[..|s| - 1];
      assert s == t + [0] && t[..k] == s[..k];
      ValueSnoc(t, 0);
      ValueZeros(t, k);
    } else {
      assert s[..k] == s;
    }
  }

  lemma {:induction false} ValueBound(s: seq<byte>)
    ensures Value(s) < Pow256(|s|)
  {
    if s != [] {
      ValueBound(s[1..]);
    }
  }

  lemma Pow256Of16()
    ensures Pow256(16) == LIMIT
  {
    assert Pow256(4) == 0x1_0000_0000;
    assert Pow256(8) == 0x1_0000_0000_0000_0000;
    assert Pow256(12) == 0x1_0000_0000_0000_0000_0000_0000;
  }

  // ---------------------------------------------------------------- printing

  /** The decimal digits of `v`, least significant first, at least one and at most `p` of them. */
  function Digits(v: nat, p: nat): (d: seq<nat>)
    requires p >= 1
    ensures 1 <= |d| <= p && forall i :: 0 <= i < |d| ==> d[i] <= 9
    decreases p
  {
    [v % 10] + (if v / 10 > 0 && p > 1 then Digits(v / 10, p - 1) else [])
  }

  function Pad(d: seq<nat>, n: nat): (r: seq<nat>)
    ensures |r| == if |d| < n then n else |d|
    ensures forall i :: 0 <= i < |r| ==> r[i] == if i < |d| then d[i] else 0
  {
    if |d| < n then d + seq(n - |d|, i => 0) else d
  }

  /** ASCII digits, most significant first. */
  function AsText(d: seq<nat>): seq<byte>
    requires forall i :: 0 <= i < |d| ==> d[i] <= 9
  {
    if d == [] then [] else AsText(d[1..]) + [48 + d[0]]
  }

  function Sign(negative: bool): seq<byte> {
    if negative then [MINUS] else []
  }

  /** The number with `scale` digits after the point and at least one before it. */
  function NumericText(negative: bool, d: seq<nat>, scale: nat): seq<byte>
    requires forall i :: 0 <= i < |d| ==> d[i] <= 9
  {
    var p := Pad(d, scale + 1);
    Sign(negative) + AsText(p[scale..]) + (if scale > 0 then [DOT] + AsText(p[..scale]) else [])
  }

  function EffectivePrecision(precision: nat): nat {
    if precision > MAX_NUMERIC_DIGITS then MAX_NUMERIC_DIGITS else precision
  }

  /** Divide the number in the first `vlen` bytes by ten. */
  method DivideByTen(vals: array<byte>, vlen: nat) returns (r: nat, lastnonzero: int)
    requires vlen <= vals.Length
    modifies vals
    ensures r <= 9 && Value(old(vals[..vlen])) == 10 * Value(vals[..vlen]) + r
    ensures -1 <= lastnonzero < vlen && forall i :: lastnonzero < i < vlen ==> vals[i] == 0
    ensures lastnonzero >= 0 ==> vals[lastnonzero] != 0
  {
    r, lastnonzero := 0, -1;
    var i := vlen - 1;
    while i >= 0
      invariant -1 <= i < vlen && r <= 9
      invariant forall k :: 0 <= k <= i ==> vals[k] == old(vals[k])
      invariant Value(old(vals[i + 1..vlen])) == 10 * Value(vals[i + 1..vlen]) + r
      invariant lastnonzero == -1 || i < lastnonzero < vlen
      invariant forall k :: i < k < vlen && k > lastnonzero ==> vals[k] == 0
      invariant lastnonzero >= 0 ==> vals[lastnonzero] != 0
    {
      ghost var high := vals[i + 1..vlen];
      var v: int := vals[i] + r * 256;
      var d := v / 10;
      assert d <= 255;
      r := v % 10;
      vals[i] := d;
      if d != 0 && lastnonzero == -1 {
        lastnonzero := i;
      }
      assert vals[i..vlen] == [vals[i]] + high;
      assert old(vals[i..vlen]) == [old(vals[i])] + old(vals[i + 1..vlen]);
      i := i - 1;
    }
    assert vals[0..vlen] == vals[..vlen] && old(vals[0..vlen]) == old(vals[..vlen]);
  }

  /** The digit loop: `calv` receives the digits, least significant first. */
  method ExtractDigits(val: seq<byte>, precision: nat) returns (calv: seq<nat>)
    requires 1 <= precision && |val| == MAX_NUMERIC_LEN
    ensures calv == Digits(Value(val), precision)
  {
    hide Digits, Value;
    var vals := new byte[MAX_NUMERIC_LEN](i requires 0 <= i < MAX_NUMERIC_LEN => val[i]);
    var vlen: nat := MAX_NUMERIC_LEN;
    calv := [];
    var more := true;
    assert vals[..vlen] == val;
    while more
      invariant vlen <= MAX_NUMERIC_LEN && |calv| <= precision
      invariant more ==> |calv| < precision
      invariant more ==> calv + Digits(Value(vals[..vlen]), precision - |calv|) == Digits(Value(val), precision)
      invariant !more ==> calv == Digits(Value(val), precision)
      decreases more, precision - |calv|
    {
      ghost var v, done := Value(vals[..vlen]), calv;
      var r, lastnonzero := DivideByTen(vals, vlen);
      DigitsStep(v, Value(vals[..vlen]), r, done, precision);
      QuotientZero(vals[..vlen], lastnonzero);
      assert vals[..vlen][..lastnonzero + 1] == vals[..lastnonzero + 1];
      calv := calv + [r];
      vlen := lastnonzero + 1;
      more := lastnonzero >= 0 && |calv| < precision;
    }
  }

  lemma DigitsStep(v: nat, q: nat, r: nat, done: seq<nat>, precision: nat)
    requires v == 10 * q + r && r <= 9 && |done| < precision
    ensures done + Digits(v, precision - |done|)
         == if q > 0 && precision - |done| > 1 then (done + [r]) + Digits(q, precision - |done + [r]|) else done + [r]
  {
    assert v / 10 == q && v % 10 == r;
    if q > 0 && precision - |done| > 1 {
      assert done + ([r] + Digits(q, precision - |done| - 1)) == (done + [r]) + Digits(q, precision - |done + [r]|);
    } else {
      assert done + ([r] + []) == done + [r];
    }
  }

  lemma QuotientZero(s: seq<byte>, last: int)
    requires -1 <= last < |s| && (last >= 0 ==> s[last] != 0)
    requires forall i :: last < i < |s| ==> s[i] == 0
    ensures Value(s[..last + 1]) == Value(s)
    ensures Value(s) > 0 <==> last >= 0
  {
    ValueZeros(s, last + 1);
    if last >= 0 {
      ValuePositive(s[..last + 1]);
    }
  }

  lemma {:induction false} ValuePositive(s: seq<byte>)
    requires s != [] && s[|s| - 1] != 0
    ensures Value(s) > 0
  {
    if |s| > 1 {
      ValuePositive(s[1..]);
    }
  }

  /** `ResolveNumericParam`, for scale >= 0 (a negative scale makes the C loop read before `calv`). */
  method ResolveNumericParam(ns: SqlNumeric) returns (chrform: seq<byte>)
    requires ns.val.Length == MAX_NUMERIC_LEN && ns.scale >= 0
    ensures ns.precision == 0 ==> chrform == [ZERO]
    ensures ns.precision > 0 ==>
              chrform == NumericText(ns.sign == 0, Digits(Value(ns.val[..]), EffectivePrecision(ns.precision)), ns.scale)
  {
    if ns.precision == 0 {
      return [ZERO];
    }
    var precision := EffectivePrecision(ns.precision);
    var calv := ExtractDigits(ns.val[..], precision);
    chrform := FormatDigits(ns.sign == 0, calv, ns.scale);
  }

  /** The part of `ResolveNumericParam` that builds the final string. */
  method FormatDigits(negative: bool, calv: seq<nat>, scale: nat) returns (chrform: seq<byte>)
    requires calv != [] && forall i :: 0 <= i < |calv| ==> calv[i] <= 9
    ensures chrform == NumericText(negative, calv, scale)
  {
    var top := if |calv| - 1 < scale then scale else |calv| - 1;
    ghost var p := Pad(calv, scale + 1);
    assert p[scale..top + 1] == p[scale..] && p[0..scale] == p[..scale];
    chrform := Sign(negative);
    var digits := EmitDigits(calv, scale + 1, top, scale);
    chrform := chrform + digits;
    if scale > 0 {
      digits := EmitDigits(calv, scale + 1, scale - 1, 0);
      chrform := chrform + ([DOT] + digits);
    }
  }

  /** The output loops: digits `from` down to `to`, zeros beyond the digits there are. */
  method EmitDigits(calv: seq<nat>, n: nat, from: int, to: nat) returns (chrform: seq<byte>)
    requires forall i :: 0 <= i < |calv| ==> calv[i] <= 9
    requires to <= from + 1 <= |Pad(calv, n)|
    ensures chrform == AsText(Pad(calv, n)[to..from + 1])
  {
    ghost var p := Pad(calv, n);
    chrform := [];
    var i := from;
    assert p[i + 1..from + 1] == [];
    while i >= to
      invariant to - 1 <= i <= from
      invariant chrform == AsText(p[i + 1..from + 1])
    {
      assert p[i..from + 1][1..] == p[i + 1..from + 1];
      chrform := chrform + [if i >= |calv| then ZERO else calv[i] + 48];
      i := i - 1;
    }
  }

  // ---------------------------------------------------------------- parsing

  /** What the digit loop retains: the digits, the change of `scale`, and whether integer digits
      were dropped for lack of room. */
  datatype Scan = Scan(digits: seq<byte>, scale: int, dropped: bool)

  function ScanDigits(s: seq<byte>, nlen: nat, dot: bool): Scan {
    if s == [] then Scan([], 0, false)
    else if s[0] == DOT then
      if dot then Scan([], 0, false) else ScanDigits(s[1..], nlen, true)
    else if !IsDigit(s[0]) then Scan([], 0, false)
    else if nlen >= RETAINED_DIGITS then
      if dot then Scan([], 0, false)
      else var r := ScanDigits(s[1..], nlen, dot); Scan(r.digits, r.scale - 1, true)
    else
      var r := ScanDigits(s[1..], nlen + 1, dot);
      Scan([s[0]] + r.digits, r.scale + (if dot then 1 else 0), r.dropped)
  }

  function SkipSpaces(s: seq<byte>): seq<byte> { s[SkipSpace(s, 0)..] }

  function SkipZeros(s: seq<byte>): seq<byte> {
    if s != [] && s[0] == ZERO then SkipZeros(s[1..]) else s
  }

  function AfterSign(s: seq<byte>): seq<byte> {
    if s != [] && (s[0] == MINUS || s[0] == PLUS) then s[1..] else s
  }

  function Unsigned(s: seq<byte>): seq<byte> {
    SkipZeros(AfterSign(SkipSpaces(s)))
  }

  predicate IsNegative(s: seq<byte>) {
    var t := SkipSpaces(s);
    t != [] && t[0] == MINUS
  }

  /** Value of a string of ASCII digits. */
  function Decimal(s: seq<byte>): nat
    requires AllDigits(s)
  {
    ReadNumber(s, 0)
  }

  /** Assignment to a `signed char`. */
  function SignedChar(x: int): int {
    (x + 128) % 256 - 128
  }

  lemma {:induction false} ScanShape(s: seq<byte>, nlen: nat, dot: bool)
    requires nlen <= RETAINED_DIGITS
    ensures AllDigits(ScanDigits(s, nlen, dot).digits)
    ensures nlen + |ScanDigits(s, nlen, dot).digits| <= RETAINED_DIGITS
    ensures !ScanDigits(s, nlen, dot).dropped ==> 0 <= ScanDigits(s, nlen, dot).scale <= |ScanDigits(s, nlen, dot).digits|
    ensures ScanDigits(s, nlen, dot).scale <= |ScanDigits(s, nlen, dot).digits|
  {
    if s != [] {
      ScanShape(s[1..], nlen, true);
      ScanShape(s[1..], nlen, dot);
      if nlen < RETAINED_DIGITS {
        ScanShape(s[1..], nlen + 1, dot);
      }
    }
  }

  // the digit string is added to the number one digit at a time

  /** Multiply the number by ten and add a digit; the final carry is the overflow. */
  method MultiplyAdd(val: array<byte>, digit: nat) returns (carry: nat)
    requires val.Length == MAX_NUMERIC_LEN && digit <= 9
    modifies val
    ensures Value(val[..]) + carry * LIMIT == 10 * Value(old(val[..])) + digit
  {
    carry := digit;
    var i := 0;
    assert val[..0] == [];
    while i < MAX_NUMERIC_LEN
      invariant 0 <= i <= MAX_NUMERIC_LEN && carry <= 9
      invariant forall k :: i <= k < MAX_NUMERIC_LEN ==> val[k] == old(val[k])
      invariant Value(val[..i]) + carry * Pow256(i) == 10 * Value(old(val[..i])) + digit
    {
      ghost var low, was := val[..i], old(val[..i]);
      var t := val[i] * 10 + carry;
      CarryStep(low, was, val[i], t % 256, t / 256, carry, digit);
      val[i] := t % 256;
      carry := t / 256;
      assert val[..i + 1] == low + [val[i]];
      assert old(val[..i + 1]) == was + [old(val[i])];
      i := i + 1;
    }
    Pow256Of16();
    assert val[..16] == val[..] && old(val[..16]) == old(val[..]);
  }

  lemma CarryStep(low: seq<byte>, was: seq<byte>, b: byte, nb: byte, ncarry: nat, carry: nat, digit: nat)
    requires |low| == |was| && nb + 256 * ncarry == b * 10 + carry
    requires Value(low) + carry * Pow256(|low|) == 10 * Value(was) + digit
    ensures Value(low + [nb]) + ncarry * Pow256(|low| + 1) == 10 * Value(was + [b]) + digit
  {
    ValueSnoc(low, nb);
    ValueSnoc(was, b);
    CarryAlgebra(nb, ncarry, b, carry, Pow256(|low|));
  }

  lemma CarryAlgebra(nb: nat, ncarry: nat, b: nat, carry: nat, w: nat)
    requires nb + 256 * ncarry == b * 10 + carry
    ensures nb * w + ncarry * (256 * w) == 10 * (b * w) + carry * w
  {
    assert (nb + 256 * ncarry) * w == (b * 10 + carry) * w;
  }

  lemma {:induction false} DecimalSnoc(s: seq<byte>, k: nat)
    requires AllDigits(s) && k < |s|
    ensures Decimal(s[..k + 1]) == 10 * Decimal(s[..k]) + (s[k] - 48)
  {
    var last := [s[k]];
    assert s[..k + 1] == s[..k] + last && last[1..] == [];
    ReadNumberAppend(s[..k], last, 0);
    assert ReadNumber(last, Decimal(s[..k])) == 10 * Decimal(s[..k]) + (s[k] - 48);
  }

  lemma ModStep(x: nat, d: nat, v: nat, carry: nat)
    requires v + carry * LIMIT == 10 * (x % LIMIT) + d && v < LIMIT && d <= 9
    ensures v == (10 * x + d) % LIMIT
    ensures x >= LIMIT || carry != 0 <==> 10 * x + d >= LIMIT
  {
    var q := x / LIMIT;
    assert 10 * x + d == v + (carry + 10 * q) * LIMIT;
  }

  /** `parse_to_numeric_struct` */
  method ParseToNumericStruct(wv: seq<byte>, ns: SqlNumeric) returns (overflow: bool)
    requires ns.val.Length == MAX_NUMERIC_LEN
    modifies ns, ns.val
    ensures AllDigits(ScanDigits(Unsigned(wv), 0, false).digits)
    ensures ns.sign == (if IsNegative(wv) then 0 else 1)
    ensures ns.precision == |ScanDigits(Unsigned(wv), 0, false).digits| <= RETAINED_DIGITS
    ensures ns.scale == SignedChar(ScanDigits(Unsigned(wv), 0, false).scale)
    ensures Value(ns.val[..]) == Decimal(ScanDigits(Unsigned(wv), 0, false).digits) % LIMIT
    ensures overflow <==> ScanDigits(Unsigned(wv), 0, false).dropped
                          || Decimal(ScanDigits(Unsigned(wv), 0, false).digits) >= LIMIT
  {
    ScanShape(Unsigned(wv), 0, false);
    var pos, negative := SkipPrefix(wv);
    ns.sign := if negative then 0 else 1;
    var calv;
    calv, overflow := ReadDigits(wv, pos, ns);
    forall k | 0 <= k < ns.val.Length {
      ns.val[k] := 0;
    }
    var lost := Accumulate(calv, ns.val);
    overflow := overflow || lost;
  }

  /** Leading space, sign and leading zeros. */
  method SkipPrefix(wv: seq<byte>) returns (pos: nat, negative: bool)
    ensures pos <= |wv| && wv[pos..] == Unsigned(wv) && negative == IsNegative(wv)
  {
    pos := 0;
    while pos < |wv| && IsSpace(wv[pos])
      invariant 0 <= pos <= |wv| && SkipSpace(wv, pos) == SkipSpace(wv, 0)
    {
      pos := pos + 1;
    }
    assert wv[pos..] == SkipSpaces(wv);
    pos, negative := PassSign(wv, pos);
    ghost var t := wv[pos..];
    while pos < |wv| && wv[pos] == ZERO
      invariant 0 <= pos <= |wv| && SkipZeros(wv[pos..]) == SkipZeros(t)
    {
      assert wv[pos..][1..] == wv[pos + 1..];
      pos := pos + 1;
    }
  }

  method PassSign(wv: seq<byte>, start: nat) returns (pos: nat, negative: bool)
    requires start <= |wv|
    ensures pos <= |wv| && wv[pos..] == AfterSign(wv[start..])
    ensures negative <==> wv[start..] != [] && wv[start..][0] == MINUS
  {
    pos, negative := start, At(wv, start) == MINUS;
    if At(wv, pos) == MINUS || At(wv, pos) == PLUS {
      assert wv[pos..][1..] == wv[pos + 1..];
      pos := pos + 1;
    }
  }

  /** The conversion loop, from a zeroed `val`. */
  method Accumulate(calv: seq<byte>, val: array<byte>) returns (overflow: bool)
    requires AllDigits(calv) && val.Length == MAX_NUMERIC_LEN && forall k :: 0 <= k < val.Length ==> val[k] == 0
    modifies val
    ensures Value(val[..]) == Decimal(calv) % LIMIT
    ensures overflow <==> Decimal(calv) >= LIMIT
  {
    overflow := false;
    var dig := 0;
    ValueZeros(val[..], 0);
    assert val[..][..0] == [] && calv[..0] == [];
    while dig < |calv|
      invariant 0 <= dig <= |calv|
      invariant Value(val[..]) == Decimal(calv[..dig]) % LIMIT
      invariant overflow <==> Decimal(calv[..dig]) >= LIMIT
    {
      ghost var x := Decimal(calv[..dig]);
      var carry := MultiplyAdd(val, calv[dig] - 48);
      DecimalSnoc(calv, dig);
      ValueBound(val[..]);
      Pow256Of16();
      ModStep(x, calv[dig] - 48, Value(val[..]), carry);
      if carry != 0 {
        overflow := true;
      }
      dig := dig + 1;
    }
    assert calv[..|calv|] == calv;
  }

  /** The loop that copies the digits to `calv` and counts the scale. */
  method ReadDigits(wv: seq<byte>, start: nat, ns: SqlNumeric) returns (calv: seq<byte>, overflow: bool)
    requires start <= |wv|
    modifies ns
    ensures calv == ScanDigits(wv[start..], 0, false).digits
    ensures overflow == ScanDigits(wv[start..], 0, false).dropped
    ensures ns.scale == SignedChar(ScanDigits(wv[start..], 0, false).scale)
    ensures ns.precision == |calv| && ns.sign == old(ns.sign)
  {
    ns.precision := 0;
    ns.scale := 0;
    calv, overflow := [], false;
    var pos, dot := start, false;
    ghost var scale: int := 0;
    while pos < |wv| && Continues(wv[pos], |calv|, dot)
      invariant start <= pos <= |wv| && |calv| <= RETAINED_DIGITS && ns.sign == old(ns.sign)
      invariant ns.scale == SignedChar(scale)
      invariant ScanDigits(wv[start..], 0, false) == Joined(calv, scale, overflow, ScanDigits(wv[pos..], |calv|, dot))
      decreases |wv| - pos
    {
      assert wv[pos..][1..] == wv[pos + 1..];
      if wv[pos] == DOT {
        dot := true;
      } else if |calv| >= RETAINED_DIGITS {
        SignedCharStep(scale, -1);
        ns.scale := SignedChar(ns.scale + -1);
        scale := scale - 1;
        overflow := true;
      } else {
        JoinedDigit(calv, scale, overflow, wv[pos], dot, ScanDigits(wv[pos + 1..], |calv| + 1, dot));
        if dot {
          SignedCharStep(scale, 1);
          ns.scale := SignedChar(ns.scale + 1);
          scale := scale + 1;
        }
        calv := calv + [wv[pos]];
      }
      pos := pos + 1;
    }
    assert calv + [] == calv;
    ns.precision := |calv|;
  }

  lemma SignedCharStep(x: int, d: int)
    ensures SignedChar(SignedChar(x) + d) == SignedChar(x + d)
  {
    var k := (x + 128) / 256;
    assert SignedChar(x) == x - 256 * k;
    assert (x - 256 * k + d + 128) % 256 == (x + d + 128) % 256;
  }

  /** The conditions under which the loop goes on. */
  predicate Continues(c: byte, nlen: nat, dot: bool) {
    if c == DOT then !dot else IsDigit(c) && (nlen < RETAINED_DIGITS || !dot)
  }

  function Joined(calv: seq<byte>, scale: int, overflow: bool, rest: Scan): Scan {
    Scan(calv + rest.digits, scale + rest.scale, overflow || rest.dropped)
  }

  lemma JoinedDigit(calv: seq<byte>, scale: int, overflow: bool, c: byte, dot: bool, rest: Scan)
    ensures Joined(calv, scale, overflow, Scan([c] + rest.digits, rest.scale + (if dot then 1 else 0), rest.dropped))
         == Joined(calv + [c], scale + (if dot then 1 else 0), overflow, rest)
  {
    assert calv + ([c] + rest.digits) == calv + [c] + rest.digits;
  }

  // ---------------------------------------------------------------- digits and their value

  /** Little-endian base 10. */
  function FromDigits(d: seq<nat>): nat {
    if d == [] then 0 else d[0] + 10 * FromDigits(d[1..])
  }

  lemma {:induction false} DigitsValue(v: nat, p: nat)
    requires p >= 1
    ensures FromDigits(Digits(v, p)) == v % Pow10(p)
    decreases p
  {
    var q, r := v / 10, v % 10;
    if q > 0 && p > 1 {
      DigitsValue(q, p - 1);
      assert Digits(v, p)[1..] == Digits(q, p - 1);
      ModTen(q, r, Pow10(p - 1));
    } else {
      assert Digits(v, p) == [r];
      assert [r][1..] == [];
      if p > 1 {
        ModSmallPower(v, p);
      }
    }
  }

  lemma ModTen(q: nat, r: nat, w: nat)
    requires w > 0 && r <= 9
    ensures (10 * q + r) % (10 * w) == 10 * (q % w) + r
  {
    var k, m := q / w, q % w;
    assert q == k * w + m;
    ModUnique(10 * q + r, 10 * w, k, 10 * m + r);
  }

  lemma ModUnique(a: int, n: int, k: int, m: int)
    requires 0 <= m < n && a == k * n + m
    ensures a % n == m
  {
    var d := a / n - k;
    assert a % n == a - (a / n) * n;
    assert d * n == (a / n) * n - k * n;
    assert d * n == m - a % n;
    assert d >= 1 ==> d * n >= n;
    assert d <= -1 ==> d * n <= -n;
  }

  lemma ModSmallPower(v: nat, p: nat)
    requires v <= 9 && p >= 1
    ensures v % Pow10(p) == v
  {
    assert Pow10(p) >= 10;
    ModUnique(v, Pow10(p), 0, v);
  }

  lemma {:induction false} AsTextShape(d: seq<nat>)
    requires forall i :: 0 <= i < |d| ==> d[i] <= 9
    ensures |AsText(d)| == |d| && AllDigits(AsText(d)) && Decimal(AsText(d)) == FromDigits(d)
  {
    if d != [] {
      AsTextShape(d[1..]);
      assert AsText(d)[..|d| - 1] == AsText(d[1..]) && AsText(d)[..|d|] == AsText(d);
      DecimalSnoc(AsText(d), |d| - 1);
    }
  }

  lemma {:induction false} AsTextAppend(a: seq<nat>, b: seq<nat>)
    requires forall i :: 0 <= i < |a| ==> a[i] <= 9
    requires forall i :: 0 <= i < |b| ==> b[i] <= 9
    ensures AsText(a + b) == AsText(b) + AsText(a)
  {
    if a == [] {
      assert a + b == b;
    } else {
      assert (a + b)[1..] == a[1..] + b;
      AsTextAppend(a[1..], b);
    }
  }

  lemma {:induction false} FromDigitsZeros(d: seq<nat>, k: nat)
    ensures FromDigits(d + seq(k, i => 0)) == FromDigits(d)
  {
    if d == [] {
      assert d + seq(k, i => 0) == seq(k, i => 0);
      if k > 0 {
        assert seq(k, i => 0)[1..] == seq(k - 1, i => 0);
        FromDigitsZeros([], k - 1);
        assert [] + seq(k - 1, i => 0) == seq(k - 1, i => 0);
      }
    } else {
      assert (d + seq(k, i => 0))[1..] == d[1..] + seq(k, i => 0);
      FromDigitsZeros(d[1..], k);
    }
  }

  lemma {:induction false} PadValue(d: seq<nat>, n: nat)
    ensures FromDigits(Pad(d, n)) == FromDigits(d)
  {
    if |d| < n {
      FromDigitsZeros(d, n - |d|);
    }
  }

  lemma {:induction false} DecimalLeadingZeros(s: seq<byte>, t: seq<byte>)
    requires AllDigits(s) && AllDigits(t)
    ensures AllDigits(SkipZeros(s)) && |SkipZeros(s)| <= |s|
    ensures Decimal(SkipZeros(s) + t) == Decimal(s + t)
  {
    if s != [] && s[0] == ZERO {
      DecimalLeadingZeros(s[1..], t);
      assert s + t == [ZERO] + (s[1..] + t);
      DecimalZero(s[1..] + t);
    }
  }

  lemma DecimalZero(s: seq<byte>)
    requires AllDigits(s)
    ensures Decimal([ZERO] + s) == Decimal(s)
  {
    assert ([ZERO] + s)[1..] == s;
  }

  // ---------------------------------------------------------------- what a numeral says

  /** Spaces, a sign, integer digits and, if there is a point, fraction digits. */
  predicate IsNumeral(s: seq<byte>, spaces: seq<byte>, sign: seq<byte>, ip: seq<byte>, point: bool, fp: seq<byte>) {
    && (forall i :: 0 <= i < |spaces| ==> IsSpace(spaces[i]))
    && (sign == [] || sign == [MINUS] || sign == [PLUS])
    && AllDigits(ip) && AllDigits(fp) && (!point ==> fp == [])
    && s == spaces + (sign + (ip + Fraction(point, fp)))
  }

  function Fraction(point: bool, fp: seq<byte>): seq<byte> {
    if point then [DOT] + fp else []
  }

  lemma SkipSpacesOf(spaces: seq<byte>, t: seq<byte>)
    requires forall i :: 0 <= i < |spaces| ==> IsSpace(spaces[i])
    requires t != [] ==> !IsSpace(t[0])
    ensures SkipSpaces(spaces + t) == t
  {
    PastSpaces(spaces, t, 0);
  }

  lemma {:induction false} PastSpaces(spaces: seq<byte>, t: seq<byte>, p: nat)
    requires forall i :: 0 <= i < |spaces| ==> IsSpace(spaces[i])
    requires (t != [] ==> !IsSpace(t[0])) && p <= |spaces|
    ensures SkipSpace(spaces + t, p) == |spaces|
    decreases |spaces| - p
  {
    if p < |spaces| {
      PastSpaces(spaces, t, p + 1);
    }
  }

  lemma {:induction false} SkipZerosOf(ip: seq<byte>, t: seq<byte>)
    requires t != [] ==> t[0] != ZERO
    ensures SkipZeros(ip + t) == SkipZeros(ip) + t
  {
    if ip == [] {
      assert ip + t == t;
    } else if ip[0] == ZERO {
      assert (ip + t)[1..] == ip[1..] + t;
      SkipZerosOf(ip[1..], t);
    }
  }

  lemma {:induction false} ScanInteger(ip: seq<byte>, t: seq<byte>, nlen: nat)
    requires AllDigits(ip) && nlen + |ip| <= RETAINED_DIGITS
    ensures var r := ScanDigits(t, nlen + |ip|, false);
            ScanDigits(ip + t, nlen, false) == Scan(ip + r.digits, r.scale, r.dropped)
  {
    if ip == [] {
      assert ip + t == t;
    } else {
      assert (ip + t)[1..] == ip[1..] + t;
      ScanInteger(ip[1..], t, nlen + 1);
      var r := ScanDigits(t, nlen + |ip|, false);
      assert [ip[0]] + (ip[1..] + r.digits) == ip + r.digits;
    }
  }

  function Kept(fp: seq<byte>, nlen: nat): (n: nat)
    requires nlen <= RETAINED_DIGITS
    ensures n <= |fp|
  {
    if |fp| <= RETAINED_DIGITS - nlen then |fp| else RETAINED_DIGITS - nlen
  }

  lemma {:induction false} ScanFraction(fp: seq<byte>, nlen: nat)
    requires AllDigits(fp) && nlen <= RETAINED_DIGITS
    ensures ScanDigits(fp, nlen, true) == Scan(fp[..Kept(fp, nlen)], Kept(fp, nlen), false)
  {
    if fp != [] && nlen < RETAINED_DIGITS {
      ScanFraction(fp[1..], nlen + 1);
      var n := Kept(fp, nlen);
      assert [fp[0]] + fp[1..][..n - 1] == fp[..n];
    }
  }

  /** Integer digits behind the 48th are dropped; the scale counts them, and no fraction follows. */
  lemma {:induction false} ScanLong(ip: seq<byte>, point: bool, fp: seq<byte>, nlen: nat)
    requires AllDigits(ip) && AllDigits(fp) && (!point ==> fp == []) && nlen <= RETAINED_DIGITS < nlen + |ip|
    ensures var room := RETAINED_DIGITS - nlen;
            ScanDigits(ip + Fraction(point, fp), nlen, false) == Scan(ip[..room], room - |ip|, true)
    decreases |ip|
  {
    var t := Fraction(point, fp);
    assert (ip + t)[1..] == ip[1..] + t;
    if nlen < RETAINED_DIGITS {
      ScanLong(ip[1..], point, fp, nlen + 1);
      assert [ip[0]] + ip[1..][..RETAINED_DIGITS - nlen - 1] == ip[..RETAINED_DIGITS - nlen];
    } else if |ip| > 1 {
      ScanLong(ip[1..], point, fp, nlen);
    } else {
      assert ip[1..] + t == t;
      FullStops(point, fp);
    }
  }

  lemma FullStops(point: bool, fp: seq<byte>)
    requires AllDigits(fp)
    ensures ScanDigits(Fraction(point, fp), RETAINED_DIGITS, false) == Scan([], 0, false)
  {
    assert point ==> Fraction(point, fp)[1..] == fp;
  }

  /** The parser reads a numeral by position: leading zeros go, up to 48 digits stay, and the scale
      is the number of fraction digits that stay, less that of the integer digits that do not. */
  lemma ParseNumeral(s: seq<byte>, spaces: seq<byte>, sign: seq<byte>, ip: seq<byte>, point: bool, fp: seq<byte>)
    requires IsNumeral(s, spaces, sign, ip, point, fp)
    ensures IsNegative(s) <==> sign == [MINUS]
    ensures |SkipZeros(ip)| <= RETAINED_DIGITS ==>
              var lead := SkipZeros(ip);
              var n := Kept(fp, |lead|);
              && ScanDigits(Unsigned(s), 0, false) == Scan(lead + fp[..n], n, false)
              && AllDigits(lead + fp[..n])
              && Decimal(lead + fp[..n]) == Decimal(ip + fp[..n])
    ensures |SkipZeros(ip)| > RETAINED_DIGITS ==>
              var lead := SkipZeros(ip);
              ScanDigits(Unsigned(s), 0, false) == Scan(lead[..RETAINED_DIGITS], RETAINED_DIGITS - |lead|, true)
  {
    hide *;
    NumeralRest(s, spaces, sign, ip, point, fp);
    var lead := SkipZeros(ip);
    DecimalLeadingZeros(ip, []);
    if |lead| <= RETAINED_DIGITS {
      PartDigits(lead, fp, Kept(fp, |lead|));
      DecimalLeadingZeros(ip, fp[..Kept(fp, |lead|)]);
      ScanNumber(lead, point, fp);
    } else {
      ScanLong(lead, point, fp, 0);
    }
  }

  lemma PartDigits(lead: seq<byte>, fp: seq<byte>, n: nat)
    requires AllDigits(fp) && n <= |fp|
    ensures AllDigits(fp[..n]) && (AllDigits(lead) ==> AllDigits(lead + fp[..n]))
  {
  }

  /** Without spaces, sign and leading zeros. */
  lemma NumeralRest(s: seq<byte>, spaces: seq<byte>, sign: seq<byte>, ip: seq<byte>, point: bool, fp: seq<byte>)
    requires IsNumeral(s, spaces, sign, ip, point, fp)
    ensures AllDigits(ip) && AllDigits(fp) && (!point ==> fp == [])
    ensures IsNegative(s) <==> sign == [MINUS]
    ensures Unsigned(s) == SkipZeros(ip) + Fraction(point, fp)
  {
    hide SkipSpaces, SkipZeros;
    var rest := Fraction(point, fp);
    SkipSpacesOf(spaces, sign + (ip + rest));
    SignOf(sign, ip + rest);
    SkipZerosOf(ip, rest);
  }

  lemma SignOf(sign: seq<byte>, t: seq<byte>)
    requires sign == [] || sign == [MINUS] || sign == [PLUS]
    requires t != [] ==> t[0] != MINUS && t[0] != PLUS
    ensures AfterSign(sign + t) == t
    ensures sign + t != [] && (sign + t)[0] == MINUS <==> sign == [MINUS]
  {
    if sign == [] {
      assert sign + t == t;
    } else {
      assert (sign + t)[1..] == t;
    }
  }

  lemma ScanNumber(lead: seq<byte>, point: bool, fp: seq<byte>)
    requires AllDigits(lead) && AllDigits(fp) && (!point ==> fp == []) && |lead| <= RETAINED_DIGITS
    ensures ScanDigits(lead + Fraction(point, fp), 0, false)
         == Scan(lead + fp[..Kept(fp, |lead|)], Kept(fp, |lead|), false)
  {
    ScanInteger(lead, Fraction(point, fp), 0);
    if point {
      assert Fraction(point, fp)[1..] == fp;
      ScanFraction(fp, |lead|);
    }
  }

  // ---------------------------------------------------------------- round trips

  /** The printed text is a numeral with exactly `scale` fraction digits and the digits' value. */
  lemma PrintedNumeral(negative: bool, d: seq<nat>, scale: nat) returns (ip: seq<byte>, fp: seq<byte>)
    requires d != [] && forall i :: 0 <= i < |d| ==> d[i] <= 9
    ensures IsNumeral(NumericText(negative, d, scale), [], Sign(negative), ip, scale > 0, fp)
    ensures |fp| == scale && |ip| >= 1 && Decimal(ip + fp) == FromDigits(d)
    ensures |d| <= scale ==> SkipZeros(ip) == []
    ensures |d| > scale ==> |ip| + |fp| == |d|
  {
    var p := Pad(d, scale + 1);
    ip, fp := AsText(p[scale..]), AsText(p[..scale]);
    SplitText(p, scale);
    PadValue(d, scale + 1);
    PaddingZero(d, scale);
    Spaceless(NumericText(negative, d, scale), Sign(negative), ip, scale > 0, fp);
  }

  lemma SplitText(p: seq<nat>, k: nat)
    requires k < |p| && forall i :: 0 <= i < |p| ==> p[i] <= 9
    ensures |AsText(p[k..])| == |p| - k && |AsText(p[..k])| == k
    ensures AllDigits(AsText(p[k..])) && AllDigits(AsText(p[..k]))
    ensures Decimal(AsText(p[k..]) + AsText(p[..k])) == FromDigits(p)
  {
    AsTextShape(p[k..]);
    AsTextShape(p[..k]);
    AsTextAppend(p[..k], p[k..]);
    assert p[..k] + p[k..] == p;
    AsTextShape(p);
  }

  lemma PaddingZero(d: seq<nat>, scale: nat)
    requires d != [] && forall i :: 0 <= i < |d| ==> d[i] <= 9
    ensures |d| <= scale ==> SkipZeros(AsText(Pad(d, scale + 1)[scale..])) == []
  {
    if |d| <= scale {
      var top := Pad(d, scale + 1)[scale..];
      assert top == [0] && top[1..] == [];
      assert AsText(top) == [ZERO] && AsText(top)[1..] == [];
    }
  }

  lemma Spaceless(text: seq<byte>, sign: seq<byte>, ip: seq<byte>, point: bool, fp: seq<byte>)
    requires (sign == [] || sign == [MINUS] || sign == [PLUS]) && AllDigits(ip) && AllDigits(fp) && (!point ==> fp == [])
    requires text == sign + ip + Fraction(point, fp)
    ensures IsNumeral(text, [], sign, ip, point, fp)
  {
    hide AllDigits, Fraction;
    var rest := Fraction(point, fp);
    Associative(sign, ip, rest);
    NothingBefore(sign + (ip + rest));
  }

  lemma NothingBefore(s: seq<byte>)
    ensures [] + s == s
  {
  }

  /** Numeric round trip, number to text to number: the sign always comes back; the scale does if and
      only if it is at most 48; then the 16-byte value comes back if and only if it is below
      10^min(precision, 39), being reduced modulo that power otherwise. */
  lemma NumericRoundTrip(v: nat, precision: nat, scale: nat, negative: bool)
    requires v < LIMIT && precision >= 1
    ensures var w := Pow10(EffectivePrecision(precision));
            var text := NumericText(negative, Digits(v, EffectivePrecision(precision)), scale);
            var scan := ScanDigits(Unsigned(text), 0, false);
            && AllDigits(scan.digits)
            && (IsNegative(text) <==> negative)
            && !scan.dropped
            && (SignedChar(scan.scale) == scale <==> scale <= RETAINED_DIGITS)
            && (scale <= RETAINED_DIGITS ==>
                  && Decimal(scan.digits) == v % w < LIMIT
                  && (Decimal(scan.digits) == v <==> v < w))
  {
    var p := EffectivePrecision(precision);
    var d := Digits(v, p);
    var ip, fp := PrintedNumeral(negative, d, scale);
    PrintedScan(NumericText(negative, d, scale), negative, |d|, scale, ip, fp);
    SignedCharSmall(if scale <= RETAINED_DIGITS then scale else RETAINED_DIGITS);
    DigitsValue(v, p);
    ModFacts(v, Pow10(p));
  }

  /** Reading back a numeral that was printed from `size` digits. */
  lemma PrintedScan(text: seq<byte>, negative: bool, size: nat, scale: nat, ip: seq<byte>, fp: seq<byte>)
    requires size <= MAX_NUMERIC_DIGITS && IsNumeral(text, [], Sign(negative), ip, scale > 0, fp)
    requires |fp| == scale
    requires size <= scale ==> SkipZeros(ip) == []
    requires size > scale ==> |ip| + |fp| == size
    ensures var scan := ScanDigits(Unsigned(text), 0, false);
            && AllDigits(scan.digits) && !scan.dropped
            && (IsNegative(text) <==> negative)
            && (if scale <= RETAINED_DIGITS then scan.scale == scale && Decimal(scan.digits) == Decimal(ip + fp)
                else scan.scale == RETAINED_DIGITS)
  {
    DecimalLeadingZeros(ip, []);
    var n := Kept(fp, |SkipZeros(ip)|);
    assert n == if scale <= RETAINED_DIGITS then scale else RETAINED_DIGITS;
    assert scale <= RETAINED_DIGITS ==> fp[..n] == fp;
    ParseNumeral(text, [], Sign(negative), ip, scale > 0, fp);
  }

  lemma SignedCharSmall(x: int)
    requires -128 <= x < 128
    ensures SignedChar(x) == x
  {
  }

  lemma ModFacts(v: nat, w: nat)
    requires w > 0
    ensures v % w <= v && v % w < w
    ensures v % w == v <==> v < w
  {
    if v < w {
      ModUnique(v, w, 0, v);
    } else {
      assert v == (v / w) * w + v % w;
      assert v / w >= 1;
    }
  }

  lemma {:induction false} DecimalBound(s: seq<byte>)
    requires AllDigits(s)
    ensures Decimal(s) < Pow10(|s|)
  {
    if s != [] {
      DecimalBound(s[..|s| - 1]);
      DecimalSnoc(s, |s| - 1);
      assert s[..|s|] == s;
    }
  }

  lemma LimitBelow39Digits()
    ensures LIMIT < Pow10(39)
  {
    assert Pow10(5) == 100000;
    assert Pow10(10) == 10000000000;
    assert Pow10(15) == 1000000000000000;
    assert Pow10(20) == 100000000000000000000;
    assert Pow10(25) == 10000000000000000000000000;
    assert Pow10(30) == 1000000000000000000000000000000;
    assert Pow10(35) == 100000000000000000000000000000000000;
  }

  /** `text` denotes (-1)^negative * n / 10^scale. */
  ghost predicate Denotes(text: seq<byte>, negative: bool, n: nat, scale: nat) {
    exists ip, fp ::
      && IsNumeral(text, [], Sign(negative), ip, scale > 0, fp)
      && |fp| == scale && |ip| >= 1 && Decimal(ip + fp) == n
  }

  /** What the driver prints for a parsed struct: the text of precision 0 is "0". */
  function Reprinted(negative: bool, n: nat, precision: nat, scale: nat): seq<byte> {
    if precision == 0 then [ZERO] else NumericText(negative, Digits(n, EffectivePrecision(precision)), scale)
  }

  /** Text to number to text: whenever the parser reports no overflow, the number it stores is printed
      as a numeral of the same rational value, with the same number of fraction digits. */
  lemma TextRoundTrip(s: seq<byte>, digits: seq<byte>, scale: int)
    requires ScanDigits(Unsigned(s), 0, false) == Scan(digits, scale, false)
    requires AllDigits(digits) && Decimal(digits) < LIMIT
    ensures SignedChar(scale) == scale >= 0
    ensures Denotes(Reprinted(IsNegative(s), Decimal(digits), |digits|, scale),
                    IsNegative(s) && digits != [], Decimal(digits), scale)
  {
    ScanShape(Unsigned(s), 0, false);
    SignedCharSmall(scale);
    if digits == [] {
      ZeroNumeral();
    } else {
      var p := EffectivePrecision(|digits|);
      DecimalBound(digits);
      LimitBelow39Digits();
      DigitsValue(Decimal(digits), p);
      ModFacts(Decimal(digits), Pow10(p));
      var ip, fp := PrintedNumeral(IsNegative(s), Digits(Decimal(digits), p), scale);
    }
  }

  lemma ZeroNumeral()
    ensures Denotes([ZERO], false, 0, 0)
  {
    var ip: seq<byte>, fp: seq<byte> := [ZERO], [];
    assert ip[1..] == [] && ip + fp == ip && [] + ip + fp == ip;
    assert ReadNumber(ip, 0) == ReadNumber(ip[1..], 0);
    Spaceless(ip, [], ip, false, fp);
    assert IsNumeral(ip, [], Sign(false), ip, false, fp) && Decimal(ip + fp) == 0;
  }
}
