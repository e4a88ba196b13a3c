/**
 Timestamps as text: `stime2timestamp` and `timestamp2stime`, with time zones off, and the part of
 `sscanf` the latter uses.
 */
module Timestamp {
  import opened CBytes
  import NumericStruct

  // ---------------------------------------------------------------- sscanf

  datatype Directive = IntField(width: nat) | Literal(c: byte) | Blank | Word(width: nat)

  datatype Item = Num(n: int) | Txt(s: seq<byte>)

  const COLON: byte := 58

  datatype Format = End | Then(d: Directive, more: Format)

  /** "%4d-%2d-%2d %2d:%2d:%2d%31s %15s" */
  const TIMESTAMP_FORMAT :=
    Then(IntField(4), Then(Literal(MINUS), Then(IntField(2), Then(Literal(MINUS), Then(IntField(2), Then(Blank, TIME_FORMAT))))))

  /** "%2d:%2d:%2d%31s %15s" */
  const TIME_FORMAT :=
    Then(IntField(2), Then(Literal(COLON), Then(IntField(2), Then(Literal(COLON), Then(IntField(2), SUFFIX_FORMAT)))))

  const SUFFIX_FORMAT := Then(Word(31), Then(Blank, Then(Word(15), End)))

  /** Length of the digits (or, for words, of the bytes that are no white space) from `p` on, at most `room`. */
  function RunLength(s: seq<byte>, p: nat, room: int, digits: bool): (n: nat)
    requires p <= |s|
    ensures p + n <= |s| && n <= if room > 0 then room else 0
    decreases |s| - p
  {
    if room <= 0 || p == |s| || (if digits then !IsDigit(s[p]) else IsSpace(s[p])) then 0
    else 1 + RunLength(s, p + 1, room - 1, digits)
  }

  /** The fields converted before the first mismatch. */
  function Sscanf(format: Format, s: seq<byte>, p: nat): seq<Item>
    requires p <= |s|
    decreases format
  {
    if format == End then []
    else
      match format.d
      case Blank => Sscanf(format.more, s, SkipSpace(s, p))
      case Literal(c) => if p < |s| && s[p] == c then Sscanf(format.more, s, p + 1) else []
      case IntField(width) =>
        var q := SkipSpace(s, p);
        var sign := if q < |s| && (s[q] == MINUS || s[q] == PLUS) then 1 else 0;
        var n := RunLength(s, q + sign, width - sign, true);
        if n == 0 then [] else [Num(Atoi(s[q..q + sign + n]))] + Sscanf(format.more, s, q + sign + n)
      case Word(width) =>
        var q := SkipSpace(s, p);
        var n := RunLength(s, q, width, false);
        if n == 0 then [] else [Txt(s[q..q + n])] + Sscanf(format.more, s, q + n)
  }

  // ---------------------------------------------------------------- from text

  datatype Stime = Stime(infinity: int, y: int, m: int, d: int, hh: int, mm: int, ss: int, fr: int)

  /** The time, and the zone when there is one. */
  datatype Parsed = Parsed(ok: bool, st: Stime, zone: Option<int>)

  /** The digits after the point, filled up to nine. */
  function Fraction(rest: seq<byte>): int
    requires rest != []
  {
    var n := RunLength(rest, 1, 9, true);
    ReadNumber(rest[1..1 + n] + seq(9 - n, i => ZERO), 0)
  }

  function FindChar(s: seq<byte>, c: byte): (p: Option<nat>)
    ensures p.Some? ==> p.value < |s| && s[p.value] == c
  {
    if s == [] then None else if s[0] == c then Some(0) else
      var p := FindChar(s[1..], c);
      if p.None? then None else Some(p.value + 1)
  }

  predicate IsBC(s: seq<byte>) { |s| == 2 && ToLower(s[0]) == 98 && ToLower(s[1]) == 99 }

  function Era(st: Stime, bc: seq<byte>): Stime { if IsBC(bc) then st.(y := 0 - st.y) else st }

  /** What follows the seconds. */
  function Suffix(st: Stime, rest: seq<byte>, bc: seq<byte>): Parsed
    requires rest != []
  {
    var c := rest[0];
    if c == PLUS then Parsed(true, Era(st, bc), Some(Atoi(rest[1..])))
    else if c == MINUS then Parsed(true, Era(st, bc), Some(0 - Atoi(rest[1..])))
    else if c == DOT then
      var plus, minus := FindChar(rest, PLUS), FindChar(rest, MINUS);
      if plus.Some? then Parsed(true, Era(st.(fr := Fraction(rest[..plus.value])), bc), Some(Atoi(rest[plus.value + 1..])))
      else if minus.Some? then Parsed(true, Era(st.(fr := Fraction(rest[..minus.value])), bc), Some(0 - Atoi(rest[minus.value + 1..])))
      else Parsed(true, Era(st.(fr := Fraction(rest)), bc), None)
    else if c == 66 then Parsed(true, Era(st, rest), None)
    else Parsed(true, st, None)
  }

  function Rest(items: seq<Item>, i: nat): seq<byte> { if i < |items| && items[i].Txt? then items[i].s else [] }

  function Field(items: seq<Item>, i: nat): int { if i < |items| && items[i].Num? then items[i].n else 0 }

  /** `timestamp2stime`, withZone off; fields that are not read keep their values. */
  function Timestamp2Stime(str: seq<byte>, st0: Stime): Parsed {
    var st := st0.(fr := 0, infinity := 0);
    var items := Sscanf(TIMESTAMP_FORMAT, str, 0);
    if |items| >= 6 then
      var t := st.(y := Field(items, 0), m := Field(items, 1), d := Field(items, 2),
                   hh := Field(items, 3), mm := Field(items, 4), ss := Field(items, 5));
      if Rest(items, 6) == [] then Parsed(true, t, None) else Suffix(t, Rest(items, 6), Rest(items, 7))
    else if |items| == 3 then
      Parsed(true, st.(y := Field(items, 0), m := Field(items, 1), d := Field(items, 2), hh := 0, mm := 0, ss := 0), None)
    else
      var times := Sscanf(TIME_FORMAT, str, 0);
      if |times| < 3 then Parsed(false, st, None)
      else
        var t := st.(hh := Field(times, 0), mm := Field(times, 1), ss := Field(times, 2));
        if Rest(times, 3) == [] then Parsed(true, t, None) else Suffix(t, Rest(times, 3), Rest(times, 4))
  }

  // ---------------------------------------------------------------- to text

  /** Trailing zeros up to position `i` are dropped, the point too when nothing is left. */
  function Trimmed(text: seq<byte>, i: nat): seq<byte>
    requires i < |text|
  {
    if i == 0 then [] else if text[i] != ZERO then text[..i + 1] else Trimmed(text, i - 1)
  }

  /** The fraction with at most `precision` digits. */
  function FractionText(fr: nat, precision: int): seq<byte> {
    if precision <= 0 || fr == 0 then []
    else
      var text := [DOT] + MinDigits(fr, 9);
      var p := if precision > 9 then 9 else precision;
      if precision >= 9 && text[p] != ZERO then text else Trimmed(text, p)
  }

  const BC: seq<byte> := [66, 67]

  function DateText(y: int, m: int, d: int, tail: seq<byte>): seq<byte> {
    Printed(y, 4) + ([MINUS] + (Printed(m, 2) + ([MINUS] + (Printed(d, 2) + ([SPACE] + tail)))))
  }

  function TimeText(hh: int, mm: int, ss: int, tail: seq<byte>): seq<byte> {
    Printed(hh, 2) + ([COLON] + (Printed(mm, 2) + ([COLON] + (Printed(ss, 2) + tail))))
  }

  function EndText(fraction: seq<byte>, bc: bool): seq<byte> { fraction + if bc then [SPACE] + BC else [] }

  /** `stime2timestamp` without a zone. */
  function Stime2Timestamp(st: Stime, precision: int): seq<byte>
    requires st.fr >= 0
  {
    if st.infinity > 0 then INFINITY
    else if st.infinity < 0 then [MINUS] + INFINITY
    else
      DateText(if st.y < 0 then 0 - st.y else st.y, st.m, st.d,
               TimeText(st.hh, st.mm, st.ss, EndText(FractionText(st.fr, precision), st.y < 0)))
  }

  const INFINITY: seq<byte> := [73, 110, 102, 105, 110, 105, 116, 121]

  // ---------------------------------------------------------------- in place

  class SimpleTime {
    var infinity: int
    var y: int
    var m: int
    var d: int
    var hh: int
    var mm: int
    var ss: int
    var fr: int

    function Value(): Stime
      reads this
    {
      Stime(infinity, y, m, d, hh, mm, ss, fr)
    }

    method SetDate(y: int, m: int, d: int)
      modifies `y, `m, `d
      ensures Value() == old(Value()).(y := y, m := m, d := d)
    {
      this.y, this.m, this.d := y, m, d;
    }

    method SetTime(hh: int, mm: int, ss: int)
      modifies `hh, `mm, `ss
      ensures Value() == old(Value()).(hh := hh, mm := mm, ss := ss)
    {
      this.hh, this.mm, this.ss := hh, mm, ss;
    }

    /** `timestamp2stime` with withZone off; the zone found is returned. */
    method FromText(str: seq<byte>) returns (ok: bool, zone: Option<int>)
      modifies this
      ensures Parsed(ok, Value(), zone) == Timestamp2Stime(str, old(Value()))
    {
      hide Sscanf, Suffix;
      ok, zone := true, None;
      fr, infinity := 0, 0;
      var items, first := Sscanf(TIMESTAMP_FORMAT, str, 0), 0;
      if |items| >= 6 {
        SetDate(Field(items, 0), Field(items, 1), Field(items, 2));
        SetTime(Field(items, 3), Field(items, 4), Field(items, 5));
        first := 6;
      } else if |items| == 3 {
        SetDate(Field(items, 0), Field(items, 1), Field(items, 2));
        SetTime(0, 0, 0);
        return;
      } else {
        items := Sscanf(TIME_FORMAT, str, 0);
        if |items| < 3 {
          return false, None;
        }
        SetTime(Field(items, 0), Field(items, 1), Field(items, 2));
        first := 3;
      }
      var rest, bc := Rest(items, first), Rest(items, first + 1);
      if rest != [] {
        zone := TakeSuffix(rest, bc);
      }
    }

    method TakeEra(bc: seq<byte>)
      modifies `y
      ensures Value() == Era(old(Value()), bc)
    {
      if IsBC(bc) {
        y := y * -1;
      }
    }

    /** The switch on the first byte after the seconds. */
    method TakeSuffix(rest: seq<byte>, bc: seq<byte>) returns (zone: Option<int>)
      requires rest != []
      modifies `y, `fr
      ensures Parsed(true, Value(), zone) == Suffix(old(Value()), rest, bc)
    {
      hide Fraction, IsBC, Atoi;
      zone := None;
      if rest[0] == PLUS {
        zone := Some(Atoi(rest[1..]));
      } else if rest[0] == MINUS {
        zone := Some(0 - Atoi(rest[1..]));
      } else if rest[0] == DOT {
        zone := TakeFraction(rest);
      } else if rest[0] == 66 {
        TakeEra(rest);
        return;
      } else {
        return;
      }
      TakeEra(bc);
    }

    /** The fraction ends at a sign, where a zone starts. */
    method TakeFraction(rest: seq<byte>) returns (zone: Option<int>)
      requires rest != [] && rest[0] == DOT
      modifies `fr
      ensures forall bc :: Parsed(true, Era(Value(), bc), zone) == Suffix(old(Value()), rest, bc)
    {
      hide Fraction, IsBC, Atoi;
      zone := None;
      var plus, minus := FindChar(rest, PLUS), FindChar(rest, MINUS);
      if plus.Some? {
        zone := Some(Atoi(rest[plus.value + 1..]));
        fr := ReadFraction(rest[..plus.value]);
      } else if minus.Some? {
        zone := Some(0 - Atoi(rest[minus.value + 1..]));
        fr := ReadFraction(rest[..minus.value]);
      } else {
        fr := ReadFraction(rest);
      }
    }

    /** The loops that fill the digits up to nine. */
    static method ReadFraction(text: seq<byte>) returns (fr: int)
      requires text != []
      ensures fr == Fraction(text)
    {
      var rest := new byte[64](i => NUL);
      var i := 1;
      while i < 10 && i < |text| && IsDigit(text[i])
        invariant 1 <= i <= 10 && i <= |text| && rest[1..i] == text[1..i]
        invariant RunLength(text, 1, 9, true) == i - 1 + RunLength(text, i, 10 - i, true)
      {
        rest[i] := text[i];
        assert rest[1..i + 1] == rest[1..i] + [text[i]] && text[1..i + 1] == text[1..i] + [text[i]];
        i := i + 1;
      }
      ghost var n := i - 1;
      assert RunLength(text, 1, 9, true) == n;
      while i < 10
        invariant n + 1 <= i <= 10 && rest[1..i] == text[1..1 + n] + seq(i - 1 - n, j => ZERO)
      {
        rest[i] := ZERO;
        assert rest[1..i + 1] == rest[1..i] + [ZERO];
        i := i + 1;
      }
      fr := ReadNumber(rest[1..10], 0);
    }

    /** The end of a fraction: the digits beyond the precision and trailing zeros go. */
    method PrintFraction(precision: int) returns (text: seq<byte>)
      requires fr >= 0
      ensures text == FractionText(fr, precision)
    {
      if precision <= 0 || fr == 0 {
        return [];
      }
      text := [DOT] + MinDigits(fr, 9);
      var i := if precision < 9 then precision else 9;
      if precision >= 9 && text[i] != ZERO {
        return;
      }
      ghost var whole, p := text, i;
      while i > 0 && text[i] == ZERO
        invariant 0 <= i <= p && text == whole && Trimmed(whole, i) == Trimmed(whole, p)
      {
        i := i - 1;
      }
      text := if i == 0 then [] else text[..i + 1];
    }

    /** `stime2timestamp` without a zone. */
    method ToText(precision: int) returns (text: seq<byte>)
      requires fr >= 0
      ensures text == Stime2Timestamp(Value(), precision)
    {
      hide FractionText, DateText, TimeText;
      if infinity > 0 {
        return INFINITY;
      } else if infinity < 0 {
        return [MINUS] + INFINITY;
      }
      var precstr := PrintFraction(precision);
      if y < 0 {
        text := DateText(-y, m, d, TimeText(hh, mm, ss, precstr + ([SPACE] + BC)));
      } else {
        text := DateText(y, m, d, TimeText(hh, mm, ss, precstr + []));
      }
    }
  }

  // ---------------------------------------------------------------- digits

  lemma {:induction false} DigitsValue(n: nat, w: nat)
    ensures AllDigits(MinDigits(n, w)) && ReadNumber(MinDigits(n, w), 0) == n
    decreases n + w
  {
    if n < 10 && w <= 1 {
      assert [48 + n][1..] == [];
    } else {
      var more, last: seq<byte> := MinDigits(n / 10, if w > 0 then w - 1 else 0), [48 + n % 10];
      DigitsValue(n / 10, if w > 0 then w - 1 else 0);
      ReadNumberAppend(more, last, 0);
      assert last[1..] == [];
      assert ReadNumber(last, n / 10) == 10 * (n / 10) + n % 10;
    }
  }

  lemma {:induction false} DigitsLength(n: nat, w: nat)
    requires w >= 1 && n < NumericStruct.Pow10(w)
    ensures |MinDigits(n, w)| == w
    decreases w
  {
    if w > 1 {
      DigitsLength(n / 10, w - 1);
    }
  }

  /** The first digits are those of the quotient. */
  lemma {:induction false} DigitsHead(n: nat, w: nat, k: nat)
    requires 1 <= k <= w && n < NumericStruct.Pow10(w)
    ensures |MinDigits(n, w)| == w && NumericStruct.Pow10(w - k) > 0
    ensures MinDigits(n, w)[..k] == MinDigits(n / NumericStruct.Pow10(w - k), k)
    decreases w
  {
    DigitsLength(n, w);
    if k < w {
      var p := NumericStruct.Pow10(w - 1 - k);
      DigitsHead(n / 10, w - 1, k);
      DivTen(n, p);
      assert MinDigits(n, w)[..k] == MinDigits(n / 10, w - 1)[..k];
    } else {
      assert MinDigits(n, w)[..w] == MinDigits(n, w);
    }
  }

  lemma DivTen(n: nat, b: nat)
    requires b > 0
    ensures n / 10 / b == n / (10 * b)
  {
    var q, r, c := n / 10, n % 10, 10 * b;
    NumericStruct.ModTen(q, r, b);
    var x, y := n / c, q / b;
    assert n == 10 * q + r && n % c == 10 * (q % b) + r;
    assert c * x == n - n % c;
    assert b * y == q - q % b;
    assert c * y == 10 * (b * y);
    Cancel(c, x, y);
  }

  lemma Cancel(c: nat, x: int, y: int)
    requires c > 0 && c * x == c * y
    ensures x == y
  {
    assert c * (x - y) == 0;
    assert x - y > 0 ==> c * (x - y) > 0;
    assert x - y < 0 ==> c * (y - x) > 0;
  }

  lemma {:induction false} ReadZeros(j: nat, v: nat)
    ensures ReadNumber(seq(j, i => ZERO), v) == v * NumericStruct.Pow10(j)
  {
    var zeros: seq<byte> := seq(j, i => ZERO);
    if j == 0 {
      assert zeros == [];
    } else {
      assert zeros[1..] == seq(j - 1, i => ZERO);
      ReadZeros(j - 1, 10 * v);
      assert 10 * v * NumericStruct.Pow10(j - 1) == v * (10 * NumericStruct.Pow10(j - 1));
    }
  }

  // ---------------------------------------------------------------- fractions

  /** Where trimming stops, and what it drops. */
  lemma {:induction false} TrimmedIs(text: seq<byte>, i: nat) returns (j: nat)
    requires i < |text|
    ensures j <= i && (j == 0 || text[j] != ZERO) && (forall k :: j < k <= i ==> text[k] == ZERO)
    ensures Trimmed(text, i) == if j == 0 then [] else text[..j + 1]
  {
    if i == 0 || text[i] != ZERO {
      j := i;
    } else {
      j := TrimmedIs(text, i - 1);
    }
  }

  /** A fraction of `k` digits. */
  function Truncated(fr: nat, precision: int): nat {
    if precision <= 0 then 0 else Multiple(fr, NumericStruct.Pow10(9 - Clip(precision)))
  }

  /** The largest multiple of `unit` up to `n`. */
  function Multiple(n: nat, unit: nat): nat
    requires unit > 0
  {
    n / unit * unit
  }

  function Clip(precision: int): (k: nat)
    requires precision > 0
    ensures 1 <= k <= 9
  {
    if precision > 9 then 9 else precision
  }

  lemma Billion()
    ensures NumericStruct.Pow10(9) == 1000000000
  {
    assert NumericStruct.Pow10(4) == 10000;
  }

  lemma ReadPadded(fr: nat, k: nat)
    requires 1 <= k <= 9 && fr < 1000000000
    ensures |MinDigits(fr, 9)| == 9
    ensures ReadNumber(MinDigits(fr, 9)[..k] + seq(9 - k, i => ZERO), 0)
         == Multiple(fr, NumericStruct.Pow10(9 - k))
  {
    Billion();
    hide NumericStruct.Pow10, MinDigits, ReadNumber;
    DigitsHead(fr, 9, k);
    var q := fr / NumericStruct.Pow10(9 - k);
    DigitsValue(q, k);
    ReadNumberAppend(MinDigits(q, k), seq(9 - k, i => ZERO), 0);
    ReadZeros(9 - k, q);
  }

  lemma {:induction false} RunLengthIs(s: seq<byte>, p: nat, room: nat, digits: bool, n: nat)
    requires p + n <= |s| && n <= room
    requires forall i :: p <= i < p + n ==> if digits then IsDigit(s[i]) else !IsSpace(s[i])
    requires n == room || p + n == |s| || if digits then !IsDigit(s[p + n]) else IsSpace(s[p + n])
    ensures RunLength(s, p, room, digits) == n
    decreases n
  {
    if n > 0 {
      RunLengthIs(s, p + 1, room - 1, digits, n - 1);
    }
  }

  /** The text of a fraction is read as the truncated fraction. */
  lemma FractionRoundTrip(fr: nat, precision: int)
    requires fr < 1000000000
    ensures var text := FractionText(fr, precision);
            && |text| <= 10 && (forall i :: 0 <= i < |text| ==> (i == 0 <==> text[i] == DOT) && (i > 0 ==> IsDigit(text[i])))
            && (text == [] ==> Truncated(fr, precision) == 0)
            && (text != [] ==> Fraction(text) == Truncated(fr, precision))
  {
    if precision <= 0 || fr == 0 {
      assert fr == 0 && precision > 0 ==> Truncated(fr, precision) == 0;
      return;
    }
    var k, digits := Clip(precision), MinDigits(fr, 9);
    var whole := [DOT] + digits;
    ReadPadded(fr, k);
    DigitsValue(fr, 9);
    hide MinDigits, ReadNumber, Multiple, NumericStruct.Pow10;
    var j := TrimmedIs(whole, k);
    hide Trimmed;
    assert FractionText(fr, precision) == if j == 0 then [] else whole[..j + 1];
    assert forall i :: j <= i < k ==> digits[i] == whole[i + 1];
    SamePadding(digits, j, k);
    if j == 0 {
      NoDigits(digits);
    } else {
      FractionOf(digits, j);
    }
  }

  lemma NoDigits(digits: seq<byte>)
    ensures ReadNumber(digits[..0] + seq(9 - 0, i => ZERO), 0) == 0
  {
    ReadZeros(9, 0);
    assert digits[..0] + seq(9 - 0, i => ZERO) == seq(9, i => ZERO);
  }

  lemma FractionOf(digits: seq<byte>, j: nat)
    requires |digits| == 9 && AllDigits(digits) && 1 <= j <= 9
    ensures Fraction(([DOT] + digits)[..j + 1]) == ReadNumber(digits[..j] + seq(9 - j, i => ZERO), 0)
  {
    var text := ([DOT] + digits)[..j + 1];
    assert forall i :: 1 <= i <= j ==> text[i] == digits[i - 1];
    RunLengthIs(text, 1, 9, true, j);
    assert text[1..1 + j] == digits[..j];
    hide ReadNumber;
  }

  lemma SamePadding(digits: seq<byte>, j: nat, k: nat)
    requires j <= k <= 9 == |digits| && forall i :: j <= i < k ==> digits[i] == ZERO
    ensures digits[..j] + seq(9 - j, i => ZERO) == digits[..k] + seq(9 - k, i => ZERO)
  {
  }

  // ---------------------------------------------------------------- reading what was printed

  lemma AtoiDigits(d: seq<byte>)
    requires d != [] && AllDigits(d)
    ensures Atoi(d) == ReadNumber(d, 0)
  {
    assert d[0..] == d;
  }

  lemma DigitField(s: seq<byte>, p: nat, d: seq<byte>, more: Format, tail: seq<byte>)
    requires p <= |s| && s[p..] == d + tail && d != [] && AllDigits(d)
    ensures p + |d| <= |s| && s[p + |d|..] == tail
    ensures Sscanf(Then(IntField(|d|), more), s, p) == [Num(Atoi(d))] + Sscanf(more, s, p + |d|)
  {
    hide Atoi;
    var w := |d|;
    assert s[p..p + w] == s[p..][..w] == d && s[p + w..] == s[p..][w..];
    assert forall i :: p <= i < p + w ==> s[i] == d[i - p];
    assert SkipSpace(s, p) == p && IsDigit(s[p]);
    hide SkipSpace;
    RunLengthIs(s, p, w, true, w);
    hide RunLength;
  }

  lemma PrintedIs(n: nat, w: nat)
    ensures Printed(n, w) == MinDigits(n, w)
  {
    hide MinDigits;
  }

  lemma NumberField(s: seq<byte>, p: nat, n: nat, w: nat, more: Format, tail: seq<byte>)
    requires p <= |s| && s[p..] == Printed(n, w) + tail && w >= 1 && n < NumericStruct.Pow10(w)
    ensures p + w <= |s| && s[p + w..] == tail
    ensures Sscanf(Then(IntField(w), more), s, p) == [Num(n)] + Sscanf(more, s, p + w)
  {
    hide *;
    PrintedIs(n, w);
    DigitsLength(n, w);
    DigitsValue(n, w);
    AtoiDigits(MinDigits(n, w));
    DigitField(s, p, MinDigits(n, w), more, tail);
  }

  lemma LiteralField(s: seq<byte>, p: nat, c: byte, more: Format, tail: seq<byte>)
    requires p <= |s| && s[p..] == [c] + tail
    ensures p < |s| && s[p + 1..] == tail && Sscanf(Then(Literal(c), more), s, p) == Sscanf(more, s, p + 1)
  {
    assert s[p] == s[p..][0] && s[p + 1..] == s[p..][1..];
  }

  lemma BlankField(s: seq<byte>, p: nat, more: Format, tail: seq<byte>)
    requires p <= |s| && s[p..] == [SPACE] + tail && tail != [] && !IsSpace(tail[0])
    ensures p < |s| && s[p + 1..] == tail && Sscanf(Then(Blank, more), s, p) == Sscanf(more, s, p + 1)
  {
    assert s[p] == s[p..][0] && s[p + 1..] == s[p..][1..] && s[p + 1] == s[p..][1];
    assert SkipSpace(s, p) == p + 1;
  }

  lemma WordField(s: seq<byte>, p: nat, word: seq<byte>, width: nat, more: Format, tail: seq<byte>)
    requires p <= |s| && s[p..] == word + tail
    requires word != [] && |word| <= width && (forall i :: 0 <= i < |word| ==> !IsSpace(word[i]))
    requires tail == [] || IsSpace(tail[0])
    ensures p + |word| <= |s| && s[p + |word|..] == tail
    ensures Sscanf(Then(Word(width), more), s, p) == [Txt(word)] + Sscanf(more, s, p + |word|)
  {
    var n := |word|;
    assert s[p..p + n] == s[p..][..n] == word && s[p + n..] == s[p..][n..];
    assert forall i :: p <= i < p + n ==> s[i] == word[i - p];
    assert tail != [] ==> s[p + n] == s[p + n..][0];
    RunLengthIs(s, p, width, false, n);
    hide RunLength;
    assert SkipSpace(s, p) == p;
  }

  /** White space before a word is skipped. */
  lemma WordAfterSpace(s: seq<byte>, p: nat, width: nat, more: Format, tail: seq<byte>)
    requires p <= |s| && s[p..] == [SPACE] + tail && tail != [] && !IsSpace(tail[0])
    ensures p < |s| && s[p + 1..] == tail
    ensures Sscanf(Then(Word(width), more), s, p) == Sscanf(Then(Word(width), more), s, p + 1)
  {
    assert s[p] == s[p..][0] && s[p + 1..] == s[p..][1..] && s[p + 1] == s[p..][1];
    hide RunLength;
    assert SkipSpace(s, p) == p + 1 == SkipSpace(s, p + 1);
  }

  lemma NothingLeft(s: seq<byte>, width: nat, more: Format)
    ensures Sscanf(Then(Word(width), more), s, |s|) == []
    ensures Sscanf(Then(Blank, Then(Word(width), more)), s, |s|) == []
  {
  }

  /** Two numbers of two digits with a separator, at the start of a format. */
  lemma PairFields(s: seq<byte>, p: nat, n: nat, w: nat, c: byte, more: Format, tail: seq<byte>)
    requires p <= |s| && s[p..] == Printed(n, w) + ([c] + tail) && w >= 1 && n < NumericStruct.Pow10(w)
    ensures p + w + 1 <= |s| && s[p + w + 1..] == tail
    ensures Sscanf(Then(IntField(w), Then(Literal(c), more)), s, p) == [Num(n)] + Sscanf(more, s, p + w + 1)
  {
    hide *;
    NumberField(s, p, n, w, Then(Literal(c), more), [c] + tail);
    LiteralField(s, p + w, c, more, tail);
  }

  lemma Powers()
    ensures NumericStruct.Pow10(2) == 100 && NumericStruct.Pow10(4) == 10000
  {
  }

  lemma TimeFields(s: seq<byte>, p: nat, hh: nat, mm: nat, ss: nat, tail: seq<byte>)
    requires p <= |s| && s[p..] == TimeText(hh, mm, ss, tail) && hh <= 99 && mm <= 99 && ss <= 99
    ensures p + 8 <= |s| && s[p + 8..] == tail
    ensures Sscanf(TIME_FORMAT, s, p) == [Num(hh), Num(mm), Num(ss)] + Sscanf(SUFFIX_FORMAT, s, p + 8)
  {
    var t2 := Printed(ss, 2) + tail;
    var t1 := Printed(mm, 2) + ([COLON] + t2);
    var f2 := Then(IntField(2), SUFFIX_FORMAT);
    var f1 := Then(IntField(2), Then(Literal(COLON), f2));
    assert TimeText(hh, mm, ss, tail) == Printed(hh, 2) + ([COLON] + t1);
    assert TIME_FORMAT == Then(IntField(2), Then(Literal(COLON), f1));
    hide *;
    Powers();
    PairFields(s, p, hh, 2, COLON, f1, t1);
    PairFields(s, p + 3, mm, 2, COLON, f2, t2);
    NumberField(s, p + 6, ss, 2, SUFFIX_FORMAT, tail);
    Three(Num(hh), Num(mm), Num(ss), Sscanf(SUFFIX_FORMAT, s, p + 8));
  }

  lemma Three(a: Item, b: Item, c: Item, rest: seq<Item>)
    ensures [a] + ([b] + ([c] + rest)) == [a, b, c] + rest
  {
  }

  lemma DateFields(s: seq<byte>, y: nat, m: nat, d: nat, tail: seq<byte>)
    requires s == DateText(y, m, d, tail) && y <= 9999 && m <= 99 && d <= 99 && tail != [] && !IsSpace(tail[0])
    ensures 11 <= |s| && s[11..] == tail
    ensures Sscanf(TIMESTAMP_FORMAT, s, 0) == [Num(y), Num(m), Num(d)] + Sscanf(TIME_FORMAT, s, 11)
  {
    var t2 := Printed(d, 2) + ([SPACE] + tail);
    var t1 := Printed(m, 2) + ([MINUS] + t2);
    var f2 := Then(IntField(2), Then(Blank, TIME_FORMAT));
    var f1 := Then(IntField(2), Then(Literal(MINUS), f2));
    assert s[0..] == s == Printed(y, 4) + ([MINUS] + t1);
    assert TIMESTAMP_FORMAT == Then(IntField(4), Then(Literal(MINUS), f1));
    hide *;
    Powers();
    PairFields(s, 0, y, 4, MINUS, f1, t1);
    PairFields(s, 5, m, 2, MINUS, f2, t2);
    NumberField(s, 8, d, 2, Then(Blank, TIME_FORMAT), [SPACE] + tail);
    BlankField(s, 10, TIME_FORMAT, tail);
    Three(Num(y), Num(m), Num(d), Sscanf(TIME_FORMAT, s, 11));
  }

  /** What is read after the seconds: the fraction, if any, and the era. */
  function Words(fraction: seq<byte>, bc: bool): seq<Item> {
    (if fraction == [] then [] else [Txt(fraction)]) + (if bc then [Txt(BC)] else [])
  }

  lemma FractionAndEra(s: seq<byte>, p: nat, fraction: seq<byte>)
    requires p <= |s| && s[p..] == EndText(fraction, true) && 0 < |fraction| <= 10
    requires forall i :: 0 <= i < |fraction| ==> !IsSpace(fraction[i])
    ensures Sscanf(SUFFIX_FORMAT, s, p) == [Txt(fraction), Txt(BC)]
  {
    hide Sscanf, SkipSpace, RunLength, Atoi;
    var last := Then(Word(15), End);
    WordField(s, p, fraction, 31, Then(Blank, last), [SPACE] + BC);
    var q := p + |fraction|;
    BlankField(s, q, last, BC);
    assert BC + [] == BC;
    WordField(s, q + 1, BC, 15, End, []);
    AtEnd(s, |s|);
    assert q + 1 + |BC| == |s|;
  }

  lemma SuffixFields(s: seq<byte>, p: nat, fraction: seq<byte>, bc: bool)
    requires p <= |s| && s[p..] == EndText(fraction, bc)
    requires |fraction| <= 10 && forall i :: 0 <= i < |fraction| ==> !IsSpace(fraction[i])
    ensures Sscanf(SUFFIX_FORMAT, s, p) == Words(fraction, bc)
  {
    hide Sscanf, SkipSpace, RunLength, Atoi;
    var last := Then(Word(15), End);
    NothingLeft(s, 31, Then(Blank, last));
    NothingLeft(s, 15, End);
    assert BC + [] == BC;
    if fraction == [] {
      if bc {
        assert s[p..] == [SPACE] + BC;
        WordAfterSpace(s, p, 31, Then(Blank, last), BC);
        WordField(s, p + 1, BC, 31, Then(Blank, last), []);
        assert p + 1 + |BC| == |s|;
      }
    } else if bc {
      FractionAndEra(s, p, fraction);
    } else {
      assert s[p..] == fraction + [];
      WordField(s, p, fraction, 31, Then(Blank, last), []);
      assert p + |fraction| == |s|;
    }
  }

  lemma AtEnd(s: seq<byte>, p: nat)
    requires p <= |s|
    ensures Sscanf(End, s, p) == []
  {
  }

  predicate InRange(st: Stime) {
    && st.infinity == 0 && -9999 <= st.y <= 9999 && 0 <= st.fr < 1000000000
    && 0 <= st.m <= 99 && 0 <= st.d <= 99 && 0 <= st.hh <= 99 && 0 <= st.mm <= 99 && 0 <= st.ss <= 99
  }

  lemma {:induction false} NoSign(s: seq<byte>, c: byte)
    requires forall i :: 0 <= i < |s| ==> s[i] != c
    ensures FindChar(s, c) == None
  {
    if s != [] {
      NoSign(s[1..], c);
    }
  }

  lemma TimeStarts(hh: nat, mm: nat, ss: nat, end: seq<byte>)
    ensures TimeText(hh, mm, ss, end) != [] && !IsSpace(TimeText(hh, mm, ss, end)[0])
  {
    DigitsValue(hh, 2);
    assert TimeText(hh, mm, ss, end)[0] == MinDigits(hh, 2)[0];
  }

  function Year(st: Stime): (y: nat)
    requires InRange(st)
    ensures y <= 9999
  {
    if st.y < 0 then 0 - st.y else st.y
  }

  /** All fields of the printed text. */
  lemma AllFields(st: Stime, precision: int)
    requires InRange(st)
    ensures Sscanf(TIMESTAMP_FORMAT, Stime2Timestamp(st, precision), 0)
         == [Num(Year(st)), Num(st.m), Num(st.d), Num(st.hh), Num(st.mm), Num(st.ss)]
            + Words(FractionText(st.fr, precision), st.y < 0)
  {
    hide *;
    TextIs(st, precision);
    var fraction, bc := FractionText(st.fr, precision), st.y < 0;
    var end, s := EndText(fraction, bc), Stime2Timestamp(st, precision);
    FractionRoundTrip(st.fr, precision);
    NoSpaces(fraction);
    TimeStarts(st.hh, st.mm, st.ss, end);
    DateFields(s, Year(st), st.m, st.d, TimeText(st.hh, st.mm, st.ss, end));
    TimeFields(s, 11, st.hh, st.mm, st.ss, end);
    SuffixFields(s, 19, fraction, bc);
    SixAndMore(Num(Year(st)), Num(st.m), Num(st.d), Num(st.hh), Num(st.mm), Num(st.ss), Words(fraction, bc));
  }

  lemma SixAndMore(a: Item, b: Item, c: Item, d: Item, e: Item, f: Item, more: seq<Item>)
    ensures [a, b, c] + ([d, e, f] + more) == [a, b, c, d, e, f] + more
  {
  }

  lemma TextIs(st: Stime, precision: int)
    requires InRange(st)
    ensures Stime2Timestamp(st, precision)
         == DateText(Year(st), st.m, st.d, TimeText(st.hh, st.mm, st.ss, EndText(FractionText(st.fr, precision), st.y < 0)))
    ensures 0 <= st.fr < 1000000000
    ensures 0 <= st.m <= 99 && 0 <= st.d <= 99 && 0 <= st.hh <= 99 && 0 <= st.mm <= 99 && 0 <= st.ss <= 99
  {
    hide DateText, TimeText, EndText, FractionText;
  }

  lemma NoSpaces(fraction: seq<byte>)
    requires forall i :: 0 <= i < |fraction| ==> (i == 0 <==> fraction[i] == DOT) && (i > 0 ==> IsDigit(fraction[i]))
    ensures forall i :: 0 <= i < |fraction| ==> !IsSpace(fraction[i])
  {
  }

  /** A point, digits and the era. */
  lemma SuffixIs(t: Stime, fraction: seq<byte>, bc: bool)
    requires fraction != [] && fraction[0] == DOT && forall i :: 1 <= i < |fraction| ==> IsDigit(fraction[i])
    ensures Suffix(t, fraction, if bc then BC else [])
         == Parsed(true, t.(fr := Fraction(fraction), y := if bc then 0 - t.y else t.y), None)
  {
    NoSign(fraction, PLUS);
    NoSign(fraction, MINUS);
    hide Fraction;
  }

  /** What the fields make of a structure. */
  lemma FieldsUsed(str: seq<byte>, st0: Stime, y: int, m: int, d: int, hh: int, mm: int, ss: int, fraction: seq<byte>, bc: bool)
    requires Sscanf(TIMESTAMP_FORMAT, str, 0) == [Num(y), Num(m), Num(d), Num(hh), Num(mm), Num(ss)] + Words(fraction, bc)
    ensures var t := Stime(0, y, m, d, hh, mm, ss, 0);
            Timestamp2Stime(str, st0)
            == if fraction != [] then Suffix(t, fraction, if bc then BC else [])
               else Parsed(true, if bc then t.(y := 0 - y) else t, None)
  {
    hide Sscanf, Fraction;
    var items := Sscanf(TIMESTAMP_FORMAT, str, 0);
    assert Rest(items, 6) == if fraction != [] then fraction else if bc then BC else [];
    assert Rest(items, 7) == if fraction != [] && bc then BC else [];
    if fraction == [] && bc {
      assert IsBC(BC);
    }
  }

  /** Timestamp round trip: every time with a year from -9999 to 9999 is read back from its text, the
      fraction truncated to the precision, whatever the structure held before. */
  lemma TimestampRoundTrip(st: Stime, precision: int, st0: Stime)
    requires InRange(st)
    ensures Timestamp2Stime(Stime2Timestamp(st, precision), st0) == Parsed(true, st.(fr := Truncated(st.fr, precision)), None)
  {
    AllFields(st, precision);
    FractionRoundTrip(st.fr, precision);
    hide Sscanf, Stime2Timestamp, FractionText, Truncated, Fraction, Timestamp2Stime, Words, Suffix;
    var fraction := FractionText(st.fr, precision);
    FieldsUsed(Stime2Timestamp(st, precision), st0, Year(st), st.m, st.d, st.hh, st.mm, st.ss, fraction, st.y < 0);
    if fraction != [] {
      SuffixIs(Stime(0, Year(st), st.m, st.d, st.hh, st.mm, st.ss, 0), fraction, st.y < 0);
    }
  }
}
