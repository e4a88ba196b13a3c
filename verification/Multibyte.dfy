/**
 Client encodings (multibyte.c): the byte-driven state machine `pg_CS_stat` that tells, without
 ever looking ahead, whether the current byte belongs to a non-ASCII character.
 */
module Multibyte {
  import opened CBytes

  /** `SingleByte` stands for every encoding that `pg_CS_stat` treats by its default branch. */
  datatype Encoding =
    | SingleByte | Utf8 | Sjis | ShiftJis2004 | Big5 | Gbk | Uhc | EucJp | EucJis2004
    | EucCn | EucKr | EucTw | Gb18030 | Johab

  /** One step of `pg_CS_stat`. */
  function Stat(enc: Encoding, stat0: nat, c: byte): nat {
    var stat := if c == 0 then 0 else stat0;
    match enc
    case Utf8 =>
      if stat < 2 && c >= 0x80 then
        if c >= 0xfc then 6
        else if c >= 0xf8 then 5
        else if c >= 0xf0 then 4
        else if c >= 0xe0 then 3
        else if c >= 0xc0 then 2
        else stat
      else if stat >= 2 && c > 0x7f then stat - 1
      else 0
    case ShiftJis2004 =>
      if stat < 2 && (0x81 <= c <= 0x9f || 0xe0 <= c <= 0xef || 0xf0 <= c <= 0xfc) then 2
      else if stat == 2 then 1
      else 0
    case Sjis =>
      if stat < 2 && c > 0x80 && !(0x9f < c < 0xe0) then 2
      else if stat == 2 then 1
      else 0
    case Big5 =>
      if stat < 2 && c > 0xa0 then 2 else if stat == 2 then 1 else 0
    case Gbk =>
      if stat < 2 && c > 0x7f then 2 else if stat == 2 then 1 else 0
    case Uhc =>
      if stat < 2 && c > 0x7f then 2 else if stat == 2 then 1 else 0
    case EucJis2004 => EucJapanese(stat, c)
    case EucJp => EucJapanese(stat, c)
    case EucCn =>
      if stat < 2 && c > 0xa0 then 2 else if stat == 2 then 1 else 0
    case EucKr =>
      if stat < 2 && c > 0xa0 then 2 else if stat == 2 then 1 else 0
    case Johab =>
      if stat < 2 && c > 0xa0 then 2 else if stat == 2 then 1 else 0
    case EucTw =>
      if stat < 4 && c == 0x8e then 4
      else if stat == 4 && c > 0xa0 then 3
      else if (stat == 3 || stat < 2) && c > 0xa0 then 2
      else if stat == 2 then 1
      else 0
    case Gb18030 =>
      if stat < 2 && c > 0x80 then 2
      else if stat == 2 then (if 0x30 <= c <= 0x39 then 3 else 1)
      else if stat == 3 then (if 0x30 <= c <= 0x39 then 1 else 3)
      else 0
    case SingleByte => 0
  }

  function EucJapanese(stat: nat, c: byte): nat {
    if stat < 3 && c == 0x8f then 3
    else if stat != 2 && (c == 0x8e || c > 0xa0) then 2
    else if stat == 2 then 1
    else 0
  }

  /** The state after a whole string. */
  function StatRun(enc: Encoding, stat: nat, s: seq<byte>): nat
    decreases s
  {
    if s == [] then stat else StatRun(enc, Stat(enc, stat, s[0]), s[1..])
  }

  lemma {:induction false} StatRunAppend(enc: Encoding, stat: nat, s: seq<byte>, t: seq<byte>)
    ensures StatRun(enc, stat, s + t) == StatRun(enc, StatRun(enc, stat, s), t)
    decreases s
  {
    if s == [] {
      assert s + t == t;
    } else {
      assert (s + t)[1..] == s[1..] + t;
      StatRunAppend(enc, Stat(enc, stat, s[0]), s[1..], t);
    }
  }

  /** `MBCS_NON_ASCII` after the byte `c` has been read in state `stat`. */
  predicate NonAscii(enc: Encoding, stat: nat, c: byte) {
    Stat(enc, stat, c) != 0 || c >= 0x80
  }

  // ---------------------------------------------------------------- encoded_str

  class EncodedStr {
    const ccsc: Encoding
    const encstr: seq<byte>
    var pos: int
    var ccst: nat

    ghost predicate Valid()
      reads this
    {
      -1 <= pos <= |encstr|
    }

    constructor (ccsc: Encoding, str: seq<byte>)
      ensures Valid() && this.ccsc == ccsc && encstr == str && pos == -1 && ccst == 0
    {
      this.ccsc, encstr, pos, ccst := ccsc, str, -1, 0;
    }

    /** `encoded_nextchar`: the terminator is returned again and again. */
    method NextChar() returns (chr: byte)
      requires Valid()
      modifies this
      ensures Valid()
      ensures old(pos) == |encstr| || (old(pos) >= 0 && encstr[old(pos)] == NUL) ==>
                chr == NUL && pos == old(pos) && ccst == old(ccst)
      ensures old(pos) < |encstr| && (old(pos) < 0 || encstr[old(pos)] != NUL) ==>
                pos == old(pos) + 1 && chr == At(encstr, pos) && ccst == Stat(ccsc, old(ccst), chr)
    {
      if pos >= 0 && At(encstr, pos) == NUL {
        return NUL;
      }
      pos := pos + 1;
      chr := At(encstr, pos);
      ccst := Stat(ccsc, ccst, chr);
    }

    /** `encoded_byte_check` */
    method ByteCheck(abspos: nat) returns (chr: byte)
      requires abspos <= |encstr|
      modifies this
      ensures Valid() && pos == abspos && chr == At(encstr, abspos) && ccst == Stat(ccsc, old(ccst), chr)
    {
      pos := abspos;
      chr := At(encstr, pos);
      ccst := Stat(ccsc, ccst, chr);
    }

    /** `MBCS_NON_ASCII` */
    predicate IsNonAscii()
      requires Valid() && pos >= 0
      reads this
    {
      ccst != 0 || At(encstr, pos) >= 0x80
    }
  }

  // ---------------------------------------------------------------- well-formed characters

  type Ch = seq<byte>

  predicate IsAscii(ch: Ch) {
    |ch| == 1 && ch[0] < 0x80
  }

  predicate AllIn(s: seq<byte>, lo: int, hi: int) {
    forall i :: 0 <= i < |s| ==> lo <= s[i] <= hi
  }

  /** The characters of an encoding. UTF-8 is the scheme of section 2 of RFC 2279. */
  predicate WellFormed(enc: Encoding, ch: Ch) {
    || (IsAscii(ch) && ch[0] != NUL)
    || (|ch| >= 1 && ch[0] >= 0x80 && WellFormedHigh(enc, ch))
  }

  predicate WellFormedHigh(enc: Encoding, ch: Ch)
    requires |ch| >= 1 && ch[0] >= 0x80
  {
    match enc
    case SingleByte => |ch| == 1
    case Utf8 => 0xc0 <= ch[0] <= 0xfd && |ch| == Utf8Length(ch[0]) && AllIn(ch[1..], 0x80, 0xbf)
    case Sjis => (|ch| == 1 && 0xa1 <= ch[0] <= 0xdf) || IsShiftJisPair(ch)
    case ShiftJis2004 => (|ch| == 1 && 0xa1 <= ch[0] <= 0xdf) || IsShiftJisPair(ch)
    case Big5 => |ch| == 2 && 0xa1 <= ch[0] <= 0xf9 && (0x40 <= ch[1] <= 0x7e || 0xa1 <= ch[1] <= 0xfe)
    case Gbk => |ch| == 2 && 0x81 <= ch[0] <= 0xfe && 0x40 <= ch[1] <= 0xfe && ch[1] != 0x7f
    case Uhc => |ch| == 2 && 0x81 <= ch[0] <= 0xfe && 0x41 <= ch[1] <= 0xfe
    case EucJp => IsEucJapanese(ch)
    case EucJis2004 => IsEucJapanese(ch)
    case EucCn => |ch| == 2 && AllIn(ch, 0xa1, 0xfe)
    case EucKr => |ch| == 2 && AllIn(ch, 0xa1, 0xfe)
    case EucTw =>
      || (|ch| == 2 && AllIn(ch, 0xa1, 0xfe))
      || (|ch| == 4 && ch[0] == 0x8e && AllIn(ch[1..], 0xa1, 0xfe))
    case Gb18030 =>
      || (|ch| == 2 && 0x81 <= ch[0] <= 0xfe && 0x40 <= ch[1] <= 0xfe && ch[1] != 0x7f)
      || (|ch| == 4 && 0x81 <= ch[0] <= 0xfe && 0x30 <= ch[1] <= 0x39 && 0x81 <= ch[2] <= 0xfe && 0x30 <= ch[3] <= 0x39)
    case Johab => |ch| == 2 && 0x84 <= ch[0] <= 0xf9 && (0x31 <= ch[1] <= 0x7e || 0x91 <= ch[1] <= 0xfe)
  }

  function Utf8Length(lead: byte): nat {
    if lead < 0x80 then 1
    else if lead < 0xc0 then 1
    else if lead < 0xe0 then 2
    else if lead < 0xf0 then 3
    else if lead < 0xf8 then 4
    else if lead < 0xfc then 5
    else 6
  }

  predicate IsShiftJisPair(ch: Ch) {
    && |ch| == 2
    && (0x81 <= ch[0] <= 0x9f || 0xe0 <= ch[0] <= 0xfc)
    && (0x40 <= ch[1] <= 0x7e || 0x80 <= ch[1] <= 0xfc)
  }

  predicate IsEucJapanese(ch: Ch) {
    || (|ch| == 2 && AllIn(ch, 0xa1, 0xfe))
    || (|ch| == 2 && ch[0] == 0x8e && 0xa1 <= ch[1] <= 0xdf)
    || (|ch| == 3 && ch[0] == 0x8f && AllIn(ch[1..], 0xa1, 0xfe))
  }

  predicate AllWellFormed(enc: Encoding, chars: seq<Ch>) {
    forall k :: 0 <= k < |chars| ==> WellFormed(enc, chars[k])
  }

  // ---------------------------------------------------------------- segmentation

  /** State 1 is left behind by the last byte of a multibyte character, 0 by an ASCII character. */
  predicate AtBoundary(stat: nat) { stat <= 1 }

  /** A well-formed character read from a boundary: every byte of it gets the right flag, and
      its last byte is a boundary again. */
  ghost predicate Passes(enc: Encoding, stat: nat, ch: Ch)
  {
    && AtBoundary(StatRun(enc, stat, ch))
    && forall i :: 0 <= i < |ch| ==> (NonAscii(enc, StatRun(enc, stat, ch[..i]), ch[i]) <==> !IsAscii(ch))
  }

  lemma {:induction false} CharPasses(enc: Encoding, stat: nat, ch: Ch)
    requires AtBoundary(stat) && enc != Johab && WellFormed(enc, ch)
    ensures Passes(enc, stat, ch)
  {
    if |ch| == 1 {
      assert ch[..0] == [] && ch[1..] == [];
    } else if |ch| == 2 {
      PairStates(enc, stat, ch);
    } else {
      LongStates(enc, stat, ch);
    }
  }

  lemma PairStates(enc: Encoding, stat: nat, ch: Ch)
    requires AtBoundary(stat) && enc != Johab && WellFormed(enc, ch) && |ch| == 2
    ensures Passes(enc, stat, ch)
  {
    assert ch[..0] == [] && ch[..2] == ch;
    StatRunLast(enc, stat, ch, 0);
    StatRunLast(enc, stat, ch, 1);
  }

  lemma {:induction false} StatRunLast(enc: Encoding, stat: nat, s: seq<byte>, i: nat)
    requires i < |s|
    ensures StatRun(enc, stat, s[..i + 1]) == Stat(enc, StatRun(enc, stat, s[..i]), s[i])
  {
    assert s[..i + 1] == s[..i] + [s[i]];
    StatRunAppend(enc, stat, s[..i], [s[i]]);
    assert [s[i]][1..] == [];
  }

  lemma LongStates(enc: Encoding, stat: nat, ch: Ch)
    requires AtBoundary(stat) && enc != Johab && WellFormed(enc, ch) && |ch| > 2
    ensures Passes(enc, stat, ch)
  {
    forall i | 0 <= i < |ch|
      ensures StatRun(enc, stat, ch[..i + 1]) == Stat(enc, StatRun(enc, stat, ch[..i]), ch[i])
    {
      StatRunLast(enc, stat, ch, i);
    }
    assert ch[..0] == [] && ch[..|ch|] == ch;
    if enc == Utf8 {
      Utf8Countdown(stat, ch, |ch|);
      assert forall i :: 0 <= i < |ch| ==> ch[i] >= 0x80 by {
        assert forall i :: 1 <= i < |ch| ==> ch[i] == ch[1..][i - 1];
      }
    } else if |ch| == 3 {
      assert ch[1] == ch[1..][0] && ch[2] == ch[1..][1];
      assert StatRun(enc, stat, ch[..1]) == 3;
      assert StatRun(enc, stat, ch[..2]) == 2;
      assert StatRun(enc, stat, ch[..3]) == 1;
    } else {
      assert |ch| == 4;
      if enc == EucTw {
        assert ch[1] == ch[1..][0] && ch[2] == ch[1..][1] && ch[3] == ch[1..][2];
      }
      assert StatRun(enc, stat, ch[..1]) != 0;
      assert StatRun(enc, stat, ch[..2]) != 0;
      assert StatRun(enc, stat, ch[..3]) != 0;
      assert StatRun(enc, stat, ch[..4]) == 1;
    }
  }

  lemma {:induction false} Utf8Countdown(stat: nat, ch: Ch, k: nat)
    requires AtBoundary(stat) && WellFormed(Utf8, ch) && |ch| >= 2 && 1 <= k <= |ch|
    ensures StatRun(Utf8, stat, ch[..k]) == |ch| + 1 - k
  {
    StatRunLast(Utf8, stat, ch, k - 1);
    if k == 1 {
      assert ch[..0] == [];
    } else {
      Utf8Countdown(stat, ch, k - 1);
      assert ch[k - 1] == ch[1..][k - 2];
    }
  }

  /** Every byte of `s`, read from `stat`, is flagged non-ASCII. */
  predicate AllNonAscii(enc: Encoding, stat: nat, s: seq<byte>)
    decreases s
  {
    s == [] || (NonAscii(enc, stat, s[0]) && AllNonAscii(enc, Stat(enc, stat, s[0]), s[1..]))
  }

  lemma {:induction false} AllNonAsciiFrom(enc: Encoding, stat: nat, s: seq<byte>)
    requires forall i :: 0 <= i < |s| ==> NonAscii(enc, StatRun(enc, stat, s[..i]), s[i])
    ensures AllNonAscii(enc, stat, s)
    decreases s
  {
    if s != [] {
      assert s[..0] == [];
      var st := Stat(enc, stat, s[0]);
      forall i | 0 <= i < |s[1..]|
        ensures NonAscii(enc, StatRun(enc, st, s[1..][..i]), s[1..][i])
      {
        assert s[..i + 1][1..] == s[1..][..i];
      }
      AllNonAsciiFrom(enc, st, s[1..]);
    }
  }

  lemma HighCharPasses(enc: Encoding, stat: nat, ch: Ch)
    requires AtBoundary(stat) && enc != Johab && WellFormed(enc, ch) && !IsAscii(ch)
    ensures AllNonAscii(enc, stat, ch) && AtBoundary(StatRun(enc, stat, ch))
  {
    CharPasses(enc, stat, ch);
    AllNonAsciiFrom(enc, stat, ch);
  }

  lemma AsciiCharPasses(enc: Encoding, stat: nat, c: byte)
    requires AtBoundary(stat) && enc != Johab && 0 < c < 0x80
    ensures Stat(enc, stat, c) == 0
  {
  }

  lemma {:induction false} TextPasses(enc: Encoding, stat: nat, chars: seq<Ch>)
    requires AtBoundary(stat) && enc != Johab && AllWellFormed(enc, chars)
    ensures AtBoundary(StatRun(enc, stat, Flat(chars)))
    decreases chars
  {
    if chars != [] {
      CharPasses(enc, stat, chars[0]);
      StatRunAppend(enc, stat, chars[0], Flat(chars[1..]));
      TextPasses(enc, StatRun(enc, stat, chars[0]), chars[1..]);
    }
  }

  /** Segmentation: in every text of well-formed characters, whatever precedes, byte `i` of
      character `k` is flagged non-ASCII exactly when that character is not an ASCII character. */
  lemma SegmentationExact(enc: Encoding, chars: seq<Ch>, k: nat, i: nat)
    requires enc != Johab && AllWellFormed(enc, chars) && k < |chars| && i < |chars[k]|
    ensures var p := |Flat(chars[..k])| + i;
            && p < |Flat(chars)| && Flat(chars)[p] == chars[k][i]
            && (NonAscii(enc, StatRun(enc, 0, Flat(chars)[..p]), Flat(chars)[p]) <==> !IsAscii(chars[k]))
  {
    var before, ch, text := Flat(chars[..k]), chars[k], Flat(chars);
    assert chars == chars[..k] + ([ch] + chars[k + 1..]);
    FlatAppend(chars[..k], [ch] + chars[k + 1..]);
    assert ([ch] + chars[k + 1..])[1..] == chars[k + 1..];
    assert text == before + (ch + Flat(chars[k + 1..]));
    var p := |before| + i;
    assert text[..p] == before + ch[..i];
    TextPasses(enc, 0, chars[..k]);
    CharPasses(enc, StatRun(enc, 0, before), ch);
    StatRunAppend(enc, 0, before, ch[..i]);
  }

  /** Where `pg_CS_stat` asks for a lead byte above 0xa0 (BIG5, JOHAB, EUC_CN, EUC_KR), a two-byte
      character is segmented correctly just when its lead byte is above 0xa0 or its trail byte lies
      in 0x80..0xa0; the lower leads that BIG5 and JOHAB also have are not recognised. */
  lemma HighLeadNeeded(enc: Encoding, stat: nat, lead: byte, trail: byte)
    requires enc in {Big5, Johab, EucCn, EucKr} && AtBoundary(stat) && lead >= 0x80 && trail != NUL
    ensures Passes(enc, stat, [lead, trail]) <==> lead > 0xa0 || 0x80 <= trail <= 0xa0
  {
    var ch := [lead, trail];
    assert ch[..0] == [] && ch[..2] == ch;
    StatRunLast(enc, stat, ch, 0);
    StatRunLast(enc, stat, ch, 1);
    assert Passes(enc, stat, ch) ==> NonAscii(enc, StatRun(enc, stat, ch[..1]), ch[1]);
  }

  // ---------------------------------------------------------------- the server's view of the same text

  /** Length of the first character as the server finds it from the lead byte. */
  function CharLength(enc: Encoding, s: seq<byte>): nat
    requires s != []
  {
    if s[0] < 0x80 then 1 else
    match enc
    case SingleByte => 1
    case Utf8 => Utf8Length(s[0])
    case Sjis => if 0xa1 <= s[0] <= 0xdf then 1 else 2
    case ShiftJis2004 => if 0xa1 <= s[0] <= 0xdf then 1 else 2
    case EucJp => if s[0] == 0x8f then 3 else 2
    case EucJis2004 => if s[0] == 0x8f then 3 else 2
    case EucTw => if s[0] == 0x8e then 4 else if s[0] == 0x8f then 3 else 2
    case Gb18030 => if |s| >= 2 && 0x30 <= s[1] <= 0x39 then 4 else 2
    case _ => 2
  }

  function Segment(enc: Encoding, s: seq<byte>): seq<Ch>
    decreases |s|
  {
    if s == [] then []
    else
      var n := CharLength(enc, s);
      if n == 0 || n >= |s| then [s] else [s[..n]] + Segment(enc, s[n..])
  }

  /** The server's segmentation recovers the characters a text was made of. */
  lemma {:induction false} SegmentFlat(enc: Encoding, chars: seq<Ch>)
    requires AllWellFormed(enc, chars)
    ensures Segment(enc, Flat(chars)) == chars
  {
    if chars != [] {
      var s := Flat(chars);
      assert CharLength(enc, s) == |chars[0]|;
      assert s[..|chars[0]|] == chars[0];
      assert s[|chars[0]|..] == Flat(chars[1..]);
      SegmentFlat(enc, chars[1..]);
      if chars[1..] == [] {
        assert s == chars[0] && chars == [chars[0]];
      } else {
        assert |Flat(chars[1..])| >= |chars[1]|;
      }
    }
  }
}
