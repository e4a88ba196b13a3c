/**
 Bytes and NUL-terminated strings of the C code. A C string is the sequence of its bytes
 without the terminator; reading one position past the end gives the terminator.
 Character classes are those of the "C" locale.
 */
module CBytes {

  type byte = b: int | 0 <= b < 256

  const NUL: byte := 0
  const TAB: byte := 9
  const LINEFEED: byte := 10
  const CARRIAGE_RETURN: byte := 13
  const SPACE: byte := 32
  const DQUOTE: byte := 34
  const DOLLAR: byte := 36
  const PERCENT: byte := 37
  const QUOTE: byte := 39
  const LPAREN: byte := 40
  const RPAREN: byte := 41
  const STAR: byte := 42
  const PLUS: byte := 43
  const COMMA: byte := 44
  const MINUS: byte := 45
  const DOT: byte := 46
  const SLASH: byte := 47
  const ZERO: byte := 48
  const SEMICOLON: byte := 59
  const EQUALS: byte := 61
  const QUESTION: byte := 63
  const LITERAL_EXT: byte := 69  // 'E'
  const BACKSLASH: byte := 92
  const UNDERSCORE: byte := 95
  const LBRACE: byte := 123
  const RBRACE: byte := 125

  datatype Option<+T> = None | Some(value: T)

  predicate IsSpace(b: byte) { b == SPACE || 9 <= b <= 13 }

  predicate IsDigit(b: byte) { 48 <= b <= 57 }

  predicate IsUpper(b: byte) { 65 <= b <= 90 }

  predicate IsLower(b: byte) { 97 <= b <= 122 }

  predicate IsAlpha(b: byte) { IsUpper(b) || IsLower(b) }

  predicate IsAlnum(b: byte) { IsAlpha(b) || IsDigit(b) }

  function ToLower(b: byte): byte { if IsUpper(b) then b + 32 else b }

  /** A string that can be NUL-terminated. */
  predicate NulFree(s: seq<byte>) { forall i :: 0 <= i < |s| ==> s[i] != NUL }

  /** `s[i]` of a C string, the terminator included. */
  function At(s: seq<byte>, i: nat): byte
    requires i <= |s|
  {
    if i < |s| then s[i] else NUL
  }

  predicate IsAsciiText(s: seq<byte>) { forall i :: 0 <= i < |s| ==> 0 < s[i] < 0x80 }

  /** Concatenation of a sequence of strings. */
  function Flat(parts: seq<seq<byte>>): seq<byte> {
    if parts == [] then [] else parts[0] + Flat(parts[1..])
  }

  lemma {:induction false} FlatAppend(a: seq<seq<byte>>, b: seq<seq<byte>>)
    ensures Flat(a + b) == Flat(a) + Flat(b)
  {
    if a == [] {
      assert a + b == b;
    } else {
      assert (a + b)[1..] == a[1..] + b;
      FlatAppend(a[1..], b);
    }
  }

  lemma Associative(a: seq<byte>, b: seq<byte>, c: seq<byte>)
    ensures a + (b + c) == (a + b) + c
  {
  }

  predicate AllDigits(s: seq<byte>) { forall i :: 0 <= i < |s| ==> IsDigit(s[i]) }

  /** Past the white space at `p`. */
  function SkipSpace(s: seq<byte>, p: nat): (q: nat)
    requires p <= |s|
    ensures p <= q <= |s| && (q < |s| ==> !IsSpace(s[q]))
    decreases |s| - p
  {
    if p < |s| && IsSpace(s[p]) then SkipSpace(s, p + 1) else p
  }

  /** `n` followed by the digits at the start of `s`. */
  function ReadNumber(s: seq<byte>, n: nat): nat {
    if s == [] || !IsDigit(s[0]) then n else ReadNumber(s[1..], 10 * n + (s[0] - 48))
  }

  lemma {:induction false} ReadNumberAppend(a: seq<byte>, b: seq<byte>, n: nat)
    requires AllDigits(a)
    ensures ReadNumber(a + b, n) == ReadNumber(b, ReadNumber(a, n))
  {
    if a == [] {
      assert a + b == b;
    } else {
      assert (a + b)[1..] == a[1..] + b;
      ReadNumberAppend(a[1..], b, 10 * n + (a[0] - 48));
    }
  }

  /** `atoi` */
  function Atoi(s: seq<byte>): int {
    var p := SkipSpace(s, 0);
    if p < |s| && s[p] == MINUS then 0 - ReadNumber(s[p + 1..], 0)
    else if p < |s| && s[p] == PLUS then ReadNumber(s[p + 1..], 0)
    else ReadNumber(s[p..], 0)
  }

  /** Decimal digits of `n`, at least `w` of them. */
  function MinDigits(n: nat, w: nat): (d: seq<byte>)
    ensures |d| >= w && d != []
    decreases n + w
  {
    if n < 10 && w <= 1 then [48 + n] else MinDigits(n / 10, if w > 0 then w - 1 else 0) + [48 + n % 10]
  }

  /** The `%.wd` conversion. */
  function Printed(n: int, w: nat): seq<byte> { if n < 0 then [MINUS] + MinDigits(-n, w) else MinDigits(n, w) }
}
