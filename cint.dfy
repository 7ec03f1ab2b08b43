/** C integer semantics and numeral text shared by the expression engine and the
    formatter: 32-bit `int` range, the wrap-around of a conversion to `int` or to
    a 32-bit unsigned address, C's truncating `/` and `%`, and the values that
    `atoi` and `strtol(.., 16)` give to the numeral texts the tokenizer produces. */
module CInt {

  /** How a C computation ends: with a value, with a failed `assert`/`panic`, or in
      behaviour the C standard leaves undefined (the model does not guess what follows). */
  datatype Outcome<+T> = Done(value: T) | Aborted | Undefined

  const IntMin: int := -0x8000_0000
  const IntMax: int := 0x7fff_ffff
  const LongMax: int := 0x7fff_ffff_ffff_ffff
  const TwoTo32: int := 0x1_0000_0000

  predicate IsInt32(x: int) {
    IntMin <= x <= IntMax
  }

  /** Conversion of a wider value to `int` (gcc: reduction modulo 2^32). */
  function ToInt32(x: int): (r: int)
    ensures IsInt32(r)
    ensures (x - r) % TwoTo32 == 0
    ensures IsInt32(x) ==> r == x
  {
    var m := x % TwoTo32;
    if m > IntMax then m - TwoTo32 else m
  }

  /** Conversion of an `int` to a 32-bit unsigned address (`vaddr_t`). */
  function ToUint32(x: int): (r: int)
    ensures 0 <= r < TwoTo32
    ensures (x - r) % TwoTo32 == 0
  {
    x % TwoTo32
  }

  function Abs(x: int): nat {
    if x < 0 then -x else x
  }

  /** C's `/`: the quotient truncated toward zero. */
  function CDiv(a: int, b: int): int
    requires b != 0
  {
    var m := Abs(a) / Abs(b);
    if (a < 0) == (b < 0) then m else -m
  }

  /** C's `%`: the remainder that goes with `CDiv`, carrying the sign of `a`. */
  function CRem(a: int, b: int): (r: int)
    requires b != 0
    ensures a == CDiv(a, b) * b + r
    ensures Abs(r) < Abs(b)
    ensures a >= 0 ==> r >= 0
    ensures a <= 0 ==> r <= 0
  {
    var r := Abs(a) % Abs(b);
    assert Abs(a) == (Abs(a) / Abs(b)) * Abs(b) + r;
    if a < 0 then -r else r
  }

  lemma CDivAgreesOnNaturals(a: nat, b: nat)
    requires b > 0
    ensures CDiv(a, b) == a / b && CRem(a, b) == a % b
  {
  }

  // ---------------------------------------------------------------- numerals

  predicate IsDigit(c: char) {
    '0' <= c <= '9'
  }

  predicate IsHexDigit(c: char) {
    IsDigit(c) || 'a' <= c <= 'f' || 'A' <= c <= 'F'
  }

  function DigitValue(c: char): nat
    requires IsDigit(c)
  {
    c as int - '0' as int
  }

  function HexDigitValue(c: char): (v: nat)
    requires IsHexDigit(c)
    ensures v < 16
  {
    if IsDigit(c) then c as int - '0' as int
    else if 'a' <= c <= 'f' then c as int - 'a' as int + 10
    else c as int - 'A' as int + 10
  }

  /** Length of the run of decimal digits at the start of `s`. */
  function DigitRun(s: string): (n: nat)
    ensures n <= |s|
    ensures forall i :: 0 <= i < n ==> IsDigit(s[i])
    ensures n < |s| ==> !IsDigit(s[n])
  {
    if s != [] && IsDigit(s[0]) then 1 + DigitRun(s[1..]) else 0
  }

  /** Length of the run of hexadecimal digits at the start of `s`. */
  function HexRun(s: string): (n: nat)
    ensures n <= |s|
    ensures forall i :: 0 <= i < n ==> IsHexDigit(s[i])
    ensures n < |s| ==> !IsHexDigit(s[n])
  {
    if s != [] && IsHexDigit(s[0]) then 1 + HexRun(s[1..]) else 0
  }

  /** Value of a string of decimal digits, most significant first. */
  function DecimalValue(s: string): nat
    requires forall i :: 0 <= i < |s| ==> IsDigit(s[i])
  {
    if s == [] then 0 else 10 * DecimalValue(s[..|s| - 1]) + DigitValue(s[|s| - 1])
  }

  /** Value of a string of hexadecimal digits, most significant first. */
  function HexValue(s: string): nat
    requires forall i :: 0 <= i < |s| ==> IsHexDigit(s[i])
  {
    if s == [] then 0 else 16 * HexValue(s[..|s| - 1]) + HexDigitValue(s[|s| - 1])
  }

  /** The character of decimal digit `d`. */
  function DigitChar(d: nat): (c: char)
    requires d < 10
    ensures IsDigit(c) && DigitValue(c) == d
  {
    ('0' as int + d) as char
  }

  /** The decimal numeral of `n`, most significant digit first, without leading zeros. */
  function DecimalText(n: nat): (s: string)
    ensures |s| > 0 && forall i :: 0 <= i < |s| ==> IsDigit(s[i])
    ensures |s| > 1 ==> s[0] != '0'
    decreases n
  {
    (if n < 10 then [] else DecimalText(n / 10)) + [DigitChar(n % 10)]
  }

  lemma {:induction false} DecimalRoundTrip(n: nat)
    ensures DecimalValue(DecimalText(n)) == n
    decreases n
  {
    var s := DecimalText(n);
    assert s[..|s| - 1] == if n < 10 then [] else DecimalText(n / 10);
    if n >= 10 {
      DecimalRoundTrip(n / 10);
    }
  }

  /** `atoi` on a numeral text: the value of its leading digits. */
  function Atoi(s: string): nat {
    DecimalValue(s[..DigitRun(s)])
  }

  /** `atoi` reads back every numeral `DecimalText` writes. */
  lemma AtoiDecimalText(n: nat)
    ensures Atoi(DecimalText(n)) == n
  {
    var s := DecimalText(n);
    assert s[..DigitRun(s)] == s;
    DecimalRoundTrip(n);
  }

  /** The text `strtol(.., 16)` reads digits from: after a `0x` or `0X` prefix
      when there is one. */
  function HexBody(s: string): (d: string)
    ensures |d| <= |s|
  {
    if |s| >= 2 && s[0] == '0' && (s[1] == 'x' || s[1] == 'X') then s[2..] else s
  }

  /** `strtol(s, NULL, 16)` on a numeral text: the value of the hex digits after
      the optional prefix, or `LONG_MAX` when that value does not fit a `long`. */
  function StrtolHex(s: string): (v: int)
    ensures 0 <= v <= LongMax
    ensures var run := HexBody(s)[..HexRun(HexBody(s))];
      && (HexValue(run) <= LongMax ==> v == HexValue(run))
      && (HexValue(run) > LongMax ==> v == LongMax)
  {
    var digits := HexBody(s);
    var v := HexValue(digits[..HexRun(digits)]);
    if v > LongMax then LongMax else v
  }

  /** The character of hex digit `d`, lower case as the `%x` conversion writes it. */
  function HexDigitChar(d: nat): (c: char)
    requires d < 16
    ensures IsHexDigit(c) && HexDigitValue(c) == d
  {
    if d < 10 then ('0' as int + d) as char else ('a' as int + d - 10) as char
  }

  /** The hexadecimal numeral of `n`, most significant digit first, without
      leading zeros. */
  function HexText(n: nat): (s: string)
    ensures |s| > 0 && forall i :: 0 <= i < |s| ==> IsHexDigit(s[i])
    ensures |s| > 1 ==> s[0] != '0'
    decreases n
  {
    (if n < 16 then [] else HexText(n / 16)) + [HexDigitChar(n % 16)]
  }

  lemma {:induction false} HexRoundTrip(n: nat)
    ensures HexValue(HexText(n)) == n
    decreases n
  {
    var s := HexText(n);
    assert s[..|s| - 1] == if n < 16 then [] else HexText(n / 16);
    if n >= 16 {
      HexRoundTrip(n / 16);
    }
  }

  /** `strtol(.., 16)` reads back every `0x` numeral of a value within `long`. */
  lemma StrtolHexText(n: nat)
    requires n <= LongMax
    ensures StrtolHex("0x" + HexText(n)) == n
  {
    var s := "0x" + HexText(n);
    assert HexBody(s) == HexText(n);
    assert HexText(n)[..HexRun(HexText(n))] == HexText(n);
    HexRoundTrip(n);
  }
}
