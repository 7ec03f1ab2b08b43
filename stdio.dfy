/** The kernel library's `vsprintf` and `sprintf`: the format is copied to the
    output buffer, `%d` writing an `int` argument in decimal and `%s` a string
    argument; any other directive panics, and the output is NUL-terminated.
    C strings are modelled by their characters before the terminator. */
module Stdio {
  import opened CInt

  /** A variadic argument, as `va_arg` reads it. */
  datatype Arg = IntArg(i: int) | StrArg(s: string)

  /** No character is the terminator. */
  predicate NoNul(s: string) {
    forall k :: 0 <= k < |s| ==> s[k] != '\0'
  }

  /** What the caller's types guarantee: an `int` argument fits 32 bits and a
      string argument is a C string. */
  predicate WellTyped(args: seq<Arg>) {
    forall k :: 0 <= k < |args| ==>
      match args[k]
      case IntArg(i) => IsInt32(i)
      case StrArg(s) => NoNul(s)
  }

  /** The characters `%d` writes for `num`. The digit loop stops once the
      quotient is no longer positive, so a negative number gets one round only:
      the single character `'0' + num % 10`, with C's remainder. */
  function DecText(num: int): (s: string)
    ensures |s| > 0 && NoNul(s)
  {
    if num < 0 then [('0' as int + CRem(num, 10)) as char] else DecimalText(num)
  }

  /** `s` backwards. */
  function Rev(s: string): (r: string)
    ensures |r| == |s|
  {
    seq(|s|, k requires 0 <= k < |s| => s[|s| - 1 - k])
  }

  /** What `vsprintf` makes of `fmt[i..]` with the arguments from `args[j]` on:
      the characters it writes, and how it ends. */
  datatype Rendered = Rendered(text: string, end: Outcome<nat>)

  /** `t` written before whatever `r` writes. */
  function Then(t: string, r: Rendered): Rendered {
    Rendered(t + r.text, r.end)
  }

  /** The format walk. It ends `Done(j)` at the terminator with `j` arguments
      read, `Aborted` at a directive other than `%d` and `%s` (a `%` at the end
      of the format included), and `Undefined` where `va_arg` would read a
      missing argument or one of another type. */
  function Render(fmt: string, args: seq<Arg>, i: nat, j: nat): Rendered
    requires i <= |fmt|
    decreases |fmt| - i
  {
    if i == |fmt| then Rendered([], Done(j))
    else if fmt[i] != '%' then Then([fmt[i]], Render(fmt, args, i + 1, j))
    else if i + 1 == |fmt| then Rendered([], Aborted)
    else if fmt[i + 1] == 'd' then
      if j < |args| && args[j].IntArg? then Then(DecText(args[j].i), Render(fmt, args, i + 2, j + 1))
      else Rendered([], Undefined)
    else if fmt[i + 1] == 's' then
      if j < |args| && args[j].StrArg? then Then(args[j].s, Render(fmt, args, i + 2, j + 1))
      else Rendered([], Undefined)
    else Rendered([], Aborted)
  }

  /** `strlen(&s[from])`: the characters from `from` up to the next terminator. */
  function StrLen(s: seq<char>, from: nat): (n: nat)
    requires exists k :: from <= k < |s| && s[k] == '\0'
    ensures from + n < |s| && s[from + n] == '\0'
    ensures forall k :: from <= k < from + n ==> s[k] != '\0'
    decreases |s| - from
  {
    if s[from] == '\0' then 0
    else
      var k :| from <= k < |s| && s[k] == '\0';
      1 + StrLen(s, from + 1)
  }

  /** The first half of the `%d` case: the digits go into a fresh `tmp` buffer
      least significant first, in a do-while loop whose first round is unrolled. */
  method FillDigits(num: int) returns (tmp: array<char>, p: nat)
    requires IsInt32(num)
    ensures fresh(tmp) && tmp.Length == 20 && p <= 20
    ensures Rev(tmp[..p]) == DecText(num)
  {
    DecTextShort(num);
    ghost var want := DecText(num);
    tmp := new char[20];
    var n := num;
    tmp[0] := ('0' as int + CRem(n, 10)) as char;
    p := 1;
    assert Rev(tmp[..1]) == [tmp[0]];
    n := CDiv(n, 10);
    FirstDigit(num);
    while n > 0
      invariant 1 <= p <= |want|
      invariant Pending(n) + Rev(tmp[..p]) == want
      decreases n
    {
      ghost var done := tmp[..p];
      NextDigit(n);
      tmp[p] := ('0' as int + CRem(n, 10)) as char;
      assert tmp[..p + 1] == done + [tmp[p]];
      RevSnoc(done, tmp[p]);
      p := p + 1;
      n := CDiv(n, 10);
    }
  }

  /** The `%d` case: the digits are copied out of `tmp` backwards. */
  method WriteDec(out: array<char>, o: nat, num: int) returns (o': nat)
    requires IsInt32(num) && o + |DecText(num)| <= out.Length
    modifies out
    ensures o' == o + |DecText(num)|
    ensures out[..o'] == old(out[..o]) + DecText(num)
    ensures forall k :: o' <= k < out.Length ==> out[k] == old(out[k])
  {
    var tmp, p := FillDigits(num);
    ghost var digits := Rev(tmp[..p]);
    ghost var n := p;
    o' := o;
    while p > 0
      invariant 0 <= p <= n && o' == o + n - p
      invariant digits == Rev(tmp[..n])
      invariant out[..o'] == old(out[..o]) + digits[..n - p]
      invariant forall k :: o' <= k < out.Length ==> out[k] == old(out[k])
    {
      p := p - 1;
      out[o'] := tmp[p];
      o' := o' + 1;
      assert digits[n - p - 1] == tmp[p];
      assert digits[..n - p] == digits[..n - p - 1] + [tmp[p]];
    }
    assert digits[..n] == digits;
  }

  /** The `%s` case: characters are copied up to the argument's terminator. */
  method WriteStr(out: array<char>, o: nat, s: string) returns (o': nat)
    requires NoNul(s) && o + |s| <= out.Length
    modifies out
    ensures o' == o + |s|
    ensures out[..o'] == old(out[..o]) + s
    ensures forall k :: o' <= k < out.Length ==> out[k] == old(out[k])
  {
    var cs := s + ['\0'];
    var k := 0;
    o' := o;
    while cs[k] != '\0'
      invariant 0 <= k <= |s| && o' == o + k
      invariant out[..o'] == old(out[..o]) + s[..k]
      invariant forall m :: o' <= m < out.Length ==> out[m] == old(out[m])
      decreases |s| - k
    {
      out[o'] := cs[k];
      o' := o' + 1;
      k := k + 1;
      assert s[..k] == s[..k - 1] + [s[k - 1]];
    }
    assert k == |s| && s[..k] == s;
  }

  /** `vsprintf(out, fmt, ap)`: the rendered text is written to `out` and, when
      the format ends, the terminator after it; the rest of the buffer is
      untouched. The result is `strlen` taken at the terminator, which is 0. */
  method Vsprintf(out: array<char>, fmt: string, args: seq<Arg>) returns (r: Outcome<int>)
    requires NoNul(fmt) && WellTyped(args)
    requires |Render(fmt, args, 0, 0).text| < out.Length
    modifies out
    ensures var R := Render(fmt, args, 0, 0);
      && out[..|R.text|] == R.text
      && (R.end.Done? ==> out[|R.text|] == '\0' && r == Done(0))
      && (R.end.Aborted? ==> r == Aborted)
      && (R.end.Undefined? ==> r == Undefined)
      && forall k :: |R.text| + (if R.end.Done? then 1 else 0) <= k < out.Length ==> out[k] == old(out[k])
  {
    var f := fmt + ['\0'];
    var i: nat, j: nat, o: nat := 0, 0, 0;
    while f[i] != '\0'
      invariant i <= |fmt| && j <= |args| && o < out.Length
      invariant Then(out[..o], Render(fmt, args, i, j)) == Render(fmt, args, 0, 0)
      invariant forall k :: o <= k < out.Length ==> out[k] == old(out[k])
      decreases |fmt| - i
    {
      ghost var at, before := i, out[..o];
      assert f[i] == fmt[i];
      if f[i] == '%' {
        i := i + 1;
        assert i < |fmt| ==> f[i] == fmt[i];
        if f[i] == 'd' {
          if !(j < |args| && args[j].IntArg?) {
            assert Render(fmt, args, at, j) == Rendered([], Undefined);
            return Undefined;
          }
          o := WriteDec(out, o, args[j].i);
          RenderStep(before, DecText(args[j].i), Render(fmt, args, at + 2, j + 1));
          i, j := i + 1, j + 1;
        } else if f[i] == 's' {
          if !(j < |args| && args[j].StrArg?) {
            assert Render(fmt, args, at, j) == Rendered([], Undefined);
            return Undefined;
          }
          o := WriteStr(out, o, args[j].s);
          RenderStep(before, args[j].s, Render(fmt, args, at + 2, j + 1));
          i, j := i + 1, j + 1;
        } else {
          assert Render(fmt, args, at, j) == Rendered([], Aborted);
          return Aborted;
        }
      } else {
        out[o] := f[i];
        assert out[..o + 1] == before + [f[i]];
        RenderStep(before, [f[i]], Render(fmt, args, at + 1, j));
        o, i := o + 1, i + 1;
      }
    }
    out[o] := '\0';
    assert out[..o] == Render(fmt, args, 0, 0).text;
    r := Done(StrLen(out[..], o));
  }

  /** `sprintf(out, fmt, ...)`: `vsprintf`, then `strlen` of the whole output,
      which is the length of the rendered text. */
  method Sprintf(out: array<char>, fmt: string, args: seq<Arg>) returns (r: Outcome<int>)
    requires NoNul(fmt) && WellTyped(args)
    requires |Render(fmt, args, 0, 0).text| < out.Length
    modifies out
    ensures var R := Render(fmt, args, 0, 0);
      && out[..|R.text|] == R.text
      && (R.end.Done? ==> out[|R.text|] == '\0' && r == Done(|R.text|))
      && (R.end.Aborted? ==> r == Aborted)
      && (R.end.Undefined? ==> r == Undefined)
      && forall k :: |R.text| + (if R.end.Done? then 1 else 0) <= k < out.Length ==> out[k] == old(out[k])
  {
    r := Vsprintf(out, fmt, args);
    if r.Done? {
      var R := Render(fmt, args, 0, 0);
      RenderNoNul(fmt, args, 0, 0);
      assert out[..][|R.text|] == '\0';
      r := Done(StrLen(out[..], 0));
      assert forall k :: 0 <= k < |R.text| ==> out[..][k] == R.text[k];
    }
  }

  // ================================================================ properties

  /** The digits of `n` the loop has still to produce. */
  function Pending(n: int): string {
    if n > 0 then DecimalText(n) else []
  }

  /** The first round of the digit loop. */
  lemma FirstDigit(num: int)
    ensures Pending(CDiv(num, 10)) + [('0' as int + CRem(num, 10)) as char] == DecText(num)
  {
    if num >= 0 {
      CDivAgreesOnNaturals(num, 10);
    } else {
      assert CDiv(num, 10) <= 0;
    }
  }

  /** A later round of the digit loop takes the last pending digit. */
  lemma NextDigit(n: int)
    requires n > 0
    ensures Pending(n) == Pending(CDiv(n, 10)) + [('0' as int + CRem(n, 10)) as char]
  {
    CDivAgreesOnNaturals(n, 10);
  }

  /** Reversing puts the last character first. */
  lemma RevSnoc(s: string, c: char)
    ensures Rev(s + [c]) == [c] + Rev(s)
  {
  }

  /** Writing `t` and then `u` before `r`. */
  lemma RenderStep(t: string, u: string, r: Rendered)
    ensures Then(t + u, r) == Then(t, Then(u, r))
  {
    assert t + u + r.text == t + (u + r.text);
  }

  /** An `int` has at most ten decimal digits. */
  lemma DecTextShort(num: int)
    requires IsInt32(num)
    ensures |DecText(num)| <= 10
  {
    if num >= 0 {
      DecimalTextLength(num, 10);
    }
  }

  /** Powers of ten. */
  function Pow10(k: nat): (p: nat)
    ensures p > 0
  {
    if k == 0 then 1 else 10 * Pow10(k - 1)
  }

  /** A number below `10^k` has at most `k` digits. */
  lemma {:induction false} DecimalTextLength(n: nat, k: nat)
    requires 0 < k && n < Pow10(k)
    ensures |DecimalText(n)| <= k
  {
    if n >= 10 {
      assert k > 1;
      DecimalTextLength(n / 10, k - 1);
    }
  }

  /** The rendered text never holds a terminator, so `strlen` of the output is
      its length. */
  lemma {:induction false} RenderNoNul(fmt: string, args: seq<Arg>, i: nat, j: nat)
    requires NoNul(fmt) && WellTyped(args) && i <= |fmt|
    ensures NoNul(Render(fmt, args, i, j).text)
    decreases |fmt| - i
  {
    if i < |fmt| {
      if fmt[i] != '%' {
        RenderNoNul(fmt, args, i + 1, j);
      } else if i + 1 < |fmt| && (fmt[i + 1] == 'd' || fmt[i + 1] == 's') && j < |args| {
        RenderNoNul(fmt, args, i + 2, j + 1);
      }
    }
  }

  /** A format without `%` is copied unchanged and reads no argument. */
  lemma {:induction false} RenderLiteral(fmt: string, args: seq<Arg>, i: nat, j: nat)
    requires i <= |fmt| && forall k :: i <= k < |fmt| ==> fmt[k] != '%'
    ensures Render(fmt, args, i, j) == Rendered(fmt[i..], Done(j))
    decreases |fmt| - i
  {
    if i < |fmt| {
      RenderLiteral(fmt, args, i + 1, j);
      assert fmt[i..] == [fmt[i]] + fmt[i + 1..];
    }
  }

  /** `%d` of a non-negative number writes its decimal numeral, which `atoi`
      reads back; 0 gives "0". */
  lemma DecTextRoundTrip(n: int)
    requires 0 <= n
    ensures Atoi(DecText(n)) == n
    ensures forall k :: 0 <= k < |DecText(n)| ==> IsDigit(DecText(n)[k])
    ensures n == 0 ==> DecText(n) == "0"
  {
    AtoiDecimalText(n);
  }

  /** `%d` of a negative number writes one character, never the number's
      numeral: -5 gives "+". */
  lemma NegativeDecAsWritten(n: int)
    requires n < 0
    ensures |DecText(n)| == 1 && DecText(n) != SignedText(n)
    ensures n == -5 ==> DecText(n) == "+"
  {
    assert |SignedText(n)| >= 2;
  }

  // ================================================================ corrected %d

  /** `%d` as intended: a minus sign for a negative number, then the digits of
      its magnitude. */
  function SignedText(n: int): (s: string)
    ensures |s| > 0 && NoNul(s)
  {
    (if n < 0 then "-" else "") + DecimalText(Abs(n))
  }

  /** Reading a signed decimal numeral: an optional minus sign, then digits. */
  function SignedValue(s: string): int
    requires s != [] && (s[0] == '-' || IsDigit(s[0]))
    requires forall k :: 1 <= k < |s| ==> IsDigit(s[k])
  {
    if s[0] == '-' then -(DecimalValue(s[1..]) as int) else DecimalValue(s)
  }

  /** The corrected `%d` text reads back as the number, negative or not. */
  lemma SignedRoundTrip(n: int)
    ensures var s := SignedText(n);
      && (s[0] == '-' || IsDigit(s[0]))
      && (forall k :: 1 <= k < |s| ==> IsDigit(s[k]))
      && SignedValue(s) == n
  {
    var s := SignedText(n);
    DecimalRoundTrip(Abs(n));
    if n < 0 {
      assert s[1..] == DecimalText(Abs(n));
    } else {
      assert s == DecimalText(n);
    }
  }

  /** The two agree on every non-negative number. */
  lemma SignedAgrees(n: int)
    requires 0 <= n
    ensures SignedText(n) == DecText(n)
  {
    assert "" + DecimalText(n) == DecimalText(n);
  }
}
