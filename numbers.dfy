/**
 * Python `float(s)` on the decimal strings stored in a position table:
 * surrounding whitespace, an optional sign, digits with at most one '.'.
 */
module Numbers {
  import opened Wrappers
  import opened Text

  /** The ASCII whitespace Python's `float()` ignores around a number. */
  const Whitespace: set<char> := {' ', '\t', '\n', '\r', '\U{000B}', '\U{000C}'}

  predicate IsDigit(c: char)
  {
    '0' <= c <= '9'
  }

  predicate AllDigits(s: string)
  {
    forall i :: 0 <= i < |s| ==> IsDigit(s[i])
  }

  /** The value of a string of decimal digits, most significant first. */
  function DigitsValue(s: string): nat
    requires AllDigits(s)
  {
    if s == [] then 0
    else DigitsValue(s[..|s| - 1]) * 10 + (s[|s| - 1] as int - '0' as int)
  }

  function Pow10(n: nat): (r: nat)
    ensures r >= 1
  {
    if n == 0 then 1 else 10 * Pow10(n - 1)
  }

  /** Index of the first '.' in `s`, or |s| when there is none. */
  function DotIndex(s: string): (k: nat)
    ensures k <= |s|
    ensures forall i :: 0 <= i < k ==> s[i] != '.'
    ensures k < |s| ==> s[k] == '.'
  {
    if s == [] then 0
    else if s[0] == '.' then 0
    else 1 + DotIndex(s[1..])
  }

  /** `x` with the decimal point moved `n` places to the left. */
  function Shifted(x: real, n: nat): (r: real)
    ensures x >= 0.0 ==> r >= 0.0
  {
    if n == 0 then x else Shifted(x, n - 1) / 10.0
  }

  /** The value of `ip.fp` from the values of `ip` and `fp` and the length of `fp`. */
  function DecimalValue(whole: nat, fraction: nat, places: nat): real
  {
    whole as real + Shifted(fraction as real, places)
  }

  /**
   * An unsigned decimal literal: `ip` or `ip.fp`, where `ip` and `fp` are
   * digit strings and at least one of them is non-empty.
   */
  predicate IsUnsignedLiteral(s: string)
  {
    var k := DotIndex(s);
    if k == |s| then s != [] && AllDigits(s)
    else AllDigits(s[..k]) && AllDigits(s[k + 1..]) && |s| > 1
  }

  function ParseUnsigned(s: string): (r: Option<real>)
    ensures r.Some? <==> IsUnsignedLiteral(s)
    ensures r.Some? ==> r.value >= 0.0
  {
    var k := DotIndex(s);
    if k == |s| then
      if s != [] && AllDigits(s) then Some(DigitsValue(s) as real) else None
    else if AllDigits(s[..k]) && AllDigits(s[k + 1..]) && |s| > 1 then
      var fp := s[k + 1..];
      Some(DecimalValue(DigitsValue(s[..k]), DigitsValue(fp), |fp|))
    else None
  }

  /** A string starting with a sign is not an unsigned literal. */
  lemma SignedNotUnsigned(t: string)
    requires t != [] && (t[0] == '+' || t[0] == '-')
    ensures !IsUnsignedLiteral(t)
  {
    var k := DotIndex(t);
    assert !IsDigit(t[0]);
    if k == |t| {
      assert !AllDigits(t);
    } else {
      assert k != 0;
      assert t[..k][0] == t[0];
      assert !AllDigits(t[..k]);
    }
  }

  /** A literal `float()` accepts once whitespace is stripped: an optional sign, then an unsigned literal. */
  predicate IsFloatLiteral(t: string)
  {
    IsUnsignedLiteral(t) || (t != [] && (t[0] == '+' || t[0] == '-') && IsUnsignedLiteral(t[1..]))
  }

  /** A parse result with its value negated. */
  function Negated(r: Option<real>): Option<real>
  {
    match r
    case Some(v) => Some(-v)
    case None => None
  }

  /** A literal with its whitespace already stripped: an optional sign, then an unsigned literal. */
  function ParseLiteral(t: string): (r: Option<real>)
    ensures r.Some? <==> IsFloatLiteral(t)
    ensures r.Some? && r.value < 0.0 ==> t[0] == '-'
  {
    if t != [] && t[0] == '-' then
      SignedNotUnsigned(t);
      Negated(ParseUnsigned(t[1..]))
    else if t != [] && t[0] == '+' then
      SignedNotUnsigned(t);
      ParseUnsigned(t[1..])
    else ParseUnsigned(t)
  }

  /** `float(s)`: None where Python raises ValueError. */
  function ParseFloat(s: string): Option<real>
  {
    ParseLiteral(Strip(s, Whitespace))
  }

  /** `float()` accepts exactly the literals above once whitespace is stripped, and only '-' makes a negative. */
  lemma ParseFloatAccepts(s: string)
    ensures ParseFloat(s).Some? <==> IsFloatLiteral(Strip(s, Whitespace))
    ensures ParseFloat(s).Some? && ParseFloat(s).value < 0.0 ==> Strip(s, Whitespace)[0] == '-'
  {
  }

  /** Python `str(n)` for a natural number. */
  function DecimalString(n: nat): (s: string)
    ensures s != [] && AllDigits(s)
  {
    if n < 10 then [('0' as int + n) as char]
    else DecimalString(n / 10) + [('0' as int + n % 10) as char]
  }

  lemma {:induction false} DecimalStringValue(n: nat)
    ensures DigitsValue(DecimalString(n)) == n
  {
    var s := DecimalString(n);
    if n >= 10 {
      assert s[..|s| - 1] == DecimalString(n / 10);
      DecimalStringValue(n / 10);
    }
  }

  /** `float(str(n)) == n`: printing a whole number and parsing it back is exact. */
  lemma DecimalStringRoundTrip(n: nat)
    ensures ParseFloat(DecimalString(n)) == Some(n as real)
  {
    var s := DecimalString(n);
    assert s[0] != '-' && s[0] != '+' && IsDigit(s[0]);
    assert s[|s| - 1] !in Whitespace;
    StripNoop(s, Whitespace);
    var k := DotIndex(s);
    assert k < |s| ==> IsDigit(s[k]);
    DecimalStringValue(n);
  }

  /** Appending one digit to `x` shifted by `p` places plus `y`. */
  lemma ShiftDigit(x: int, p: int, y: int, d: int)
    ensures (x * p + y) * 10 + d == x * (10 * p) + (y * 10 + d)
  {
  }

  /** The digits of `a + b` are worth those of `a` shifted left by |b| places, plus those of `b`. */
  lemma {:induction false} DigitsValueConcat(a: string, b: string)
    requires AllDigits(a) && AllDigits(b)
    ensures AllDigits(a + b)
    ensures DigitsValue(a + b) == DigitsValue(a) * Pow10(|b|) + DigitsValue(b)
    decreases |b|
  {
    var ab := a + b;
    if b == [] {
      assert ab == a;
    } else {
      var init := b[..|b| - 1];
      var last := b[|b| - 1] as int - '0' as int;
      assert ab[..|ab| - 1] == a + init && ab[|ab| - 1] == b[|b| - 1];
      DigitsValueConcat(a, init);
      assert b[..|b| - 1] == init;
      ShiftDigit(DigitsValue(a), Pow10(|init|), DigitsValue(init), last);
    }
  }

  /** An unsigned literal starts and ends with a digit or its '.'. */
  lemma UnsignedEnds(u: string)
    requires IsUnsignedLiteral(u)
    ensures IsDigit(u[0]) || u[0] == '.'
    ensures IsDigit(u[|u| - 1]) || u[|u| - 1] == '.'
  {
    var k := DotIndex(u);
    if k < |u| {
      if k > 0 {
        assert u[..k][0] == u[0];
      }
      if k < |u| - 1 {
        var fp := u[k + 1..];
        assert fp[|fp| - 1] == u[|u| - 1];
      }
    }
  }

  /** Text that neither starts nor ends with whitespace is read as it stands. */
  lemma ParseTrimmed(s: string)
    requires s == [] || (s[0] !in Whitespace && s[|s| - 1] !in Whitespace)
    ensures ParseFloat(s) == ParseLiteral(s)
  {
    StripNoop(s, Whitespace);
  }

  /** An unsigned literal has no surrounding whitespace and no sign, so `float()` reads it as it stands. */
  lemma ParseUnsignedLiteral(u: string)
    requires IsUnsignedLiteral(u)
    ensures ParseFloat(u) == ParseUnsigned(u)
  {
    UnsignedEnds(u);
    ParseTrimmed(u);
  }

  /** The sign rule of `float()` on stripped text. */
  lemma {:induction false} SignedLiteralCore(u: string)
    requires IsUnsignedLiteral(u)
    ensures ParseLiteral("-" + u) == Negated(ParseUnsigned(u))
    ensures ParseLiteral("+" + u) == ParseUnsigned(u)
    ensures ParseLiteral(u) == ParseUnsigned(u)
  {
    var minus, plus := "-" + u, "+" + u;
    assert minus[1..] == u && plus[1..] == u;
    UnsignedEnds(u);
  }

  /** A sign before an unsigned literal leaves nothing for `strip` to remove. */
  lemma SignTrimmed(sign: string, u: string)
    requires sign == "-" || sign == "+"
    requires IsUnsignedLiteral(u)
    ensures ParseFloat(sign + u) == ParseLiteral(sign + u)
  {
    UnsignedEnds(u);
    var m := sign + u;
    assert m[|m| - 1] == u[|u| - 1];
    ParseTrimmed(m);
  }

  /** A leading '-' negates the value of an unsigned literal. */
  lemma NegatedUnsigned(u: string)
    requires IsUnsignedLiteral(u)
    ensures ParseFloat("-" + u) == Negated(ParseUnsigned(u))
  {
    SignedLiteralCore(u);
    SignTrimmed("-", u);
  }

  /** A leading '+' leaves the value of an unsigned literal unchanged. */
  lemma PlusUnsigned(u: string)
    requires IsUnsignedLiteral(u)
    ensures ParseFloat("+" + u) == ParseUnsigned(u)
  {
    SignedLiteralCore(u);
    SignTrimmed("+", u);
  }

  /** `float("-" + u) == -float(u)` for an unsigned literal `u`, which `float()` accepts. */
  lemma NegatedLiteral(u: string)
    requires IsUnsignedLiteral(u)
    ensures ParseFloat(u).Some?
    ensures ParseFloat("-" + u) == Negated(ParseFloat(u))
  {
    ParseUnsignedLiteral(u);
    NegatedUnsigned(u);
  }

  /** `float("+" + u) == float(u)` for an unsigned literal `u`. */
  lemma PlusLiteral(u: string)
    requires IsUnsignedLiteral(u)
    ensures ParseFloat("+" + u) == ParseFloat(u)
  {
    ParseUnsignedLiteral(u);
    PlusUnsigned(u);
  }

  /** Whitespace around a number does not change it. */
  lemma WhitespaceIgnored(p: string, s: string, q: string)
    requires AllIn(p, Whitespace) && AllIn(q, Whitespace)
    ensures ParseFloat(p + s + q) == ParseFloat(s)
  {
    StripWrapped(p, s, q, Whitespace);
    assert ParseFloat(p + s + q) == ParseLiteral(Strip(p + s + q, Whitespace));
  }

  /** Both halves of a digit string are digit strings. */
  lemma AllDigitsSplit(a: string, b: string)
    requires AllDigits(a + b)
    ensures AllDigits(a) && AllDigits(b)
  {
    assert forall i :: 0 <= i < |a| ==> a[i] == (a + b)[i];
    assert forall i :: 0 <= i < |b| ==> b[i] == (a + b)[|a| + i];
  }

  /** A non-empty digit string is an unsigned literal worth its digits. */
  lemma UnsignedDigits(n: string)
    requires AllDigits(n) && n != []
    ensures IsUnsignedLiteral(n) && ParseUnsigned(n) == Some(DigitsValue(n) as real)
  {
    var k := DotIndex(n);
    assert k < |n| ==> IsDigit(n[k]);
  }

  /** `float()` of a non-empty digit string is the whole number the digits spell. */
  lemma DigitsLiteral(n: string)
    requires AllDigits(n) && n != []
    ensures ParseFloat(n) == Some(DigitsValue(n) as real)
  {
    UnsignedDigits(n);
    ParseUnsignedLiteral(n);
  }

  /** The first '.' after a run of digits sits right after them. */
  lemma {:induction false} DotAfterDigits(ip: string, fp: string)
    requires AllDigits(ip)
    ensures DotIndex(ip + "." + fp) == |ip|
    decreases |ip|
  {
    var s := ip + "." + fp;
    if ip == [] {
      assert s[0] == '.';
    } else {
      assert s[0] == ip[0] && IsDigit(ip[0]);
      assert s[1..] == ip[1..] + "." + fp;
      DotAfterDigits(ip[1..], fp);
    }
  }

  /** The value of a literal whose first '.' is at `k`. */
  lemma FractionAt(s: string, k: nat)
    requires k == DotIndex(s) && k < |s| && AllDigits(s[..k]) && AllDigits(s[k + 1..]) && |s| > 1
    ensures ParseUnsigned(s) == Some(DecimalValue(DigitsValue(s[..k]), DigitsValue(s[k + 1..]), |s[k + 1..]|))
  {
  }

  /** `FractionAt` for `ip + "." + fp` once its first '.' is known to follow `ip`. */
  lemma FractionSplit(ip: string, fp: string)
    requires AllDigits(ip) && AllDigits(fp) && ip + fp != []
    requires |ip| == DotIndex(ip + "." + fp)
    ensures ParseUnsigned(ip + "." + fp) == Some(DecimalValue(DigitsValue((ip + "." + fp)[..|ip|]), DigitsValue((ip + "." + fp)[|ip| + 1..]), |(ip + "." + fp)[|ip| + 1..]|))
  {
    var s := ip + "." + fp;
    assert s[..|ip|] == ip && s[|ip| + 1..] == fp;
    FractionAt(s, |ip|);
  }

  /** `ip.fp` is an unsigned literal worth `ip` plus `fp` moved |fp| places right of the point. */
  lemma UnsignedFraction(ip: string, fp: string)
    requires AllDigits(ip) && AllDigits(fp) && ip + fp != []
    ensures IsUnsignedLiteral(ip + "." + fp)
    ensures ParseUnsigned(ip + "." + fp) == Some(DecimalValue(DigitsValue(ip), DigitsValue(fp), |fp|))
  {
    DotAfterDigits(ip, fp);
    var s := ip + "." + fp;
    assert s[..|ip|] == ip && s[|ip| + 1..] == fp;
    FractionSplit(ip, fp);
  }

  /** Shifting distributes over a sum. */
  lemma {:induction false} ShiftedSum(a: real, b: real, n: nat)
    ensures Shifted(a + b, n) == Shifted(a, n) + Shifted(b, n)
  {
    if n > 0 {
      ShiftedSum(a, b, n - 1);
    }
  }

  /** Shifting `x * 10^n` by `n` places gives back `x`. */
  lemma {:induction false} ShiftedWhole(x: int, n: nat)
    ensures Shifted((x * Pow10(n)) as real, n) == x as real
    decreases n
  {
    if n > 0 {
      assert x * Pow10(n) == (x * 10) * Pow10(n - 1);
      ShiftedWhole(x * 10, n - 1);
      assert Shifted((x * Pow10(n)) as real, n) == Shifted(((x * 10) * Pow10(n - 1)) as real, n - 1) / 10.0;
    }
  }

  /** Shifting by `n` places is division by 10^n. */
  lemma {:induction false} ShiftedScales(x: real, n: nat)
    ensures Shifted(x, n) * Pow10(n) as real == x
  {
    if n > 0 {
      ShiftedScales(x, n - 1);
      var y, p := Shifted(x, n - 1), Pow10(n - 1) as real;
      assert Pow10(n) as real == 10.0 * p;
      assert (y / 10.0) * (10.0 * p) == y * p;
    }
  }

  /** `ip.fp` is worth the digits of `ip + fp` with the point moved |fp| places. */
  lemma DecimalValueShift(x: nat, y: nat, n: nat, z: nat)
    requires z == x * Pow10(n) + y
    ensures DecimalValue(x, y, n) == Shifted(z as real, n)
  {
    ShiftedSum((x * Pow10(n)) as real, y as real, n);
    ShiftedWhole(x, n);
  }

  /**
   * Moving the decimal point: `float(ip + "." + fp)` is the value of the
   * digits `ip + fp` divided by 10^|fp| (see `ShiftedScales`).
   */
  lemma DecimalPointShift(ip: string, fp: string)
    requires AllDigits(ip + fp) && ip + fp != []
    ensures ParseFloat(ip + "." + fp) == Some(Shifted(DigitsValue(ip + fp) as real, |fp|))
  {
    AllDigitsSplit(ip, fp);
    DigitsValueConcat(ip, fp);
    UnsignedFraction(ip, fp);
    ParseUnsignedLiteral(ip + "." + fp);
    DecimalValueShift(DigitsValue(ip), DigitsValue(fp), |fp|, DigitsValue(ip + fp));
  }

  /** An unsigned literal ends in a digit or in its '.'. */
  lemma BadLastNotUnsigned(u: string)
    requires u != [] && !IsDigit(u[|u| - 1]) && u[|u| - 1] != '.'
    ensures !IsUnsignedLiteral(u)
  {
    var k := DotIndex(u);
    if k == |u| {
      assert !AllDigits(u);
    } else {
      assert k != |u| - 1;
      var fp := u[k + 1..];
      assert fp[|fp| - 1] == u[|u| - 1];
      assert !AllDigits(fp);
    }
  }

  /** A string ending in a letter is never a number. */
  lemma LetterEndRejected(s: string)
    requires s != [] && s[0] !in Whitespace && s[|s| - 1] == 'x'
    ensures ParseFloat(s) == None
  {
    StripNoop(s, Whitespace);
    BadLastNotUnsigned(s);
    if s[0] == '+' || s[0] == '-' {
      assert |s| >= 2;
      assert s[1..][|s| - 2] == 'x';
      BadLastNotUnsigned(s[1..]);
    }
    assert !IsFloatLiteral(s);
  }

  /** A unit suffix makes `float()` fail: "16px" is not a number. */
  lemma UnitSuffixRejected(n: nat)
    ensures ParseFloat(DecimalString(n) + "px") == None
  {
    var d := DecimalString(n);
    var s := d + "px";
    assert s[0] == d[0] && IsDigit(s[0]);
    assert s[|s| - 1] == 'x';
    LetterEndRejected(s);
  }
}
