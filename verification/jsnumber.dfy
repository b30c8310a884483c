/** The number conversions the engine relies on: `parseInt` without a radix,
    `parseFloat`, and `Number.prototype.toString(16)` on integers. Numbers
    are exact integers and reals here; see README for what that leaves out. */
module JsNumber {
  import opened Optional
  import opened JsString

  predicate IsDigit(c: char) {
    '0' <= c <= '9'
  }

  predicate AllDigits(s: string) {
    forall i :: 0 <= i < |s| ==> IsDigit(s[i])
  }

  function DigitValue(c: char): (d: nat)
    requires IsDigit(c)
    ensures d < 10
  {
    c as int - '0' as int
  }

  /** The value of a string of decimal digits, most significant first. */
  function DecimalValue(ds: string): nat
    requires AllDigits(ds)
    decreases |ds|
  {
    if |ds| == 0 then 0 else 10 * DecimalValue(ds[..|ds| - 1]) + DigitValue(ds[|ds| - 1])
  }

  predicate AllZeros(ds: string) {
    forall i :: 0 <= i < |ds| ==> ds[i] == '0'
  }

  /** A digit string is worth zero exactly when every digit is `0`. */
  lemma {:induction false} DecimalValueZero(ds: string)
    requires AllDigits(ds)
    ensures DecimalValue(ds) == 0 <==> AllZeros(ds)
    decreases |ds|
  {
    if |ds| > 0 {
      var init := ds[..|ds| - 1];
      DecimalValueZero(init);
      assert forall i :: 0 <= i < |init| ==> init[i] == ds[i];
      assert AllZeros(ds) <==> AllZeros(init) && ds[|ds| - 1] == '0';
    }
  }

  /** The shortest decimal rendering of `n`, as JavaScript prints it. */
  function DecimalString(n: nat): (s: string)
    ensures 1 <= |s| && AllDigits(s) && DecimalValue(s) == n
    ensures |s| > 1 ==> s[0] != '0'
  {
    var last := ['0' + (n % 10) as char];
    if n < 10 then last
    else
      var init := DecimalString(n / 10);
      var s := init + last;
      assert s[..|s| - 1] == init;
      s
  }

  function HexDigitChar(d: nat): (c: char)
    requires d < 16
  {
    "0123456789abcdef"[d]
  }

  predicate IsHexDigit(c: char) {
    IsDigit(c) || 'a' <= c <= 'f' || 'A' <= c <= 'F'
  }

  predicate AllHexDigits(s: string) {
    forall i :: 0 <= i < |s| ==> IsHexDigit(s[i])
  }

  function HexDigitValue(c: char): (d: nat)
    requires IsHexDigit(c)
    ensures d < 16
  {
    if IsDigit(c) then DigitValue(c)
    else if 'a' <= c <= 'f' then c as int - 'a' as int + 10
    else c as int - 'A' as int + 10
  }

  lemma HexDigitCharValue(d: nat)
    requires d < 16
    ensures IsHexDigit(HexDigitChar(d)) && HexDigitValue(HexDigitChar(d)) == d
    ensures !('A' <= HexDigitChar(d) <= 'Z')
  {
  }

  /** The value of a string of hexadecimal digits, most significant first. */
  function HexValue(hs: string): nat
    requires AllHexDigits(hs)
    decreases |hs|
  {
    if |hs| == 0 then 0 else 16 * HexValue(hs[..|hs| - 1]) + HexDigitValue(hs[|hs| - 1])
  }

  /** The lower-case base-16 digits of `n` without leading zeros; reading
      them back gives `n`. */
  function HexDigits(n: nat): (hs: string)
    ensures 1 <= |hs| && AllHexDigits(hs) && HexValue(hs) == n
    ensures |hs| == 1 <==> n < 16
    ensures !HasUpper(hs)
  {
    HexDigitCharValue(n % 16);
    var last := [HexDigitChar(n % 16)];
    if n < 16 then last
    else
      var init := HexDigits(n / 16);
      var hs := init + last;
      assert hs[..|hs| - 1] == init;
      assert !HasUpper(hs) by {
        forall i | 0 <= i < |hs| ensures !('A' <= hs[i] <= 'Z') {
          if i < |init| { assert hs[i] == init[i]; }
        }
      }
      hs
  }

  /** `n.toString(16)` for an integral number: a minus sign before the
      digits of a negative number. */
  function NumberToHex(n: int): (s: string)
    ensures n >= 0 ==> s == HexDigits(n)
    ensures n < 0 ==> |s| >= 2 && s[0] == '-' && s[1..] == HexDigits(-n)
  {
    if n >= 0 then HexDigits(n) else "-" + HexDigits(-n)
  }

  /** The length of the run of decimal digits at the start of `s`. */
  function DigitRun(s: string): (k: nat)
    ensures k <= |s| && AllDigits(s[..k]) && (k < |s| ==> !IsDigit(s[k]))
  {
    if |s| > 0 && IsDigit(s[0]) then
      var k := 1 + DigitRun(s[1..]);
      assert s[..k] == [s[0]] + s[1..][..k - 1];
      k
    else 0
  }

  /** The length of the run of hexadecimal digits at the start of `s`. */
  function HexRun(s: string): (k: nat)
    ensures k <= |s| && AllHexDigits(s[..k]) && (k < |s| ==> !IsHexDigit(s[k]))
  {
    if |s| > 0 && IsHexDigit(s[0]) then
      var k := 1 + HexRun(s[1..]);
      assert s[..k] == [s[0]] + s[1..][..k - 1];
      k
    else 0
  }

  /** What follows one leading sign, if there is one. */
  function Unsigned(t: string): string {
    if |t| > 0 && (t[0] == '-' || t[0] == '+') then t[1..] else t
  }

  /** `parseInt(s)` with no radix (section 19.2.5 of ECMAScript 2023): leading
      white space and one sign are skipped, a `0x`/`0X` prefix switches to base
      16, and the longest run of digits that follows is read; no digits at all
      gives NaN, here `None`. */
  function ParseInt(s: string): (r: Option<int>)
  {
    var t := TrimStart(s);
    var negative := |t| > 0 && t[0] == '-';
    var u := Unsigned(t);
    var magnitude: Option<int> :=
      if |u| >= 2 && u[0] == '0' && (u[1] == 'x' || u[1] == 'X') then
        var k := HexRun(u[2..]);
        if k == 0 then None else Some(HexValue(u[2..][..k]))
      else
        var k := DigitRun(u);
        if k == 0 then None else Some(DecimalValue(u[..k]));
    match magnitude
    case None => None
    case Some(m) => Some(if negative then -m else m)
  }

  lemma DigitRunOfDigits(s: string)
    requires AllDigits(s)
    ensures DigitRun(s) == |s|
  {
    if |s| > 0 {
      DigitRunOfDigits(s[1..]);
    }
  }

  /** Without white space, sign or hexadecimal prefix, `parseInt` reads the
      leading run of decimal digits. */
  lemma ParseIntPlain(s: string)
    requires TrimStart(s) == s && Unsigned(s) == s && (|s| > 0 ==> s[0] != '-')
    requires !(|s| >= 2 && s[0] == '0' && (s[1] == 'x' || s[1] == 'X'))
    ensures ParseInt(s) == if DigitRun(s) == 0 then None else Some(DecimalValue(s[..DigitRun(s)]))
  {
  }

  /** A digit is not white space. */
  lemma DigitNotSpace(c: char)
    requires IsDigit(c)
    ensures !IsSpace(c)
  {
    assert c < '\U{2000}';
    assert c !in SpaceChars;
  }

  /** A string that starts with a digit has no white space or sign to skip. */
  lemma DigitFirst(s: string)
    requires |s| > 0 && IsDigit(s[0])
    ensures TrimStart(s) == s && Unsigned(s) == s
  {
    DigitNotSpace(s[0]);
  }

  /** A run of digits without a leading zero reads as its decimal value. */
  lemma ParseIntDigits(s: string)
    requires 1 <= |s| && AllDigits(s) && (|s| > 1 ==> s[0] != '0')
    ensures ParseInt(s) == Some(DecimalValue(s))
  {
    DigitFirst(s);
    DigitRunOfDigits(s);
    assert s[..|s|] == s;
    ParseIntPlain(s);
  }

  /** Reading back the decimal rendering of a number gives the number. */
  lemma ParseIntDecimal(n: nat)
    ensures ParseInt(DecimalString(n)) == Some(n)
  {
    ParseIntDigits(DecimalString(n));
  }

  /** The digits of the longest decimal literal at the start of `u`: those
      before the point and those after it (empty when there is no point or
      no digit follows it). */
  function DecimalParts(u: string): (parts: (string, string))
    ensures AllDigits(parts.0) && AllDigits(parts.1)
  {
    var k := DigitRun(u);
    var rest := u[k..];
    if |rest| > 0 && rest[0] == '.' then
      (u[..k], rest[1..][..DigitRun(rest[1..])])
    else (u[..k], "")
  }

  function Pow10(k: nat): (p: nat)
    ensures p >= 1
  {
    if k == 0 then 1 else 10 * Pow10(k - 1)
  }

  /** The digits `parseFloat` reads from `s`, after leading white space and
      one sign. */
  function FloatDigits(s: string): (parts: (string, string))
    ensures AllDigits(parts.0) && AllDigits(parts.1)
  {
    DecimalParts(Unsigned(TrimStart(s)))
  }

  /** The length of the literal `digits[.digits]` or `.digits` at the start
      of `u`, before any exponent. */
  function MantissaLength(u: string): (n: nat)
    ensures n <= |u|
  {
    var k := DigitRun(u);
    if k < |u| && u[k] == '.' then k + 1 + DigitRun(u[k + 1..]) else k
  }

  /** The exponent at the start of `v`: `e` or `E`, one optional sign and at
      least one digit. Without such an exponent `parseFloat` stops before the
      `e`, and the exponent is 0. */
  function ExponentOf(v: string): int {
    if |v| >= 2 && (v[0] == 'e' || v[0] == 'E') then
      var x := Unsigned(v[1..]);
      var k := DigitRun(x);
      if k == 0 then 0
      else if v[1] == '-' then -(DecimalValue(x[..k]) as int)
      else DecimalValue(x[..k])
    else 0
  }

  /** `x` times ten to the power `e`, exactly. */
  function Scale(x: real, e: int): (y: real)
    ensures y == 0.0 <==> x == 0.0
  {
    var p := if e >= 0 then Pow10(e) else Pow10(-e);
    assert p as real >= 1.0;
    if e >= 0 then x * p as real else x / p as real
  }

  /** `parseFloat(s)` for finite decimal literals (section 19.2.4 of
      ECMAScript 2023): leading white space and one sign are skipped, the
      longest literal `digits[.digits]` or `.digits` is read exactly and
      scaled by its exponent, if one follows; no digits at all gives NaN
      (`None`). The result is present exactly when the literal has a digit,
      and it is zero exactly when every digit of the literal is `0`. */
  function ParseFloat(s: string): (r: Option<real>)
    ensures var parts := FloatDigits(s);
      && (r.Some? <==> |parts.0| + |parts.1| > 0)
      && (r.Some? ==> (r.value == 0.0 <==> AllZeros(parts.0 + parts.1)))
  {
    var t := TrimStart(s);
    var negative := |t| > 0 && t[0] == '-';
    var u := Unsigned(t);
    var parts := FloatDigits(s);
    var digits := parts.0 + parts.1;
    if |digits| == 0 then None
    else
      DecimalValueZero(digits);
      var magnitude := Scale(Quotient(DecimalValue(digits), Pow10(|parts.1|)), ExponentOf(u[MantissaLength(u)..]));
      Some(if negative then -magnitude else magnitude)
  }

  /** Digits followed by a non-digit: the run stops where they end. */
  lemma {:induction false} DigitRunPrefix(d: string, rest: string)
    requires AllDigits(d) && (|rest| > 0 ==> !IsDigit(rest[0]))
    ensures DigitRun(d + rest) == |d|
  {
    if |d| > 0 {
      assert (d + rest)[1..] == d[1..] + rest;
      DigitRunPrefix(d[1..], rest);
    }
  }

  /** A run of zeros reads as zero. */
  lemma ZerosRead(d: string)
    requires |d| > 0 && AllZeros(d)
    ensures ParseFloat(d) == Some(0.0)
  {
    assert AllDigits(d) by {
      forall i | 0 <= i < |d| ensures IsDigit(d[i]) {
        assert d[i] == '0';
      }
    }
    DigitFirst(d);
    DigitRunPrefix(d, "");
    assert d + "" == d && d[..|d|] == d;
    assert FloatDigits(d) == (d, "");
  }

  /** Digits followed by an exponent mark: the literal is the digits, with
      no point, and nothing precedes them. */
  lemma DigitsBefore(d: string, v: string)
    requires |d| > 0 && AllDigits(d) && |v| > 0 && (v[0] == 'e' || v[0] == 'E')
    ensures var s := d + v;
      && TrimStart(s) == s && Unsigned(s) == s
      && FloatDigits(s) == (d, "") && MantissaLength(s) == |d| && s[|d|..] == v
  {
    var s := d + v;
    assert s[0] == d[0];
    DigitFirst(s);
    DigitRunPrefix(d, v);
    assert s[..|d|] == d && s[|d|..] == v;
  }

  /** `e`, a sign and digits `x`: the exponent is plus or minus `x`. */
  lemma SignedExponent(sign: char, x: string)
    requires |x| > 0 && AllDigits(x) && (sign == '+' || sign == '-')
    ensures ExponentOf("e" + [sign] + x) == if sign == '-' then -(DecimalValue(x) as int) else DecimalValue(x)
  {
    var v := "e" + [sign] + x;
    assert v[1..] == [sign] + x && Unsigned(v[1..]) == x;
    DigitRunOfDigits(x);
    assert x[..|x|] == x;
  }

  /** `parseFloat` reads an exponent: digits `d`, then `e`, a sign and digits
      `x`, stand for `d` times ten to the power plus or minus `x`. */
  lemma ExponentRead(d: string, sign: char, x: string)
    requires |d| > 0 && AllDigits(d) && |x| > 0 && AllDigits(x) && (sign == '+' || sign == '-')
    ensures ParseFloat(d + "e" + [sign] + x) ==
      Some(Scale(DecimalValue(d) as real, if sign == '-' then -(DecimalValue(x) as int) else DecimalValue(x)))
  {
    var v := "e" + [sign] + x;
    assert d + "e" + [sign] + x == d + v;
    var s := d + v;
    DigitsBefore(d, v);
    SignedExponent(sign, x);
    assert s[0] == d[0] && s[0] != '-';
    assert d + "" == d;
    assert Quotient(DecimalValue(d), Pow10(0)) == DecimalValue(d) as real;
    assert ParseFloat(s) == Some(Scale(Quotient(DecimalValue(d), Pow10(0)), ExponentOf(v)));
  }

  /** `d / p` as an exact real; zero exactly when `d` is. */
  function Quotient(d: nat, p: nat): (q: real)
    requires p >= 1
    ensures q == 0.0 <==> d == 0
  {
    var q := d as real / p as real;
    assert q * p as real == d as real;
    q
  }
}
