/**
 * The two number conversions the template pages rely on: rendering a catalog id in a template
 * literal (`${id}`), and `parseInt` with no radix, as section 19.2.5 of ECMAScript defines it.
 */
module JsNumbers {

  /** A value `parseInt` can return: NaN, or an integer (the sign of a zero is not kept, as `===` ignores it). */
  datatype Number = NaN | Int(value: int)

  /** `x === y` on numbers: NaN equals nothing, itself included. */
  predicate StrictEquals(x: Number, y: Number)
    ensures StrictEquals(x, y) <==> x.Int? && x == y
  {
    x.Int? && y.Int? && x.value == y.value
  }

  /** A code unit `TrimString` removes: the WhiteSpace and LineTerminator characters of ECMAScript. */
  predicate IsWhiteSpace(c: char)
  {
    var n := c as int;
    n == 0x09 || n == 0x0A || n == 0x0B || n == 0x0C || n == 0x0D || n == 0x20 || n == 0xA0 ||
    n == 0x1680 || 0x2000 <= n <= 0x200A || n == 0x2028 || n == 0x2029 || n == 0x202F ||
    n == 0x205F || n == 0x3000 || n == 0xFEFF
  }

  /** `s` without its leading white space. */
  function TrimStart(s: string): (r: string)
    ensures |r| <= |s| && r == s[|s| - |r|..]
    ensures forall i :: 0 <= i < |s| - |r| ==> IsWhiteSpace(s[i])
    ensures |r| == 0 || !IsWhiteSpace(r[0])
  {
    if |s| > 0 && IsWhiteSpace(s[0]) then TrimStart(s[1..]) else s
  }

  /** The value of `c` as a digit of radix 36 (`0`-`9`, then `a`-`z` in either case), if it is one. */
  function DigitValue(c: char): (r: int)
    ensures -1 <= r < 36
  {
    if '0' <= c <= '9' then c as int - '0' as int
    else if 'a' <= c <= 'z' then c as int - 'a' as int + 10
    else if 'A' <= c <= 'Z' then c as int - 'A' as int + 10
    else -1
  }

  /** `c` is a digit of radix `radix`. */
  predicate IsDigit(c: char, radix: nat)
  {
    0 <= DigitValue(c) < radix
  }

  /** The longest prefix of `s` made of radix-`radix` digits. */
  function DigitPrefix(s: string, radix: nat): (r: string)
    ensures r <= s
    ensures forall i :: 0 <= i < |r| ==> IsDigit(r[i], radix)
    ensures |r| == |s| || !IsDigit(s[|r|], radix)
  {
    if |s| > 0 && IsDigit(s[0], radix) then [s[0]] + DigitPrefix(s[1..], radix) else []
  }

  /** The value of a string of radix-`radix` digits, most significant first. */
  function DigitsValue(d: string, radix: nat): nat
    requires forall i :: 0 <= i < |d| ==> IsDigit(d[i], radix)
  {
    if |d| == 0 then 0
    else
      var high, low := DigitsValue(d[..|d| - 1], radix), DigitValue(d[|d| - 1]);
      assert IsDigit(d[|d| - 1], radix);
      MulNonNegative(high, radix);
      high * radix + low
  }

  /** A product of naturals is a natural. */
  lemma MulNonNegative(a: nat, b: nat)
    ensures a * b >= 0
  {
  }

  /** Steps 4-5 of `parseInt`: the sign, and the text after a leading `-` or `+`. */
  function SplitSign(t: string): (r: (int, string))
    ensures r.0 == 1 || r.0 == -1
    ensures r.0 == -1 <==> |t| > 0 && t[0] == '-'
    ensures |t| > 0 && (t[0] == '-' || t[0] == '+') ==> r.1 == t[1..]
    ensures !(|t| > 0 && (t[0] == '-' || t[0] == '+')) ==> r.1 == t
  {
    if |t| > 0 && t[0] == '-' then (-1, t[1..])
    else if |t| > 0 && t[0] == '+' then (1, t[1..])
    else (1, t)
  }

  /** Steps 9-10 of `parseInt` with no radix given: a `0x` or `0X` prefix selects radix 16 and is dropped; otherwise radix 10. */
  function SplitRadix(u: string): (r: (nat, string))
    ensures r.0 == 10 || r.0 == 16
    ensures r.0 == 16 <==> |u| >= 2 && u[0] == '0' && (u[1] == 'x' || u[1] == 'X')
    ensures r.0 == 16 ==> |u| >= 2 && r.1 == u[2..]
    ensures r.0 == 10 ==> r.1 == u
  {
    if |u| >= 2 && u[0] == '0' && (u[1] == 'x' || u[1] == 'X') then (16, u[2..]) else (10, u)
  }

  /**
   * `parseInt(s)`: skip leading white space, take an optional sign, read a `0x`/`0X` prefix as radix 16
   * and otherwise use radix 10, then read the longest digit prefix; NaN if that prefix is empty.
   */
  function ParseInt(s: string): (r: Number)
    ensures r.Int? ==> |s| > 0
  {
    var (sign, u) := SplitSign(TrimStart(s));
    var (radix, digits) := SplitRadix(u);
    var z := DigitPrefix(digits, radix);
    if |z| == 0 then NaN else Int(sign * DigitsValue(z, radix))
  }

  /** The decimal digit for `d`. */
  function DecimalDigit(d: nat): (c: char)
    requires d < 10
    ensures DigitValue(c) == d
  {
    ('0' as int + d) as char
  }

  /** The decimal rendering of `n`, as a template literal shows a non-negative integer: no sign, no leading zero. */
  function NatToString(n: nat): (r: string)
    ensures |r| > 0
    ensures forall i :: 0 <= i < |r| ==> IsDigit(r[i], 10)
    ensures r[0] == '0' ==> n == 0 && |r| == 1
    ensures DigitsValue(r, 10) == n
  {
    if n < 10 then [DecimalDigit(n)]
    else
      var r := NatToString(n / 10) + [DecimalDigit(n % 10)];
      assert r[..|r| - 1] == NatToString(n / 10);
      r
  }

  /** A digit prefix followed by a non-digit (or nothing) is read up to exactly that point. */
  lemma {:induction false} DigitPrefixOf(d: string, rest: string, radix: nat)
    requires forall i :: 0 <= i < |d| ==> IsDigit(d[i], radix)
    requires |rest| == 0 || !IsDigit(rest[0], radix)
    ensures DigitPrefix(d + rest, radix) == d
  {
    if |d| > 0 {
      assert (d + rest)[1..] == d[1..] + rest;
      DigitPrefixOf(d[1..], rest, radix);
    } else {
      assert d + rest == rest;
    }
  }

  /**
   * Reading back a rendered number gives the number, even with trailing text that does not start with
   * a digit; after a lone `0` the text must not start with `x` or `X`, which would switch to radix 16.
   */
  lemma ParseIntOfNatToString(n: nat, rest: string)
    requires |rest| == 0 || !IsDigit(rest[0], 10)
    requires n == 0 && |rest| > 0 ==> rest[0] != 'x' && rest[0] != 'X'
    ensures ParseInt(NatToString(n) + rest) == Int(n)
  {
    var d := NatToString(n);
    var s := d + rest;
    assert s[0] == d[0] && IsDigit(s[0], 10);
    assert !IsWhiteSpace(s[0]);
    assert TrimStart(s) == s;
    assert SplitSign(s) == (1, s);
    if |s| >= 2 && s[0] == '0' {
      assert |d| == 1 && s[1] == rest[0];
    }
    assert SplitRadix(s) == (10, s);
    DigitPrefixOf(d, rest, 10);
    assert DigitPrefix(s, 10) == d;
  }
}
