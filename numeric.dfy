/**
 * Unsigned integer parsing as Rust's `from_str_radix` / `str::parse` do it,
 * and the fixed-width, zero-padded digit strings that `format!` produces for
 * `{:03}`, `{:02X}`, `{:03o}` and `{:08b}`.
 */
module Numeric {
  import opened Base
  import opened Text

  /** `c.to_digit(radix)`: `0-9`, then `a-z` / `A-Z` for 10 to 35, if below the radix. */
  function DigitOf(c: char, radix: nat): (r: Option<nat>)
    requires 2 <= radix <= 36
    ensures r.Some? ==> r.value < radix
  {
    var v := if '0' <= c <= '9' then c as int - '0' as int
             else if 'a' <= c <= 'z' then c as int - 'a' as int + 10
             else if 'A' <= c <= 'Z' then c as int - 'A' as int + 10
             else 36;
    if v < radix then Some(v) else None
  }

  /** Every character of `ds` is a digit of `radix`. */
  predicate AllDigits(ds: string, radix: nat)
    requires 2 <= radix <= 36
  {
    forall k :: 0 <= k < |ds| ==> DigitOf(ds[k], radix).Some?
  }

  /**
   * The value of a digit string read most-significant first. It exists
   * exactly when every character is a digit.
   */
  function DigitsValue(ds: string, radix: nat): (r: Option<nat>)
    requires 2 <= radix <= 36
    ensures r.Some? <==> AllDigits(ds, radix)
    decreases |ds|
  {
    if ds == [] then Some(0)
    else
      var high := DigitsValue(ds[..|ds| - 1], radix);
      var d := DigitOf(ds[|ds| - 1], radix);
      AllDigitsSnoc(ds, radix);
      if high.Some? && d.Some? then Some(high.value * radix + d.value) else None
  }

  /** A value read from `n` digits is below `radix` to the power `n`. */
  lemma {:induction false} DigitsValueBelowPow(ds: string, radix: nat)
    requires 2 <= radix <= 36 && DigitsValue(ds, radix).Some?
    ensures DigitsValue(ds, radix).value < Pow(radix, |ds|)
    decreases |ds|
  {
    if ds != [] {
      var init := ds[..|ds| - 1];
      DigitsValueBelowPow(init, radix);
      SnocBelowPow(DigitsValue(init, radix).value, DigitOf(ds[|ds| - 1], radix).value, radix, |init|);
    }
  }

  /** A non-empty string is all digits when its front is and its last character is one. */
  lemma AllDigitsSnoc(ds: string, radix: nat)
    requires 2 <= radix <= 36 && ds != []
    ensures AllDigits(ds, radix)
            <==> AllDigits(ds[..|ds| - 1], radix) && DigitOf(ds[|ds| - 1], radix).Some?
  {
    assert forall k :: 0 <= k < |ds| - 1 ==> ds[..|ds| - 1][k] == ds[k];
  }

  /** Appending a digit to a number with `n` digits gives one with `n + 1`. */
  lemma SnocBelowPow(h: nat, d: nat, radix: nat, n: nat)
    requires 2 <= radix && h < Pow(radix, n) && d < radix
    ensures h * radix + d < Pow(radix, n + 1)
  {
    MulMonotone(h + 1, Pow(radix, n), radix);
  }

  /** The digits `from_str_radix` reads: the input without one leading `+`. */
  function DigitRun(src: string): (ds: string)
    ensures |ds| <= |src|
  {
    if src != [] && src[0] == '+' then src[1..] else src
  }

  /** `from_str_radix(src, radix)` for an unsigned type whose values lie below `bound`. */
  function ParseUnsigned(src: string, radix: nat, bound: nat): (r: Option<nat>)
    requires 2 <= radix <= 36
    ensures r.Some? ==> r.value < bound
  {
    if src == [] || src == "+" || src == "-" then None
    else
      var ds := if src[0] == '+' then src[1..] else src;
      match DigitsValue(ds, radix)
      case Some(v) => if v < bound then Some(v) else None
      case None => None
  }

  /**
   * The parse succeeds exactly when, after at most one leading `+`, there is
   * a non-empty run of digits of the radix whose value is below `bound`, and
   * then gives that value. The empty string, a lone sign, any `-`, a second
   * sign and a character that is not a digit all fail.
   */
  lemma ParseUnsignedSpec(src: string, radix: nat, bound: nat)
    requires 2 <= radix <= 36
    ensures var ds := DigitRun(src);
      (ParseUnsigned(src, radix, bound).Some? <==>
        ds != [] && AllDigits(ds, radix) && DigitsValue(ds, radix).value < bound)
    ensures ParseUnsigned(src, radix, bound).Some? ==>
      ParseUnsigned(src, radix, bound) == DigitsValue(DigitRun(src), radix)
  {
  }

  /** A character has the same digit value whatever its case. */
  lemma DigitOfIgnoresCase(c: char, radix: nat)
    requires 2 <= radix <= 36
    ensures DigitOf(UpperChar(c), radix) == DigitOf(c, radix)
  {
  }

  /** Digit letters may be written in either case: `ff` reads as `FF`. */
  lemma {:induction false} DigitsValueIgnoresCase(ds: string, radix: nat)
    requires 2 <= radix <= 36
    ensures DigitsValue(Upper(ds), radix) == DigitsValue(ds, radix)
    decreases |ds|
  {
    if ds != [] {
      var init := ds[..|ds| - 1];
      DigitsValueIgnoresCase(init, radix);
      assert Upper(ds)[..|ds| - 1] == Upper(init);
      DigitOfIgnoresCase(ds[|ds| - 1], radix);
    }
  }

  /** The parse ignores the case of the digits. */
  lemma ParseUnsignedIgnoresCase(src: string, radix: nat, bound: nat)
    requires 2 <= radix <= 36
    ensures ParseUnsigned(Upper(src), radix, bound) == ParseUnsigned(src, radix, bound)
  {
    var u := Upper(src);
    if src != [] && src[0] == '+' {
      assert u[1..] == Upper(src[1..]);
    } else {
      assert DigitRun(u) == u;
    }
    DigitsValueIgnoresCase(DigitRun(src), radix);
  }

  /** A non-empty run of digits parses to its value when that is below the bound. */
  lemma ParseDigitRun(ds: string, radix: nat, bound: nat)
    requires 2 <= radix <= 36 && ds != []
    requires forall k :: 0 <= k < |ds| ==> DigitOf(ds[k], radix).Some?
    requires DigitsValue(ds, radix).Some?
    ensures ParseUnsigned(ds, radix, bound)
         == if DigitsValue(ds, radix).value < bound then DigitsValue(ds, radix) else None
  {
    assert DigitOf(ds[0], radix).Some?;
    assert ds[0] != '+' && ds != "-";
  }

  /** Appending one digit multiplies by the radix and adds the digit. */
  lemma DigitsValueSnoc(ds: string, c: char, radix: nat, v: nat, d: nat)
    requires 2 <= radix <= 36
    requires DigitsValue(ds, radix) == Some(v) && DigitOf(c, radix) == Some(d)
    ensures DigitsValue(ds + [c], radix) == Some(v * radix + d)
  {
    assert (ds + [c])[..|ds|] == ds;
  }

  /** The upper-case digit character for `d`. */
  function DigitChar(d: nat): char
    requires d < 36
  {
    if d < 10 then ('0' as int + d) as char else ('A' as int + d - 10) as char
  }

  function Pow(b: nat, e: nat): nat {
    if e == 0 then 1 else b * Pow(b, e - 1)
  }

  /** `n` in base `radix`, exactly `width` digits: leading zeros, upper-case letters. */
  function FixedDigits(n: nat, radix: nat, width: nat): (r: string)
    requires 2 <= radix <= 36
    ensures |r| == width
    ensures forall k :: 0 <= k < width ==> DigitOf(r[k], radix).Some?
    decreases width
  {
    if width == 0 then []
    else
      var high := FixedDigits(n / radix, radix, width - 1);
      var c := DigitChar(n % radix);
      DigitCharValue(n % radix, radix);
      assert forall k :: 0 <= k < width - 1 ==> (high + [c])[k] == high[k];
      high + [c]
  }

  lemma DigitCharValue(d: nat, radix: nat)
    requires 2 <= radix <= 36 && d < radix
    ensures DigitOf(DigitChar(d), radix) == Some(d)
  {
  }

  lemma QuotientBelowPow(n: nat, radix: nat, width: nat)
    requires 2 <= radix && 0 < width && n < Pow(radix, width)
    ensures n / radix < Pow(radix, width - 1)
  {
    QuotientBelow(n, radix, Pow(radix, width - 1));
  }

  lemma MulMonotone(a: nat, b: nat, c: nat)
    requires a <= b
    ensures a * c <= b * c
  {
  }

  lemma DivModIdentity(n: nat, d: nat)
    requires d > 0
    ensures (n / d) * d + n % d == n
  {
  }

  lemma MulCancelLess(a: nat, b: nat, d: nat)
    requires a * d < b * d
    ensures a < b
  {
  }

  /** A number below `m * d` has a quotient by `d` below `m`. */
  lemma QuotientBelow(e: nat, d: nat, m: nat)
    requires d > 0 && e < m * d
    ensures e / d < m
  {
    DivModIdentity(e, d);
    MulCancelLess(e / d, m, d);
  }

  /** Reading back a fixed-width digit string gives the number it was made from. */
  lemma {:induction false} FixedDigitsValue(n: nat, radix: nat, width: nat)
    requires 2 <= radix <= 36 && n < Pow(radix, width)
    ensures DigitsValue(FixedDigits(n, radix, width), radix) == Some(n)
    decreases width
  {
    if width > 0 {
      var q, d := n / radix, n % radix;
      var high := FixedDigits(q, radix, width - 1);
      assert FixedDigits(n, radix, width) == high + [DigitChar(d)];
      QuotientBelowPow(n, radix, width);
      FixedDigitsValue(q, radix, width - 1);
      DigitCharValue(d, radix);
      DigitsValueSnoc(high, DigitChar(d), radix, q, d);
      DivModIdentity(n, radix);
    }
  }
}
