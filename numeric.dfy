/** Numbers as the analyzer and the statistics use them: `round(x, n)`,
    `int(token)`, and sums and means of real values. Floating point is not
    modelled: every value is an exact real. */
module Numeric {
  import opened Wrappers
  import opened Text

  function Pow10(n: nat): (p: nat)
    ensures p >= 1
  {
    if n == 0 then 1 else 10 * Pow10(n - 1)
  }

  /** The integer nearest to `y`, ties going to the even neighbour. */
  function RoundToInt(y: real): (k: int)
    ensures -1.0 / 2.0 <= k as real - y <= 1.0 / 2.0
    ensures k as real - y == 1.0 / 2.0 || k as real - y == -1.0 / 2.0 ==> k % 2 == 0
  {
    var f := y.Floor;
    var d := y - f as real;
    if d < 1.0 / 2.0 then f
    else if d > 1.0 / 2.0 then f + 1
    else if f % 2 == 0 then f
    else f + 1
  }

  /** `x * 10^n` */
  function Scale(x: real, n: nat): real {
    x * Pow10(n) as real
  }

  /** `round(x, n)` for n >= 0: the multiple of 10^-n nearest to `x`, ties
      going to the even multiple. */
  function Round(x: real, n: nat): (r: real)
    ensures Scale(r, n) == RoundToInt(Scale(x, n)) as real
    ensures -1.0 / 2.0 <= Scale(r - x, n) <= 1.0 / 2.0
  {
    var p := Pow10(n) as real;
    var k := RoundToInt(Scale(x, n));
    ScaleBack(k as real, p);
    assert Scale(k as real / p - x, n) == k as real - Scale(x, n);
    k as real / p
  }

  lemma RoundToIntNegate(y: real)
    ensures RoundToInt(-y) == -RoundToInt(y)
  {
    var f := y.Floor;
    var d := y - f as real;
    if d == 0.0 {
      assert (-y).Floor == -f;
    } else {
      assert (-y).Floor == -f - 1;
      assert (-y) - ((-f - 1) as real) == 1.0 - d;
    }
  }

  /** Rounding commutes with negation, so `round(-s, 4) == -round(s, 4)`. */
  lemma RoundNegate(x: real, n: nat)
    ensures Round(-x, n) == -Round(x, n)
  {
    var p := Pow10(n) as real;
    NegateProduct(x, p);
    assert Scale(-x, n) == -Scale(x, n);
    RoundToIntNegate(Scale(x, n));
    var k := RoundToInt(Scale(x, n));
    NegateQuotient(k as real, p);
  }

  lemma ScaleBack(k: real, p: real)
    requires p > 0.0
    ensures (k / p) * p == k
  {
  }

  lemma NegateProduct(x: real, p: real)
    ensures (-x) * p == -(x * p)
  {
  }

  lemma NegateQuotient(k: real, p: real)
    requires p > 0.0
    ensures (-k) / p == -(k / p)
  {
  }

  /** Rounding keeps a value of [0, 1] in [0, 1]: both ends are multiples of
      every 10^-n. */
  lemma RoundUnit(x: real, n: nat)
    requires 0.0 <= x <= 1.0
    ensures 0.0 <= Round(x, n) <= 1.0
  {
    ScaledIndex(x, n);
    assert Round(x, n) == RoundToInt(Scale(x, n)) as real / Pow10(n) as real;
    QuotientBounds(RoundToInt(Scale(x, n)), Pow10(n));
  }

  lemma ScaledIndex(x: real, n: nat)
    requires 0.0 <= x <= 1.0
    ensures 0 <= RoundToInt(Scale(x, n)) <= Pow10(n)
  {
    var y, m := Scale(x, n), Pow10(n);
    assert 0.0 <= y <= m as real by {
      ScaleUnit(x, m as real);
    }
    NearestBetween(RoundToInt(y), y, m);
  }

  /** An integer within 1/2 of a value of [0, m] lies in [0, m]. */
  lemma NearestBetween(k: int, y: real, m: int)
    requires -1.0 / 2.0 <= k as real - y <= 1.0 / 2.0
    requires 0.0 <= y <= m as real
    ensures 0 <= k <= m
  {
  }

  lemma ScaleUnit(x: real, p: real)
    requires 0.0 <= x <= 1.0 && p >= 0.0
    ensures 0.0 <= x * p <= p
  {
  }

  /** A count over a larger count is a fraction of [0, 1], zero exactly for
      a zero count. */
  lemma QuotientBounds(a: int, n: int)
    requires 0 <= a <= n && 1 <= n
    ensures 0.0 <= a as real / n as real <= 1.0
    ensures a as real / n as real == 0.0 <==> a == 0
  {
    var q := a as real / n as real;
    assert q * n as real == a as real;
  }

  lemma RoundZero(n: nat)
    ensures Round(0.0, n) == 0.0
  {
  }

  // ---------------------------------------------------------------------------
  // int(token)

  function DigitValue(c: char): nat
    requires IsDigit(c)
  {
    c as int - '0' as int
  }

  /** The digits of an integer literal body: a digit first, and every
      underscore followed by a digit (so underscores sit singly between
      digits). */
  predicate IsIntBody(s: string) {
    s != [] && IsDigit(s[0]) && DigitsOrUnderscores(s)
    && forall i :: 0 <= i < |s| && s[i] == '_' ==> i + 1 < |s| && IsDigit(s[i + 1])
  }

  /** Every character of `s` is a decimal digit. */
  predicate AllDigits(s: string) {
    forall i :: 0 <= i < |s| ==> IsDigit(s[i])
  }

  predicate DigitsOrUnderscores(s: string) {
    forall i :: 0 <= i < |s| ==> IsDigit(s[i]) || s[i] == '_'
  }

  /** The value of a string of digits and underscores, the underscores ignored. */
  function DigitsValue(s: string): nat
    requires DigitsOrUnderscores(s)
  {
    if s == [] then 0
    else if s[|s| - 1] == '_' then DigitsValue(s[..|s| - 1])
    else 10 * DigitsValue(s[..|s| - 1]) + DigitValue(s[|s| - 1])
  }

  /** `int(s)` on a string: surrounding whitespace is ignored, one optional
      sign, then an integer body; anything else is a `ValueError`. */
  function ParseInt(s: string): Option<int> {
    var t := Strip(s);
    if t != [] && (t[0] == '+' || t[0] == '-') then
      if IsIntBody(t[1..]) then
        var v: int := DigitsValue(t[1..]);
        Some(if t[0] == '-' then -v else v)
      else None
    else if IsIntBody(t) then Some(DigitsValue(t))
    else None
  }

  /** `str(n)` for a natural number. */
  function Show(n: nat): (s: string)
    ensures s != [] && AllDigits(s)
  {
    if n < 10 then [('0' as int + n) as char]
    else Show(n / 10) + [('0' as int + n % 10) as char]
  }

  lemma {:induction false} ShowValue(n: nat)
    ensures DigitsValue(Show(n)) == n
  {
    var s := Show(n);
    if n >= 10 {
      ShowValue(n / 10);
      assert s[..|s| - 1] == Show(n / 10);
    } else {
      assert s[..0] == [];
    }
  }

  /** `int(str(n)) == n`: the integer parser reads back what it prints. */
  lemma ParseShow(n: nat)
    ensures ParseInt(Show(n)) == Some(n)
  {
    var s := Show(n);
    StripUnchanged(s);
    assert IsIntBody(s);
    ShowValue(n);
  }

  /** A sign in front of the digits of a natural number is read as its sign. */
  lemma ParseSigned(n: nat)
    ensures ParseInt("-" + Show(n)) == Some(-(n as int))
    ensures ParseInt("+" + Show(n)) == Some(n as int)
  {
    ParseSign('-', n);
    ParseSign('+', n);
  }

  lemma {:induction false} ParseSign(c: char, n: nat)
    requires c == '-' || c == '+'
    ensures ParseInt([c] + Show(n)) == Some(if c == '-' then -(n as int) else n as int)
  {
    ShowValue(n);
    ParseSignDigits(c, Show(n), n);
  }

  lemma {:induction false} ParseSignDigits(c: char, d: string, v: nat)
    requires c == '-' || c == '+'
    requires d != [] && AllDigits(d) && DigitsValue(d) == v
    ensures ParseInt([c] + d) == Some(if c == '-' then -(v as int) else v as int)
  {
    var t := [c] + d;
    DigitsBody(d);
    assert t[0] == c && t[1..] == d;
    assert t[|t| - 1] == d[|d| - 1];
    StripUnchanged(t);
    ParseSignedBody(t);
  }

  lemma DigitsBody(d: string)
    requires d != [] && AllDigits(d)
    ensures IsIntBody(d)
  {
  }

  lemma ParseSignedBody(t: string)
    requires Strip(t) == t && t != [] && (t[0] == '-' || t[0] == '+')
    requires IsIntBody(t[1..])
    ensures ParseInt(t) == Some(if t[0] == '-' then -(DigitsValue(t[1..]) as int) else DigitsValue(t[1..]) as int)
  {
  }

  /** A blank string is no integer: `int("  ")` raises `ValueError`. */
  lemma ParseBlank(s: string)
    requires Blank(s)
    ensures ParseInt(s) == None
  {
    StripEmpty(s);
  }

  // ---------------------------------------------------------------------------
  // Sums and means

  function Sum(xs: seq<real>): real {
    if xs == [] then 0.0 else Sum(xs[..|xs| - 1]) + xs[|xs| - 1]
  }

  /** `sum(xs) / len(xs)` */
  function Mean(xs: seq<real>): (r: real)
    requires xs != []
    ensures r * |xs| as real == Sum(xs)
  {
    Sum(xs) / |xs| as real
  }

  lemma {:induction false} SumBounds(xs: seq<real>, lo: real, hi: real)
    requires forall i :: 0 <= i < |xs| ==> lo <= xs[i] <= hi
    ensures |xs| as real * lo <= Sum(xs) <= |xs| as real * hi
  {
    if xs != [] {
      var front, x := xs[..|xs| - 1], xs[|xs| - 1];
      var m := |front| as real;
      assert forall i :: 0 <= i < |front| ==> front[i] == xs[i];
      SumBounds(front, lo, hi);
      assert Sum(xs) == Sum(front) + x;
      assert |xs| as real * lo == m * lo + lo;
      assert |xs| as real * hi == m * hi + hi;
    }
  }

  /** A mean lies between any bounds of its values. */
  lemma MeanBounds(xs: seq<real>, lo: real, hi: real)
    requires xs != []
    requires forall i :: 0 <= i < |xs| ==> lo <= xs[i] <= hi
    ensures lo <= Mean(xs) <= hi
  {
    SumBounds(xs, lo, hi);
    var n := |xs| as real;
    ScaledOrder(lo, Mean(xs), n);
    ScaledOrder(Mean(xs), hi, n);
  }

  lemma ScaledOrder(a: real, b: real, n: real)
    requires n > 0.0 && a * n <= b * n
    ensures a <= b
  {
    assert (b - a) * n == b * n - a * n;
  }

  lemma {:induction false} SumAppend(xs: seq<real>, x: real)
    ensures Sum(xs + [x]) == Sum(xs) + x
  {
    assert (xs + [x])[..|xs|] == xs;
  }
}
