/** Python's `float(text)` over the decimal subset the data uses: optional
    surrounding whitespace, an optional sign, digits with an optional
    decimal point, and an optional `e`/`E` exponent. Values are exact
    reals rather than binary doubles. */
module Numeric {
  import opened Wrappers
  import opened Text

  function Pow10(n: nat): (r: nat)
    ensures r >= 1
  {
    if n == 0 then 1 else 10 * Pow10(n - 1)
  }

  function DigitValue(c: char): (d: nat)
    requires IsDigit(c)
    ensures d <= 9
  {
    c as int - '0' as int
  }

  /** The number a string of decimal digits denotes (0 for the empty one). */
  function DigitsValue(s: string): (v: nat)
    requires AllDigits(s)
    ensures v < Pow10(|s|)
  {
    if |s| == 0 then 0
    else DigitsValue(s[..|s| - 1]) * 10 + DigitValue(s[|s| - 1])
  }

  lemma {:induction false} DigitsValueAppend(a: string, b: string)
    requires AllDigits(a) && AllDigits(b)
    ensures AllDigits(a + b)
    ensures DigitsValue(a + b) == DigitsValue(a) * Pow10(|b|) + DigitsValue(b)
    decreases |b|
  {
    if |b| == 0 {
      assert a + b == a;
    } else {
      var b' := b[..|b| - 1];
      assert (a + b)[..|a + b| - 1] == a + b';
      DigitsValueAppend(a, b');
      assert DigitsValue(a + b) == DigitsValue(a + b') * 10 + DigitValue(b[|b| - 1]);
      Regroup(DigitsValue(a), Pow10(|b'|), DigitsValue(b'), DigitValue(b[|b| - 1]));
    }
  }

  lemma Regroup(x: int, p: int, y: int, d: int)
    ensures (x * p + y) * 10 + d == x * (10 * p) + (y * 10 + d)
  {
  }

  /** Length of the run of digits at the front of `s`. */
  function SpanDigits(s: string): (n: nat)
    ensures n <= |s|
    ensures AllDigits(s[..n])
    ensures n < |s| ==> !IsDigit(s[n])
  {
    if |s| == 0 || !IsDigit(s[0]) then 0
    else
      var m := SpanDigits(s[1..]);
      assert s[..1 + m] == [s[0]] + s[1..][..m];
      1 + m
  }

  lemma {:induction false} SpanDigitsOf(ds: string, rest: string)
    requires AllDigits(ds)
    requires |rest| > 0 ==> !IsDigit(rest[0])
    ensures SpanDigits(ds + rest) == |ds|
    decreases |ds|
  {
    if |ds| == 0 {
      assert ds + rest == rest;
    } else {
      assert (ds + rest)[1..] == ds[1..] + rest;
      SpanDigitsOf(ds[1..], rest);
    }
  }

  /** The exponent part of a literal: `e` or `E`, an optional sign, digits. */
  datatype Exponent = Exponent(upper: bool, negative: bool, digits: string)

  /** A scanned literal: sign, digits before the point, whether a point was
      written, digits after it, and the exponent if any. */
  datatype Literal = Literal(negative: bool, whole: string, point: bool,
                             fraction: string, exponent: Option<Exponent>)

  /** The shapes Python's float grammar accepts (decimal subset): at least
      one mantissa digit, a fraction only after a point, a non-empty
      exponent. */
  predicate WellFormed(lit: Literal) {
    && AllDigits(lit.whole) && AllDigits(lit.fraction)
    && |lit.whole| + |lit.fraction| > 0
    && (!lit.point ==> lit.fraction == [])
    && (lit.exponent.Some? ==> IsNumeral(lit.exponent.value.digits))
  }

  function Scale(e: Option<Exponent>): (r: real)
    requires e.Some? ==> AllDigits(e.value.digits)
    ensures r > 0.0
  {
    match e
    case None => 1.0
    case Some(Exponent(_, neg, ds)) =>
      var p := Pow10(DigitsValue(ds)) as real;
      if neg then 1.0 / p else p
  }

  /** The exact number a well-formed literal denotes. */
  function Value(lit: Literal): real
    requires WellFormed(lit)
  {
    var mantissa := DigitsValue(lit.whole) as real
                    + DigitsValue(lit.fraction) as real / Pow10(|lit.fraction|) as real;
    var magnitude := mantissa * Scale(lit.exponent);
    if lit.negative then -magnitude else magnitude
  }

  /** Splits off an optional leading sign. */
  function ScanSign(s: string): (bool, string) {
    if |s| > 0 && (s[0] == '+' || s[0] == '-') then (s[0] == '-', s[1..]) else (false, s)
  }

  /** Splits `t` into the digits before the point, whether there is a
      point, the digits after it, and what follows. */
  function ScanMantissa(t: string): (r: (string, bool, string, string))
    ensures AllDigits(r.0) && AllDigits(r.2)
    ensures !r.1 ==> r.2 == []
  {
    var w := SpanDigits(t);
    var u := t[w..];
    var point := |u| > 0 && u[0] == '.';
    var v := if point then u[1..] else u;
    var f := SpanDigits(v);
    (t[..w], point, v[..f], v[f..])
  }

  /** Reads what follows the mantissa: nothing, or an exponent. `None`
      means the text is not a literal. */
  function ScanTail(s: string): (r: Option<Option<Exponent>>)
    ensures r.Some? && r.value.Some? ==> IsNumeral(r.value.value.digits)
  {
    if s == [] then Some(None)
    else if s[0] == 'e' || s[0] == 'E' then
      var (neg, ds) := ScanSign(s[1..]);
      if IsNumeral(ds) then Some(Some(Exponent(s[0] == 'E', neg, ds))) else None
    else None
  }

  /** Reads `s` as a literal of the accepted grammar, or fails. */
  function Scan(s: string): (r: Option<Literal>)
    ensures r.Some? ==> WellFormed(r.value)
  {
    var (neg, t) := ScanSign(s);
    var (whole, point, fraction, rest) := ScanMantissa(t);
    if |whole| + |fraction| == 0 then None
    else
      match ScanTail(rest)
      case None => None
      case Some(e) => Some(Literal(neg, whole, point, fraction, e))
  }

  function RenderExponent(e: Option<Exponent>): string {
    match e
    case None => ""
    case Some(Exponent(upper, neg, ds)) => (if upper then "E" else "e") + (if neg then "-" else "") + ds
  }

  lemma ScanTailRender(e: Option<Exponent>)
    requires e.Some? ==> IsNumeral(e.value.digits)
    ensures ScanTail(RenderExponent(e)) == Some(e)
  {
    match e {
      case None =>
      case Some(Exponent(upper, neg, ds)) =>
        var x := (if neg then "-" else "") + ds;
        assert RenderExponent(e)[1..] == x;
        if !neg { assert x == ds; }
    }
  }

  lemma {:induction false} ScanMantissaRender(whole: string, point: bool, fraction: string, ex: string)
    requires AllDigits(whole) && AllDigits(fraction)
    requires !point ==> fraction == []
    requires |ex| > 0 ==> !IsDigit(ex[0]) && ex[0] != '.'
    ensures ScanMantissa(whole + ((if point then "." else "") + (fraction + ex)))
            == (whole, point, fraction, ex)
  {
    var dot := if point then "." else "";
    var tail := dot + (fraction + ex);
    var t := whole + tail;
    assert |tail| > 0 ==> !IsDigit(tail[0]) by {
      if point { assert tail[0] == '.'; } else { assert tail == fraction + ex; }
    }
    SpanDigitsOf(whole, tail);
    assert t[..|whole|] == whole && t[|whole|..] == tail;
    var v := if |tail| > 0 && tail[0] == '.' then tail[1..] else tail;
    assert v == fraction + ex;
    SpanDigitsOf(fraction, ex);
    assert v[..|fraction|] == fraction && v[|fraction|..] == ex;
  }

  /** The canonical text of a literal: `-` only when negative, and the
      exponent letter as scanned. */
  function Render(lit: Literal): string {
    (if lit.negative then "-" else "") + lit.whole + (if lit.point then "." else "")
    + lit.fraction + RenderExponent(lit.exponent)
  }

  /** Scanning gives back every well-formed literal from its text. */
  lemma ScanRender(lit: Literal)
    requires WellFormed(lit)
    ensures Scan(Render(lit)) == Some(lit)
  {
    var dot := if lit.point then "." else "";
    var ex := RenderExponent(lit.exponent);
    var body := lit.whole + (dot + (lit.fraction + ex));
    RenderNested(lit);
    assert IsDigit(body[0]) || body[0] == '.' by {
      if |lit.whole| > 0 {
        assert body[0] == lit.whole[0];
      } else {
        assert body == dot + (lit.fraction + ex);
      }
    }
    ScanSignOf(lit.negative, body);
    ScanMantissaRender(lit.whole, lit.point, lit.fraction, ex);
    ScanTailRender(lit.exponent);
  }

  lemma ScanSignOf(negative: bool, body: string)
    requires |body| > 0 && body[0] != '+' && body[0] != '-'
    ensures ScanSign((if negative then "-" else "") + body) == (negative, body)
  {
    if negative {
      assert ("-" + body)[1..] == body;
    } else {
      assert "" + body == body;
    }
  }

  /** The text of a literal, grouped from the right. */
  lemma RenderNested(lit: Literal)
    ensures var dot := if lit.point then "." else "";
            var ex := RenderExponent(lit.exponent);
            Render(lit) == (if lit.negative then "-" else "") + (lit.whole + (dot + (lit.fraction + ex)))
  {
    var sign := if lit.negative then "-" else "";
    var dot := if lit.point then "." else "";
    var ex := RenderExponent(lit.exponent);
    Assoc(sign + lit.whole + dot, lit.fraction, ex);
    Assoc(sign + lit.whole, dot, lit.fraction + ex);
    Assoc(sign, lit.whole, dot + (lit.fraction + ex));
  }

  /** `float(text)` restricted to the decimal grammar above. */
  function ParseDecimal(s: string): Option<real> {
    match Scan(s)
    case None => None
    case Some(lit) => Some(Value(lit))
  }

  /** Python's `float(text)`, which ignores surrounding whitespace. */
  function ParseFloat(s: string): Option<real> {
    ParseDecimal(Strip(s))
  }

  /** The text of a literal parses back to the literal's value. */
  lemma ParseRendered(lit: Literal)
    requires WellFormed(lit)
    ensures ParseDecimal(Render(lit)) == Some(Value(lit))
  {
    ScanRender(lit);
  }

  /** A plain digit string parses to the integer it spells. */
  lemma ParseNumeral(ds: string)
    requires IsNumeral(ds)
    ensures ParseDecimal(ds) == Some(DigitsValue(ds) as real)
  {
    var lit := Literal(false, ds, false, "", None);
    RenderPlain(ds);
    ScanRender(lit);
    ValuePlain(ds);
  }

  lemma RenderPlain(ds: string)
    ensures Render(Literal(false, ds, false, "", None)) == ds
  {
    assert "" + ds + "" + "" + "" == ds;
  }

  lemma ValuePlain(ds: string)
    requires IsNumeral(ds)
    ensures Value(Literal(false, ds, false, "", None)) == DigitsValue(ds) as real
  {
    assert DigitsValue("") == 0 && Pow10(0) == 1 && Scale(None) == 1.0;
  }

  /** Only digits, signs, the point and the exponent letters can appear in
      text the grammar accepts; in particular a comma never can. */
  lemma ScanAlphabet(s: string)
    requires Scan(s).Some?
    ensures OnlyAccepted(s)
  {
    var (neg, t) := ScanSign(s);
    var (whole, point, fraction, rest) := ScanMantissa(t);
    TailAlphabet(rest);
    MantissaAlphabet(t);
    if |s| > 0 && (s[0] == '+' || s[0] == '-') { assert s == [s[0]] + t; }
  }

  lemma TailAlphabet(s: string)
    requires ScanTail(s).Some?
    ensures OnlyAccepted(s)
  {
    if s != [] {
      var x := s[1..];
      var (neg, ds) := ScanSign(x);
      assert OnlyAccepted(x) by {
        if |x| > 0 && (x[0] == '+' || x[0] == '-') { assert x == [x[0]] + ds; }
      }
      assert s == [s[0]] + x;
    }
  }

  lemma MantissaAlphabet(t: string)
    requires OnlyAccepted(ScanMantissa(t).3)
    ensures OnlyAccepted(t)
  {
    var w := SpanDigits(t);
    var u := t[w..];
    var point := |u| > 0 && u[0] == '.';
    var v := if point then u[1..] else u;
    var f := SpanDigits(v);
    assert ScanMantissa(t).3 == v[f..];
    DigitsAccepted(v[..f]);
    AcceptedSplit(v, f);
    if point {
      assert OnlyAccepted(u[..1]);
      AcceptedSplit(u, 1);
    }
    DigitsAccepted(t[..w]);
    AcceptedSplit(t, w);
  }

  lemma DigitsAccepted(s: string)
    requires AllDigits(s)
    ensures OnlyAccepted(s)
  {
  }

  lemma AcceptedSplit(s: string, k: nat)
    requires k <= |s| && OnlyAccepted(s[..k]) && OnlyAccepted(s[k..])
    ensures OnlyAccepted(s)
  {
    forall i | 0 <= i < |s| ensures Accepted(s[i]) {
      if i < k { assert s[i] == s[..k][i]; } else { assert s[i] == s[k..][i - k]; }
    }
  }

  predicate Accepted(c: char) {
    IsDigit(c) || c in {'+', '-', '.', 'e', 'E'}
  }

  predicate OnlyAccepted(s: string) {
    forall i | 0 <= i < |s| :: Accepted(s[i])
  }
}
