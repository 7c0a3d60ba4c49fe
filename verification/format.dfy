/** `formatar_numero`: European rendering of a number with `.` between
    thousands groups, `,` before exactly two decimals, and `-` in front of
    negatives. It formats English style first (`"{:,.2f}"`) and then
    exchanges the two separators through a placeholder `X`. */
module Format {
  import opened Wrappers
  import opened Text
  import opened Numeric
  import Cleaning

  function Digit(d: nat): (c: char)
    requires d <= 9
    ensures IsDigit(c) && DigitValue(c) == d
  {
    ('0' as int + d) as char
  }

  /** `str(n)` for a natural number. */
  function Numeral(n: nat): (s: string)
    ensures IsNumeral(s) && DigitsValue(s) == n
    ensures n < 1000 ==> |s| <= 3
  {
    if n < 10 then [Digit(n)]
    else
      var s := Numeral(n / 10) + [Digit(n % 10)];
      assert s[..|s| - 1] == Numeral(n / 10);
      s
  }

  /** `n` written with exactly `width` digits, zeros in front. */
  function Pad(n: nat, width: nat): (s: string)
    requires n < Pow10(width)
    ensures |s| == width && AllDigits(s) && DigitsValue(s) == n
  {
    if width == 0 then []
    else
      var s := Pad(n / 10, width - 1) + [Digit(n % 10)];
      assert s[..|s| - 1] == Pad(n / 10, width - 1);
      s
  }

  /** The digits of `n` in groups of three from the right, `sep` between
      groups (Python's `,` format option, with any separator). */
  function Grouped(n: nat, sep: char): string {
    if n < 1000 then Numeral(n)
    else Grouped(n / 1000, sep) + [sep] + Pad(n % 1000, 3)
  }

  /** Layout of a grouped numeral: a character is a `.` exactly when its
      distance from the end is a multiple of four, every other character
      is a digit, and the first group is not empty. */
  lemma {:induction false} GroupedLayout(n: nat)
    ensures var s := Grouped(n, '.');
            && |s| > 0 && |s| % 4 != 0
            && (forall i | 0 <= i < |s| :: s[i] == '.' <==> (|s| - i) % 4 == 0)
            && (forall i | 0 <= i < |s| :: s[i] != '.' ==> IsDigit(s[i]))
  {
    if n < 1000 {
      var s := Numeral(n);
      assert 0 < |s| <= 3;
    } else {
      GroupedLayout(n / 1000);
      var g := Grouped(n / 1000, '.');
      var p := Pad(n % 1000, 3);
      assert Grouped(n, '.') == g + "." + p;
      ModFour(|g|);
      GroupedLayoutStep(g, p);
    }
  }

  lemma ModFour(x: nat)
    ensures (x + 4) % 4 == x % 4
  {
  }

  lemma GroupedLayoutStep(g: string, p: string)
    requires |g| > 0 && |g| % 4 != 0
    requires forall i | 0 <= i < |g| :: g[i] == '.' <==> (|g| - i) % 4 == 0
    requires forall i | 0 <= i < |g| :: g[i] != '.' ==> IsDigit(g[i])
    requires |p| == 3 && AllDigits(p)
    ensures var s := g + "." + p;
            && (forall i | 0 <= i < |s| :: s[i] == '.' <==> (|s| - i) % 4 == 0)
            && (forall i | 0 <= i < |s| :: s[i] != '.' ==> IsDigit(s[i]))
  {
    var s := g + "." + p;
    forall i | 0 <= i < |s|
      ensures s[i] == '.' <==> (|s| - i) % 4 == 0
      ensures s[i] != '.' ==> IsDigit(s[i])
    {
      if i < |g| {
        assert s[i] == g[i];
        assert |s| - i == (|g| - i) + 4;
        ModFour(|g| - i);
      } else if i == |g| {
        assert s[i] == '.';
      } else {
        assert s[i] == p[i - |g| - 1];
        assert 0 < |s| - i < 4;
      }
    }
  }

  /** Dropping the dots of a grouped numeral leaves the digits of `n`. */
  lemma {:induction false} GroupedValue(n: nat)
    ensures IsNumeral(Remove(Grouped(n, '.'), '.'))
    ensures DigitsValue(Remove(Grouped(n, '.'), '.')) == n
  {
    if n < 1000 {
      var s := Numeral(n);
      assert '.' !in s;
    } else {
      GroupedValue(n / 1000);
      var g := Grouped(n / 1000, '.');
      var p := Pad(n % 1000, 3);
      assert Grouped(n, '.') == g + "." + p;
      RemoveGroup(g, p);
      ValueGroup(Remove(g, '.'), p);
    }
  }

  lemma RemoveGroup(g: string, p: string)
    requires '.' !in p
    ensures Remove(g + "." + p, '.') == Remove(g, '.') + p
  {
    RemoveAppend(g + ".", p, '.');
    RemoveDot(g);
  }

  lemma RemoveDot(g: string)
    ensures Remove(g + ".", '.') == Remove(g, '.')
  {
    RemoveAppend(g, ".", '.');
    assert Remove(".", '.') == "";
  }

  lemma ValueGroup(d: string, p: string)
    requires AllDigits(d) && AllDigits(p) && |p| == 3
    ensures AllDigits(d + p)
    ensures DigitsValue(d + p) == DigitsValue(d) * 1000 + DigitsValue(p)
  {
    DigitsValueAppend(d, p);
    assert Pow10(3) == 1000;
  }

  /** Python's `"{:,.2f}"` rounding, over exact reals: the magnitude in
      hundredths, halves rounded up. */
  function Hundredths(r: real): nat {
    var m := if r < 0.0 then -r else r;
    var h := (m * 100.0 + 0.5).Floor;
    if h < 0 then 0 else h
  }

  function Sign(r: real): string {
    if r < 0.0 then "-" else ""
  }

  /** `"{:,.2f}".format(r)`: English grouping with `,` and a `.` before two
      decimals. */
  function English(r: real): string {
    var h := Hundredths(r);
    Sign(r) + Grouped(h / 100, ',') + "." + Pad(h % 100, 2)
  }

  /** `.replace(",", "X").replace(".", ",").replace("X", ".")`. */
  function Europeanize(t: string): string {
    Replace(Replace(Replace(t, ',', 'X'), '.', ','), 'X', '.')
  }

  function Swap(c: char): char {
    if c == ',' then '.' else if c == '.' then ',' else c
  }

  /** On text without an `X`, the three replacements exchange `,` and `.`
      and leave every other character alone; doing it twice restores the
      text. */
  lemma EuropeanizeSwaps(t: string)
    requires 'X' !in t
    ensures |Europeanize(t)| == |t|
    ensures forall i | 0 <= i < |t| :: Europeanize(t)[i] == Swap(t[i])
    ensures 'X' !in Europeanize(t) && Europeanize(Europeanize(t)) == t
  {
    var e := Europeanize(t);
    assert forall i | 0 <= i < |t| :: e[i] == Swap(t[i]);
    assert 'X' !in e;
    var e2 := Europeanize(e);
    assert forall i | 0 <= i < |t| :: e2[i] == Swap(e[i]) == t[i];
  }

  lemma EuropeanizeAppend(a: string, b: string)
    ensures Europeanize(a + b) == Europeanize(a) + Europeanize(b)
  {
    ReplaceAppend(a, b, ',', 'X');
    ReplaceAppend(Replace(a, ',', 'X'), Replace(b, ',', 'X'), '.', ',');
    ReplaceAppend(Replace(Replace(a, ',', 'X'), '.', ','), Replace(Replace(b, ',', 'X'), '.', ','), 'X', '.');
  }

  lemma EuropeanizeDigits(s: string)
    requires AllDigits(s)
    ensures Europeanize(s) == s
  {
    assert ',' !in s && '.' !in s && 'X' !in s;
  }

  /** The `,`-grouped rendering becomes the `.`-grouped one. */
  lemma {:induction false} EuropeanizeGrouped(n: nat)
    ensures Europeanize(Grouped(n, ',')) == Grouped(n, '.')
  {
    if n < 1000 {
      EuropeanizeDigits(Numeral(n));
    } else {
      EuropeanizeGrouped(n / 1000);
      var p := Pad(n % 1000, 3);
      EuropeanizeAppend(Grouped(n / 1000, ',') + [','], p);
      EuropeanizeAppend(Grouped(n / 1000, ','), [',']);
      EuropeanizeDigits(p);
      assert Europeanize([',']) == ['.'];
    }
  }

  /** `formatar_numero(r)` for a number. */
  function FormatNumber(r: real): string {
    Europeanize(English(r))
  }

  /** The European text of `h` hundredths: an optional `-`, the
      `.`-grouped integer part, a `,` and exactly two decimals. */
  function European(negative: bool, h: nat): string {
    (if negative then "-" else "") + Grouped(h / 100, '.') + "," + Pad(h % 100, 2)
  }

  /** `formatar_numero` writes the rounded magnitude in the European
      layout, with a `-` exactly for negative numbers. */
  lemma FormatNumberLayout(r: real)
    ensures FormatNumber(r) == European(r < 0.0, Hundredths(r))
  {
    var h := Hundredths(r);
    EuropeanizeParts(Sign(r), Grouped(h / 100, ','), Pad(h % 100, 2));
    EuropeanizeGrouped(h / 100);
  }

  lemma EuropeanizeParts(sign: string, g: string, p: string)
    requires sign == "" || sign == "-"
    requires AllDigits(p)
    ensures Europeanize(sign + g + "." + p) == sign + Europeanize(g) + "," + p
  {
    calc {
      Europeanize(sign + g + "." + p);
      { EuropeanizeAppend(sign + g + ".", p); EuropeanizeDigits(p); }
      Europeanize(sign + g + ".") + p;
      { EuropeanizeAppend(sign + g, "."); assert Europeanize(".") == ","; }
      Europeanize(sign + g) + "," + p;
      { EuropeanizeAppend(sign, g); assert Europeanize(sign) == sign; }
      sign + Europeanize(g) + "," + p;
    }
  }

  /** A value the program can pass to `formatar_numero`: a number, or text
      that `float()` may or may not accept. */
  datatype Operand = Number(value: real) | Text(text: string)

  /** `formatar_numero(x)`: text that `float()` rejects comes back as it
      was, instead of raising; everything else is formatted. */
  function FormatOperand(x: Operand): (s: string)
    ensures x.Text? && ParseFloat(x.text).None? ==> s == x.text
    ensures x.Text? && ParseFloat(x.text).Some? ==> s == FormatNumber(ParseFloat(x.text).value)
  {
    match x
    case Number(v) => FormatNumber(v)
    case Text(t) =>
      match ParseFloat(t)
      case Some(v) => FormatNumber(v)
      case None => t
  }

  lemma HundredthsExact(cents: int)
    ensures Hundredths(cents as real / 100.0) == if cents < 0 then -cents else cents
    ensures cents as real / 100.0 < 0.0 <==> cents < 0
  {
    var m := if cents < 0 then -cents else cents;
    var r := cents as real / 100.0;
    assert (if r < 0.0 then -r else r) * 100.0 + 0.5 == m as real + 0.5;
  }

  lemma MagnitudeSplit(m: nat)
    ensures (m / 100) as real + (m % 100) as real / 100.0 == m as real / 100.0
  {
    assert m == (m / 100) * 100 + m % 100;
  }

  /** The text is already stripped and holds no exponent letter, so
      `limpar_valor` takes its thousands-separator branch. */
  lemma EuropeanBranch(negative: bool, h: nat)
    ensures var s := European(negative, h);
            Cleaning.CleanValue(s) == ParseFloat(Replace(Remove(s, '.'), ',', '.')).GetOr(0.0)
  {
    EuropeanEdges(negative, h);
    EuropeanLetters(negative, h);
  }

  lemma EuropeanEdges(negative: bool, h: nat)
    ensures Strip(European(negative, h)) == European(negative, h)
  {
    var s := European(negative, h);
    var g := Grouped(h / 100, '.');
    var p := Pad(h % 100, 2);
    GroupedLayout(h / 100);
    assert s[|s| - 1] == p[1];
    assert s[0] == '-' || s[0] == g[0];
    StripUnpadded(s);
  }

  lemma EuropeanLetters(negative: bool, h: nat)
    ensures 'e' !in European(negative, h) && 'E' !in European(negative, h)
  {
    var g := Grouped(h / 100, '.');
    GroupedLayout(h / 100);
    assert 'e' !in g && 'E' !in g;
  }

  /** Dropping the dots and turning the comma into a point gives the
      plain decimal literal. */
  lemma EuropeanDecimal(negative: bool, h: nat)
    ensures IsNumeral(Remove(Grouped(h / 100, '.'), '.'))
    ensures Replace(Remove(European(negative, h), '.'), ',', '.')
            == Render(Literal(negative, Remove(Grouped(h / 100, '.'), '.'), true, Pad(h % 100, 2), None))
  {
    var sign := if negative then "-" else "";
    var g := Grouped(h / 100, '.');
    var p := Pad(h % 100, 2);
    GroupedValue(h / 100);
    var d := Remove(g, '.');
    DecimalText(sign, g, p);
    PlainRender(negative, d, p);
  }

  lemma DecimalText(sign: string, g: string, p: string)
    requires sign == "" || sign == "-"
    requires IsNumeral(Remove(g, '.')) && AllDigits(p)
    ensures Replace(Remove(sign + g + "," + p, '.'), ',', '.') == sign + Remove(g, '.') + "." + p
  {
    var d := Remove(g, '.');
    assert '.' !in p && ',' !in p && ',' !in d;
    DropDots(sign, g, p);
    CommaToPoint(sign, d, p);
  }

  lemma PlainRender(negative: bool, d: string, p: string)
    ensures Render(Literal(negative, d, true, p, None)) == (if negative then "-" else "") + d + "." + p
  {
    assert RenderExponent(None) == "";
  }

  lemma DropDots(sign: string, g: string, p: string)
    requires '.' !in sign && '.' !in p
    ensures Remove(sign + g + "," + p, '.') == sign + Remove(g, '.') + "," + p
  {
    calc {
      Remove(sign + g + "," + p, '.');
      { RemoveAppend(sign + g + ",", p, '.'); }
      Remove(sign + g + ",", '.') + Remove(p, '.');
      { RemoveAppend(sign + g, ",", '.'); }
      Remove(sign + g, '.') + Remove(",", '.') + p;
      { RemoveAppend(sign, g, '.'); assert Remove(",", '.') == ","; }
      sign + Remove(g, '.') + "," + p;
    }
  }

  lemma CommaToPoint(sign: string, d: string, p: string)
    requires ',' !in sign && ',' !in d && ',' !in p
    ensures Replace(sign + d + "," + p, ',', '.') == sign + d + "." + p
  {
    calc {
      Replace(sign + d + "," + p, ',', '.');
      { ReplaceAppend(sign + d + ",", p, ',', '.'); ReplaceAbsent(p, ',', '.'); }
      Replace(sign + d + ",", ',', '.') + p;
      { ReplaceAppend(sign + d, ",", ',', '.'); }
      Replace(sign + d, ',', '.') + "." + p;
      { ReplaceAppend(sign, d, ',', '.'); ReplaceAbsent(sign, ',', '.'); ReplaceAbsent(d, ',', '.'); }
      sign + d + "." + p;
    }
  }

  /** The literal a European rendering turns into once its dots are
      dropped and its comma becomes a point. */
  function EuropeanLiteral(negative: bool, h: nat): (lit: Literal)
    ensures WellFormed(lit) && lit.exponent.None?
  {
    GroupedValue(h / 100);
    Literal(negative, Remove(Grouped(h / 100, '.'), '.'), true, Pad(h % 100, 2), None)
  }

  /** `limpar_valor` reads the European text back as the number it shows. */
  lemma EuropeanRead(negative: bool, h: nat)
    ensures var v := h as real / 100.0;
            Cleaning.CleanValue(European(negative, h)) == if negative then -v else v
  {
    GroupedValue(h / 100);
    EuropeanParse(negative, h);
    LiteralValue(negative, Remove(Grouped(h / 100, '.'), '.'), Pad(h % 100, 2));
    MagnitudeSplit(h);
  }

  lemma EuropeanParse(negative: bool, h: nat)
    ensures Cleaning.CleanValue(European(negative, h)) == Value(EuropeanLiteral(negative, h))
  {
    var s := European(negative, h);
    var lit := EuropeanLiteral(negative, h);
    calc {
      Cleaning.CleanValue(s);
      { EuropeanBranch(negative, h); }
      ParseFloat(Replace(Remove(s, '.'), ',', '.')).GetOr(0.0);
      { EuropeanDecimal(negative, h); }
      ParseFloat(Render(lit)).GetOr(0.0);
      { LiteralParses(lit); }
      Value(lit);
    }
  }

  /** A well-formed literal with no exponent parses as its value. */
  lemma LiteralParses(lit: Literal)
    requires WellFormed(lit)
    ensures ParseFloat(Render(lit)) == Some(Value(lit))
  {
    Cleaning.RenderedEdges(lit);
    StripUnpadded(Render(lit));
    ParseRendered(lit);
  }

  lemma LiteralValue(negative: bool, d: string, p: string)
    requires IsNumeral(d) && AllDigits(p) && |p| == 2
    ensures var v := DigitsValue(d) as real + DigitsValue(p) as real / 100.0;
            Value(Literal(negative, d, true, p, None)) == if negative then -v else v
  {
    assert Pow10(2) == 100;
  }

  /** A value with at most two decimals reads back from its European
      rendering through `limpar_valor` unchanged. */
  lemma RoundTrip(cents: int)
    ensures Cleaning.CleanValue(FormatNumber(cents as real / 100.0)) == cents as real / 100.0
  {
    var r := cents as real / 100.0;
    var v := Hundredths(r) as real / 100.0;
    calc {
      Cleaning.CleanValue(FormatNumber(r));
      { FormatNumberLayout(r); }
      Cleaning.CleanValue(European(r < 0.0, Hundredths(r)));
      { EuropeanRead(r < 0.0, Hundredths(r)); }
      if r < 0.0 then -v else v;
      { HundredthsExact(cents); }
      r;
    }
  }

  /** A thousands-grouped integer total reads back as that integer under
      both dot-dropping rules. */
  lemma GroupedTotal(n: nat, rule: Cleaning.BlankRule)
    ensures Cleaning.CleanTotal(Grouped(n, '.')) == Some(n as real)
    ensures Cleaning.CleanCell(Grouped(n, '.'), rule) == Some(n as real)
  {
    GroupedValue(n);
    GroupedEdges(n);
    NumeralRead(Remove(Grouped(n, '.'), '.'));
  }

  lemma GroupedEdges(n: nat)
    ensures Strip(Grouped(n, '.')) == Grouped(n, '.')
  {
    var g := Grouped(n, '.');
    GroupedLayout(n);
    assert g[0] != '.' && g[|g| - 1] != '.';
    StripUnpadded(g);
  }

  /** A plain numeral is neither blank nor padded, and `float()` reads the
      integer it spells. */
  lemma NumeralRead(d: string)
    requires IsNumeral(d)
    ensures d != [] && !AllSpace(d)
    ensures ParseFloat(d) == Some(DigitsValue(d) as real)
  {
    assert !IsSpace(d[0]) && !IsSpace(d[|d| - 1]);
    StripUnpadded(d);
    ParseNumeral(d);
  }

  /** `limpar_valor("1.234,56")` is 1234.56: the dot groups thousands and
      the comma is the decimal point. */
  lemma CleanExample()
    ensures Cleaning.CleanValue("1.234,56") == 1234.56
  {
    Example();
    RoundTrip(123456);
  }

  /** The documented example: 1234.56 is written "1.234,56". */
  lemma Example()
    ensures FormatNumber(1234.56) == "1.234,56"
  {
    calc {
      FormatNumber(1234.56);
      { FormatNumberLayout(1234.56); HundredthsExact(123456); }
      European(false, 123456);
      { assert 123456 / 100 == 1234 && 123456 % 100 == 56; }
      "" + Grouped(1234, '.') + "," + Pad(56, 2);
      { ExampleParts(); }
      "" + "1.234" + "," + "56";
      "1.234,56";
    }
  }

  lemma ExampleParts()
    ensures Grouped(1234, '.') == "1.234"
    ensures Pad(56, 2) == "56"
  {
    assert Pow10(3) == 1000 && Pow10(2) == 100;
    assert Pad(234, 3) == "234";
    assert Numeral(1) == "1";
  }
}
