/** The rules that turn one CSV cell into a number.

    - `CleanValue` is the full rule of the community-variation report
      (`limpar_valor`): blank is 0, scientific notation is read as is,
      otherwise `.` is a thousands separator and `,` the decimal comma, and
      anything unreadable is 0.
    - `CleanTotal` is the province report's rule for its total columns:
      strip, drop every `.`, blank is 0, and an unreadable cell fails.
    - `CleanCell` is the community reports' rule: drop every `.`, blank is
      0, and an unreadable cell fails. Whether "blank" means "empty after
      stripping" or "exactly empty" is the `BlankRule`. */
module Cleaning {
  import opened Wrappers
  import opened Text
  import opened Numeric

  /** `limpar_valor`: never fails; every unreadable cell becomes 0. */
  function CleanValue(cell: string): (r: real)
    ensures AllSpace(cell) ==> r == 0.0
  {
    var x := Strip(cell);
    if x == [] then 0.0
    else if 'E' in x || 'e' in x then ParseFloat(x).GetOr(0.0)
    else ParseFloat(Replace(Remove(x, '.'), ',', '.')).GetOr(0.0)
  }

  /** A cell in scientific notation is read as a plain literal: its `.` is
      the decimal point, not a thousands separator. */
  lemma CleanScientific(lit: Literal)
    requires WellFormed(lit) && lit.exponent.Some?
    ensures CleanValue(Render(lit)) == Value(lit)
  {
    var s := Render(lit);
    var ex := RenderExponent(lit.exponent);
    RenderedEdges(lit);
    StripUnpadded(s);
    assert ex[0] in {'e', 'E'};
    assert s[|s| - |ex|] == ex[0];
    assert 'e' in s || 'E' in s;
    assert CleanValue(s) == ParseFloat(s).GetOr(0.0);
    ScanRender(lit);
  }

  /** The text of a literal neither starts nor ends with whitespace, and
      ends with the text of its exponent. */
  lemma RenderedEdges(lit: Literal)
    requires WellFormed(lit)
    ensures var s := Render(lit); |s| > 0 && !IsSpace(s[0]) && !IsSpace(s[|s| - 1])
    ensures var ex := RenderExponent(lit.exponent);
            |ex| <= |Render(lit)| && Render(lit)[|Render(lit)| - |ex|..] == ex
  {
    var m := MantissaText(lit);
    var ex := RenderExponent(lit.exponent);
    assert Render(lit) == m + ex;
    MantissaEdges(lit);
    ExponentEnd(lit.exponent);
    ConcatEdges(m, ex);
  }

  /** Everything of a literal's text before the exponent. */
  function MantissaText(lit: Literal): string {
    (if lit.negative then "-" else "") + lit.whole + (if lit.point then "." else "") + lit.fraction
  }

  lemma MantissaEdges(lit: Literal)
    requires WellFormed(lit)
    ensures var m := MantissaText(lit); |m| > 0 && !IsSpace(m[0]) && !IsSpace(m[|m| - 1])
  {
    var sign := if lit.negative then "-" else "";
    var dot := if lit.point then "." else "";
    var m := MantissaText(lit);
    assert m == sign + (lit.whole + dot + lit.fraction);
    if lit.negative {
      assert m[0] == '-';
    } else if |lit.whole| > 0 {
      assert m[0] == lit.whole[0];
    } else {
      assert m[0] == '.';
    }
    if |lit.fraction| > 0 {
      assert m[|m| - 1] == lit.fraction[|lit.fraction| - 1];
    } else if lit.point {
      assert m[|m| - 1] == '.';
    } else {
      assert m[|m| - 1] == lit.whole[|lit.whole| - 1];
    }
  }

  lemma ExponentEnd(e: Option<Exponent>)
    requires e.Some? ==> IsNumeral(e.value.digits)
    ensures var ex := RenderExponent(e); |ex| > 0 ==> !IsSpace(ex[|ex| - 1])
  {
    match e {
      case None =>
      case Some(Exponent(upper, neg, ds)) =>
        var ex := RenderExponent(e);
        assert ex[|ex| - 1] == ds[|ds| - 1];
    }
  }

  lemma ConcatEdges(m: string, ex: string)
    requires |m| > 0 && !IsSpace(m[0]) && !IsSpace(m[|m| - 1])
    requires |ex| > 0 ==> !IsSpace(ex[|ex| - 1])
    ensures var s := m + ex; |s| > 0 && !IsSpace(s[0]) && !IsSpace(s[|s| - 1])
    ensures (m + ex)[|m|..] == ex
  {
  }

  /** An unreadable cell gives 0 instead of raising. */
  lemma CleanUnreadable(cell: string)
    requires var x := Strip(cell);
             x != [] && ('E' in x || 'e' in x) && ParseFloat(x).None?
    ensures CleanValue(cell) == 0.0
  {
  }

  /** The province report's rule for a total cell. */
  function CleanTotal(cell: string): Option<real> {
    var x := Remove(Strip(cell), '.');
    if x == [] then Some(0.0) else ParseFloat(x)
  }

  /** What counts as a blank cell once the dots are gone: empty after
      stripping whitespace, or exactly empty. */
  datatype BlankRule = BlankAfterStrip | BlankExact

  predicate IsBlank(x: string, rule: BlankRule) {
    match rule
    case BlankAfterStrip => AllSpace(x)
    case BlankExact => x == []
  }

  /** The community reports' rule for a data cell. */
  function CleanCell(cell: string, rule: BlankRule): Option<real> {
    var x := Remove(cell, '.');
    if IsBlank(x, rule) then Some(0.0) else ParseFloat(x)
  }

  /** The all-or-nothing parse of a block of cells: one unreadable cell
      fails the whole block; otherwise the values in cell order. */
  function CleanAll(cells: seq<string>, clean: string -> Option<real>): (r: Option<seq<real>>)
    ensures r.Some? <==> forall i | 0 <= i < |cells| :: clean(cells[i]).Some?
    ensures r.Some? ==> |r.value| == |cells|
                        && forall i | 0 <= i < |cells| :: r.value[i] == clean(cells[i]).value
  {
    if |cells| == 0 then Some([])
    else
      match clean(cells[0])
      case None => None
      case Some(v) =>
        match CleanAll(cells[1..], clean)
        case None => None
        case Some(vs) => Some([v] + vs)
  }

  /** The two strip-and-drop-dots rules agree on a cell unless stripping,
      then dropping the dots, leaves whitespace only (as in ". ."): the
      province rule then fails while the community rule reads 0. */
  lemma TotalAgreesWithCell(cell: string)
    ensures var y := Remove(Strip(cell), '.');
            CleanTotal(cell) == CleanCell(cell, BlankAfterStrip) <==> !(y != [] && AllSpace(y))
  {
    var y := Remove(Strip(cell), '.');
    CellThroughStrip(cell);
    if y != [] && AllSpace(y) {
      assert Strip(y) == [];
      assert Scan([]).None?;
    }
  }

  /** The community rule with blanks-after-strip depends only on the
      stripped cell: margins of whitespace hold no dots and strip away. */
  lemma CellThroughStrip(cell: string)
    ensures var y := Remove(Strip(cell), '.');
            CleanCell(cell, BlankAfterStrip)
            == if AllSpace(y) then Some(0.0) else ParseDecimal(Strip(y))
  {
    var left, right := StripMargins(cell);
    var y := Remove(Strip(cell), '.');
    RemoveInMargins(left, Strip(cell), right);
    StripAbsorbs(left, y, right);
    AllSpaceMiddle(left, y, right);
  }

  lemma RemoveInMargins(left: string, m: string, right: string)
    requires AllSpace(left) && AllSpace(right)
    ensures Remove(left + m + right, '.') == left + Remove(m, '.') + right
  {
    NoDotInSpace(left);
    NoDotInSpace(right);
    RemoveAppend(left + m, right, '.');
    RemoveAppend(left, m, '.');
  }

  lemma AllSpaceMiddle(left: string, mid: string, right: string)
    requires AllSpace(left) && AllSpace(right)
    ensures AllSpace(left + mid + right) <==> AllSpace(mid)
  {
    var s := left + mid + right;
    if AllSpace(mid) {
      AllSpaceJoin(left, mid, right);
    } else {
      var i :| 0 <= i < |mid| && !IsSpace(mid[i]);
      assert s[|left| + i] == mid[i];
    }
  }

  lemma NoDotInSpace(s: string)
    requires AllSpace(s)
    ensures Remove(s, '.') == s
  {
  }

  lemma AllSpaceJoin(a: string, b: string, c: string)
    requires AllSpace(a) && AllSpace(b) && AllSpace(c)
    ensures AllSpace(a + b + c)
  {
    AllSpaceAppend(a, b);
    AllSpaceAppend(a + b, c);
  }

  /** A whitespace-only cell is 0 under the stripping rule but makes the
      exact-empty rule fail, which drops the whole row. */
  lemma WhitespaceCell(cell: string)
    requires |cell| > 0 && AllSpace(cell)
    ensures CleanCell(cell, BlankAfterStrip) == Some(0.0)
    ensures CleanCell(cell, BlankExact).None?
  {
    NoDotInSpace(cell);
    assert Strip(cell) == [];
    assert Scan([]).None?;
  }

  /** A cell holding a comma is never readable by the dot-dropping rules:
      the decimal comma makes the row fail. */
  lemma CommaFails(cell: string, rule: BlankRule)
    requires ',' in cell
    ensures CleanTotal(cell).None?
    ensures CleanCell(cell, rule).None?
  {
    var z := Remove(cell, '.');
    RemoveKeeps(cell, '.', ',');
    NonSpaceSurvivesStrip(z, ',');
    assert !IsBlank(z, rule) by {
      var i :| 0 <= i < |z| && z[i] == ',';
      assert !IsSpace(z[i]);
    }
    UnreadableWith(Strip(z), ',');
    NonSpaceSurvivesStrip(cell, ',');
    var y := Remove(Strip(cell), '.');
    RemoveKeeps(Strip(cell), '.', ',');
    NonSpaceSurvivesStrip(y, ',');
    UnreadableWith(Strip(y), ',');
  }

  lemma NonSpaceSurvivesStrip(s: string, c: char)
    requires c in s && !IsSpace(c)
    ensures c in Strip(s)
  {
    var left, right := StripMargins(s);
    assert c !in left && c !in right;
  }

  lemma UnreadableWith(s: string, c: char)
    requires c in s && !IsDigit(c) && c !in {'+', '-', '.', 'e', 'E'}
    ensures ParseDecimal(s).None?
  {
    if Scan(s).Some? {
      ScanAlphabet(s);
      assert false;
    }
  }
}
