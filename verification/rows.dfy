/** How the reports walk the population CSV: headers skipped, footnote and
    short rows dropped, the national total recognised, and the province
    code read from the first cell. */
module Rows {
  import opened Wrappers
  import opened Text
  import opened Dict

  type Row = seq<string>

  /** The rows left after the reader skips `headers` rows (`next(reader,
      None)` that many times); a file shorter than that has no data rows. */
  function DataRows(rows: seq<Row>, headers: nat): (r: seq<Row>)
    ensures |r| == if |rows| <= headers then 0 else |rows| - headers
    ensures rows == rows[..|rows| - |r|] + r
  {
    if |rows| <= headers then [] else rows[headers..]
  }

  /** Python's `s[lo:hi]`: clipped to the length of `s`, never failing. */
  function Slice<T>(s: seq<T>, lo: nat, hi: nat): (r: seq<T>)
    requires lo <= hi
    ensures |r| == if |s| <= lo then 0 else (if hi < |s| then hi else |s|) - lo
    ensures forall i | 0 <= i < |r| :: r[i] == s[lo + i]
  {
    if |s| <= lo then [] else s[lo..if hi < |s| then hi else |s|]
  }

  /** An empty row, a one-cell row or a footnote ("Notas") is skipped. */
  predicate IsNoise(row: Row) {
    |row| == 0 || |row| < 2 || Contains(row[0], "Notas")
  }

  predicate MentionsTotal(cell: string) {
    Contains(cell, "Total Nacional")
  }

  /** The variation report looks for the national total in the stripped
      cell, the others in the raw cell; the answers always agree. */
  lemma TotalAfterStrip(cell: string)
    ensures MentionsTotal(Strip(cell)) <==> MentionsTotal(cell)
  {
    var p := "Total Nacional";
    assert p[0] == 'T' && p[|p| - 1] == 'l';
    ContainsStripped(cell, p);
  }

  /** `cell.split(" ")[0].strip()`: the province code in front of the first
      space. */
  function FirstToken(cell: string): (r: string)
    ensures ' ' !in r
  {
    var h := SplitOnce(cell, ' ').0;
    StripInside(h, ' ');
    Strip(h)
  }

  /** A cell written as code, space, name gives back the code. */
  lemma FirstTokenOf(code: string, rest: string)
    requires ' ' !in code
    requires |code| > 0 ==> !IsSpace(code[0]) && !IsSpace(code[|code| - 1])
    ensures FirstToken(code + " " + rest) == code
  {
    SplitOnceAt(code, rest, ' ');
    StripUnpadded(code);
  }

  /** The province report's reading of the first cell (code, name): the
      national total is code "00"; otherwise the code is the stripped text
      before the first space and the name the stripped text after it, or
      the code again when the cell has no space. */
  function EntityOf(cell: string): (r: (string, string))
    ensures !MentionsTotal(cell) ==> ' ' !in r.0
  {
    if MentionsTotal(cell) then ("00", "Total Nacional")
    else
      var (h, t) := SplitOnce(cell, ' ');
      StripInside(h, ' ');
      var code := Strip(h);
      (code, if t.Some? then Strip(t.value) else code)
  }

  /** A province cell "code name" reads back as its code and its name. */
  lemma EntityOfLabel(code: string, name: string)
    requires ' ' !in code
    requires |code| > 0 ==> !IsSpace(code[0]) && !IsSpace(code[|code| - 1])
    requires |name| > 0 ==> !IsSpace(name[0]) && !IsSpace(name[|name| - 1])
    requires !MentionsTotal(code + " " + name)
    ensures EntityOf(code + " " + name) == (code, name)
  {
    SplitOnceAt(code, name, ' ');
    StripUnpadded(code);
    StripUnpadded(name);
  }

  /** A cell without a space names the province by its code. */
  lemma EntityOfBare(cell: string)
    requires ' ' !in cell && !MentionsTotal(cell)
    ensures EntityOf(cell) == (Strip(cell), Strip(cell))
  {
  }

  /** The variation report's province code: the first token of the
      stripped cell. */
  function ProvinceCode(cell: string): (r: string)
    ensures ' ' !in r
  {
    FirstToken(Strip(cell))
  }

  /** The variation report's relation lookup: the code padded with zeros to
      two characters, then as written, then without its leading zeros; the
      first that is a key decides, and a code none of them finds skips the
      row. */
  function Resolve(relation: Dict<string, string>, code: string): (r: Option<string>)
    ensures r.Some? <==> HasKey(relation, ZFill(code, 2)) || HasKey(relation, code)
                         || HasKey(relation, StripZeros(code))
    ensures r.Some? ==> (ZFill(code, 2), r.value) in relation || (code, r.value) in relation
                        || (StripZeros(code), r.value) in relation
  {
    if HasKey(relation, ZFill(code, 2)) then Get(relation, ZFill(code, 2))
    else if HasKey(relation, code) then Get(relation, code)
    else Get(relation, StripZeros(code))
  }

  /** A one-digit code finds the relation's two-digit key first. */
  lemma ResolvePadded(relation: Dict<string, string>, d: char)
    requires IsDigit(d) && HasKey(relation, ['0', d])
    ensures Resolve(relation, [d]) == Get(relation, ['0', d])
  {
    assert Zeros(1) == "0" + Zeros(0);
    assert ZFill([d], 2) == Zeros(1) + [d];
    assert ZFill([d], 2) == ['0', d];
  }

  /** A code of two or more characters is looked up as written before its
      zeros are stripped. */
  lemma ResolveWide(relation: Dict<string, string>, code: string)
    requires |code| >= 2 && HasKey(relation, code)
    ensures Resolve(relation, code) == Get(relation, code)
  {
  }
}
