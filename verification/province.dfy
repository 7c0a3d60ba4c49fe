/** The province report: each province's (and the national) population
    totals for eight years, and the year-over-year changes from 2017 down to
    2011, listed by province code. */
module ProvinceReport {
  import opened Wrappers
  import opened Text
  import opened Dict
  import opened Rows
  import opened Cleaning
  import opened Variation
  import opened Order

  datatype Province = Province(name: string, totals: seq<real>)

  /** The eight total columns of a row, read with the province rule. One
      unreadable cell, or fewer than eight cells, drops the row. */
  function Totals(row: Row): (r: Option<seq<real>>)
    ensures r.Some? <==> |row| >= 9 && forall i | 1 <= i < 9 :: CleanTotal(row[i]).Some?
    ensures r.Some? ==> |r.value| == 8 && forall i | 0 <= i < 8 :: r.value[i] == CleanTotal(row[i + 1]).value
  {
    var cells := Slice(row, 1, 9);
    assert forall i | 1 <= i < 9 && i < |row| :: row[i] == cells[i - 1];
    match CleanAll(cells, CleanTotal)
    case None => None
    case Some(vs) => if |vs| == 8 then Some(vs) else None
  }

  /** The entry a data row makes: its code and its province, or nothing
      for a noise row or a row whose totals are unreadable. */
  function ProvinceEntry(row: Row): Option<(string, Province)> {
    if IsNoise(row) then None
    else
      match Totals(row)
      case None => None
      case Some(vs) =>
        var (code, name) := EntityOf(row[0]);
        Some((code, Province(name, vs)))
  }

  /** The provinces read from the CSV past its two header rows, by code; a
      later row for the same code replaces the earlier one. */
  function Collect(rows: seq<Row>): Dict<string, Province> {
    Gather(DataRows(rows, 2), ProvinceEntry)
  }

  /** A code is listed exactly when some data row with readable totals
      carries it. */
  lemma CollectKeys(rows: seq<Row>, k: string)
    ensures var data := DataRows(rows, 2);
            HasKey(Collect(rows), k)
            <==> exists i | 0 <= i < |data| :: && !IsNoise(data[i]) && Totals(data[i]).Some?
                                               && EntityOf(data[i][0]).0 == k
  {
    var data := DataRows(rows, 2);
    GatherKeys(data, ProvinceEntry, k);
    forall i | 0 <= i < |data|
      ensures (ProvinceEntry(data[i]).Some? && ProvinceEntry(data[i]).value.0 == k)
              <==> (!IsNoise(data[i]) && Totals(data[i]).Some? && EntityOf(data[i][0]).0 == k)
    {
      var e := ProvinceEntry(data[i]);
    }
  }

  /** Every listed province has exactly eight totals. */
  lemma CollectTotals(rows: seq<Row>, p: (string, Province))
    requires p in Collect(rows)
    ensures |p.1.totals| == 8
  {
    GatherValues(DataRows(rows, 2), ProvinceEntry, p);
  }

  /** A code holds the province of the LAST data row that reads as it. */
  lemma CollectLast(rows: seq<Row>, i: nat)
    requires var data := DataRows(rows, 2);
             i < |data| && ProvinceEntry(data[i]).Some?
             && forall j | i < j < |data| :: ProvinceEntry(data[j]).None?
                                              || ProvinceEntry(data[j]).value.0 != ProvinceEntry(data[i]).value.0
    ensures var e := ProvinceEntry(DataRows(rows, 2)[i]).value;
            Get(Collect(rows), e.0) == Some(e.1)
  {
    GatherLast(DataRows(rows, 2), ProvinceEntry, i);
  }

  /** The row of the national total, if read, is listed under "00". */
  lemma NationalEntry(row: Row)
    requires !IsNoise(row) && MentionsTotal(row[0]) && Totals(row).Some?
    ensures ProvinceEntry(row) == Some(("00", Province("Total Nacional", Totals(row).value)))
  {
  }

  /** The first column: the name alone for the national total, otherwise
      code and name. */
  function Label(code: string, name: string): string {
    if code == "00" then name else code + " " + name
  }

  /** A province's label reads back, through the rule that reads the first
      cell of a row, as its code and name. */
  lemma LabelReadsBack(code: string, name: string)
    requires code != "00" && ' ' !in code
    requires |code| > 0 ==> !IsSpace(code[0]) && !IsSpace(code[|code| - 1])
    requires |name| > 0 ==> !IsSpace(name[0]) && !IsSpace(name[|name| - 1])
    requires !MentionsTotal(Label(code, name))
    ensures EntityOf(Label(code, name)) == (code, name)
  {
    EntityOfLabel(code, name);
  }

  /** A line of the table: the province's code, the text of its first
      column, and its changes. */
  datatype Line = Line(code: string, title: string, changes: seq<Option<Delta>>)

  /** The line of one province. */
  function LineOf(d: Dict<string, Province>, code: string, years: seq<int>): (l: Line)
    requires HasKey(d, code)
    requires forall j | 0 <= j < |ProvinceYears| :: ProvinceYears[j] in years
    ensures l.code == code && |l.changes| == 7
  {
    var p := Get(d, code).value;
    Line(code, Label(code, p.name), ProvinceChanges(p.totals, years))
  }

  function Code(l: Line): string {
    l.code
  }

  /** The table: one line per province in code order, with its changes for
      2017 down to 2011. Each of those years must be in `years`. */
  function Report(rows: seq<Row>, years: seq<int>): (r: seq<Line>)
    requires forall j | 0 <= j < |ProvinceYears| :: ProvinceYears[j] in years
    ensures Codes(r, Code) == Sort(Keys(Collect(rows)))
    ensures |r| == |Collect(rows)| && multiset(Codes(r, Code)) == multiset(Keys(Collect(rows)))
    ensures forall i | 0 <= i < |r| :: |r[i].changes| == 7
  {
    var d := Collect(rows);
    var codes := Sort(Keys(d));
    SortMembers(Keys(d));
    var r := seq(|codes|, i requires 0 <= i < |codes| => LineOf(d, codes[i], years));
    assert Codes(r, Code) == codes;
    r
  }

  /** The lines are in ascending order of code. */
  lemma ReportSorted(rows: seq<Row>, years: seq<int>)
    requires forall j | 0 <= j < |ProvinceYears| :: ProvinceYears[j] in years
    ensures var r := Report(rows, years);
            forall i, j | 0 <= i < j < |r| :: LessEq(r[i].code, r[j].code)
  {
    var r := Report(rows, years);
    assert Ascending(Codes(r, Code));
  }

  /** A line shows the province read last for its code: its label and the
      changes of its eight totals, "-" for no year here. */
  lemma ReportLine(rows: seq<Row>, years: seq<int>, i: nat)
    requires forall j | 0 <= j < |ProvinceYears| :: ProvinceYears[j] in years
    requires i < |Report(rows, years)|
    ensures var l := Report(rows, years)[i];
            && HasKey(Collect(rows), l.code)
            && var p := Get(Collect(rows), l.code).value;
            && |p.totals| == 8
            && l.title == Label(l.code, p.name)
            && forall j | 0 <= j < 7 :: l.changes[j] == YearChange(p.totals, years, ProvinceYears[j])
  {
    var d := Collect(rows);
    var codes := Sort(Keys(d));
    SortMembers(Keys(d));
    var l := Report(rows, years)[i];
    assert l.code == codes[i];
    CollectTotals(rows, (l.code, Get(d, l.code).value));
  }

  /** When every other code is a numeral of two or more digits, as the
      province codes are, the national total is the first line. */
  lemma NationalFirst(rows: seq<Row>)
    requires HasKey(Collect(rows), "00")
    requires forall c | HasKey(Collect(rows), c) && c != "00" :: IsNumeral(c) && |c| >= 2
    ensures Sort(Keys(Collect(rows)))[0] == "00"
  {
    var ks := Keys(Collect(rows));
    forall c | c in ks && c != "00" ensures LessEq("00", c) {
      ZeroZeroBelow(c);
    }
    SortFirst(ks, "00");
  }
}
