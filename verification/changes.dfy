/** The community variation report: men and women summed per community
    from their province rows (past four header rows), then the
    year-over-year changes of each series for the requested years, listed
    for the communities some row was added to, by code. */
module CommunityVariation {
  import opened Wrappers
  import opened Text
  import opened Dict
  import opened Rows
  import opened Cleaning
  import opened Vec
  import opened Fold
  import opened Variation
  import opened Order

  /** Men for eight years, then women for eight years. */
  const Halves: nat := 16

  /** `[limpar_valor(x) for x in cells]`. */
  function CleanEach(cells: seq<string>): (r: seq<real>)
    ensures |r| == |cells|
    ensures forall i | 0 <= i < |cells| :: r[i] == CleanValue(cells[i])
  {
    seq(|cells|, i requires 0 <= i < |cells| => CleanValue(cells[i]))
  }

  /** The men's and the women's cells of a row, cleaned: cells 9 to 16,
      then 17 to 24. The slices hold eight cells each exactly when the row
      has 25 cells. */
  function HalvesOf(row: Row): (r: Option<seq<real>>)
    ensures r.Some? <==> |row| >= 25
    ensures r.Some? ==> |r.value| == Halves && forall i | 0 <= i < Halves :: r.value[i] == CleanValue(row[9 + i])
  {
    var men := Slice(row, 9, 17);
    var women := Slice(row, 17, 25);
    if |men| != 8 || |women| != 8 then None
    else
      var vs := CleanEach(men) + CleanEach(women);
      assert forall i | 0 <= i < 8 :: vs[i] == CleanValue(row[9 + i]);
      assert forall i | 8 <= i < 16 :: vs[i] == CleanValue(women[i - 8]) == CleanValue(row[9 + i]);
      Some(vs)
  }

  /** How this report reads a data row: noise and the national total are
      skipped, and so is a row without eight men and eight women cells or
      whose province code the relation does not resolve; otherwise cells 9
      to 24 are cleaned (an unreadable one counts as 0). */
  function VariationStep(row: Row, relation: Dict<string, string>): (s: Step)
    ensures s.Add? <==> && !IsNoise(row) && !MentionsTotal(row[0]) && |row| >= 25
                        && Resolve(relation, ProvinceCode(row[0])).Some?
    ensures s.Add? ==> && Resolve(relation, ProvinceCode(row[0])) == Some(s.target)
                       && |s.values| == Halves
                       && forall i | 0 <= i < Halves :: s.values[i] == CleanValue(row[9 + i])
  {
    if IsNoise(row) then Skip
    else
      var name := Strip(row[0]);
      TotalAfterStrip(row[0]);
      if MentionsTotal(name) then Skip
      else
        match HalvesOf(row)
        case None => Skip
        case Some(vs) =>
          match Resolve(relation, FirstToken(name))
          case None => Skip
          case Some(c) => Add(c, vs)
  }

  function Steps(rows: seq<Row>, relation: Dict<string, string>): (s: seq<Step>)
    ensures |s| == |rows|
    ensures forall i | 0 <= i < |rows| :: s[i] == VariationStep(rows[i], relation)
  {
    seq(|rows|, i requires 0 <= i < |rows| => VariationStep(rows[i], relation))
  }

  /** The sums after reading the CSV past its four header rows; rows for a
      community the table lacks are ignored, so this never aborts. */
  function Sums(communities: Dict<string, string>, relation: Dict<string, string>, rows: seq<Row>): (acc: Acc)
    requires Valid(communities) && Valid(relation)
    ensures Keys(acc) == Keys(communities) && Uniform(acc, Halves)
  {
    var start := Init(Keys(communities), Halves);
    var steps := Steps(DataRows(rows, 4), relation);
    RunAborts(start, Halves, steps, IgnoreMissing, ExactWidth);
    Run(start, Halves, steps, IgnoreMissing, ExactWidth).value
  }

  /** The codes among `codes` whose community was added to, in order. */
  function Marked(codes: seq<string>, acc: Acc): (r: seq<string>)
    requires forall c | c in codes :: HasKey(acc, c)
    ensures forall c :: c in r <==> c in codes && Get(acc, c).value.hit
  {
    if |codes| == 0 then []
    else
      var last := codes[|codes| - 1];
      var init := Marked(codes[..|codes| - 1], acc);
      assert forall c | c in codes :: c in codes[..|codes| - 1] || c == last;
      if Get(acc, last).value.hit then init + [last] else init
  }

  /** A community is listed exactly when some data row was added to it. */
  lemma ListedWhenTouched(communities: Dict<string, string>, relation: Dict<string, string>, rows: seq<Row>, k: string)
    requires Valid(communities) && Valid(relation)
    requires HasKey(communities, k)
    ensures var acc := Sums(communities, relation, rows);
            k in Marked(Keys(acc), acc) <==> Touched(Steps(DataRows(rows, 4), relation), k, Halves, ExactWidth)
  {
    var start := Init(Keys(communities), Halves);
    var steps := Steps(DataRows(rows, 4), relation);
    RunAborts(start, Halves, steps, IgnoreMissing, ExactWidth);
    var slot := Get(start, k).value;
    var i :| 0 <= i < |start| && start[i] == (k, slot);
    RunHit(start, Halves, steps, IgnoreMissing, ExactWidth, k);
  }

  /** A community's sums are what the rows mapped to it add. */
  lemma SumsOfRows(communities: Dict<string, string>, relation: Dict<string, string>, rows: seq<Row>, k: string)
    requires Valid(communities) && Valid(relation)
    requires HasKey(communities, k)
    ensures Get(Sums(communities, relation, rows), k).value.sums
            == Contribution(Steps(DataRows(rows, 4), relation), k, Halves, ExactWidth)
  {
    var start := Init(Keys(communities), Halves);
    var steps := Steps(DataRows(rows, 4), relation);
    RunAborts(start, Halves, steps, IgnoreMissing, ExactWidth);
    var slot := Get(start, k).value;
    var i :| 0 <= i < |start| && start[i] == (k, slot);
    RunSums(start, Halves, steps, IgnoreMissing, ExactWidth, k);
    ZeroPlus(Contribution(steps, k, Halves, ExactWidth));
  }

  /** A community no row was added to is not listed, and its sums stay
      zero. */
  lemma UnlistedStaysZero(communities: Dict<string, string>, relation: Dict<string, string>, rows: seq<Row>, k: string)
    requires Valid(communities) && Valid(relation)
    requires HasKey(communities, k)
    requires var acc := Sums(communities, relation, rows); k !in Marked(Keys(acc), acc)
    ensures Get(Sums(communities, relation, rows), k).value.sums == ZeroVec(Halves)
  {
    ListedWhenTouched(communities, relation, rows, k);
    SumsOfRows(communities, relation, rows, k);
    UntouchedZero(Steps(DataRows(rows, 4), relation), k, Halves, ExactWidth);
  }

  datatype Line = Line(code: string, name: string, men: seq<Delta>, women: seq<Delta>)

  /** The line of one community: its changes for men and for women. */
  function LineOf(communities: Dict<string, string>, acc: Acc, code: string, years: seq<int>, wanted: seq<int>): (l: Line)
    requires Uniform(acc, Halves) && Keys(acc) == Keys(communities) && HasKey(acc, code)
    requires forall j | 0 <= j < |wanted| :: wanted[j] in years
    ensures l.code == code && Get(communities, code) == Some(l.name)
    ensures |l.men| == |wanted| && |l.women| == |wanted|
  {
    var slot := Get(acc, code).value;
    assert (code, slot) in acc;
    Line(code, Get(communities, code).value,
         CommunityChanges(slot.sums[..8], years, wanted),
         CommunityChanges(slot.sums[8..], years, wanted))
  }

  /** The lines of the given codes, in their order. */
  function Lines(communities: Dict<string, string>, acc: Acc, codes: seq<string>, years: seq<int>, wanted: seq<int>): (r: seq<Line>)
    requires Uniform(acc, Halves) && Keys(acc) == Keys(communities)
    requires forall c | c in codes :: HasKey(acc, c)
    requires forall j | 0 <= j < |wanted| :: wanted[j] in years
    ensures |r| == |codes|
    ensures forall i | 0 <= i < |r| :: r[i] == LineOf(communities, acc, codes[i], years, wanted)
    ensures Codes(r, Code) == codes
  {
    var r := seq(|codes|, i requires 0 <= i < |codes| => LineOf(communities, acc, codes[i], years, wanted));
    assert forall i | 0 <= i < |r| :: Code(r[i]) == codes[i];
    r
  }

  function Code(l: Line): string {
    l.code
  }

  /** The table: the marked communities in code order. Each requested year
      must be in `years`, or the report stops with ValueError. */
  function Report(communities: Dict<string, string>, relation: Dict<string, string>, rows: seq<Row>,
                  years: seq<int>, wanted: seq<int>): (r: seq<Line>)
    requires Valid(communities) && Valid(relation)
    requires forall j | 0 <= j < |wanted| :: wanted[j] in years
    ensures var acc := Sums(communities, relation, rows);
            Codes(r, Code) == Sort(Marked(Keys(acc), acc))
            && multiset(Codes(r, Code)) == multiset(Marked(Keys(acc), acc))
  {
    var acc := Sums(communities, relation, rows);
    var codes := Sort(Marked(Keys(acc), acc));
    SortMembers(Marked(Keys(acc), acc));
    Lines(communities, acc, codes, years, wanted)
  }

  /** The lines are in ascending order of code. */
  lemma ReportSorted(communities: Dict<string, string>, relation: Dict<string, string>, rows: seq<Row>,
                     years: seq<int>, wanted: seq<int>)
    requires Valid(communities) && Valid(relation)
    requires forall j | 0 <= j < |wanted| :: wanted[j] in years
    ensures var r := Report(communities, relation, rows, years, wanted);
            forall i, j | 0 <= i < j < |r| :: LessEq(r[i].code, r[j].code)
  {
    var r := Report(communities, relation, rows, years, wanted);
    assert Ascending(Codes(r, Code));
  }

  /** A line's changes are those of the men's and the women's sums of the
      rows mapped to its community. */
  lemma ReportLine(communities: Dict<string, string>, relation: Dict<string, string>, rows: seq<Row>,
                   years: seq<int>, wanted: seq<int>, i: nat)
    requires Valid(communities) && Valid(relation)
    requires forall j | 0 <= j < |wanted| :: wanted[j] in years
    requires i < |Report(communities, relation, rows, years, wanted)|
    ensures var l := Report(communities, relation, rows, years, wanted)[i];
            var c := Contribution(Steps(DataRows(rows, 4), relation), l.code, Halves, ExactWidth);
            && HasKey(communities, l.code)
            && l.men == CommunityChanges(c[..8], years, wanted)
            && l.women == CommunityChanges(c[8..], years, wanted)
  {
    var acc := Sums(communities, relation, rows);
    var codes := Sort(Marked(Keys(acc), acc));
    SortMembers(Marked(Keys(acc), acc));
    var r := Report(communities, relation, rows, years, wanted);
    assert r[i].code == codes[i];
    SumsOfRows(communities, relation, rows, codes[i]);
  }
}
