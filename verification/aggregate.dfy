/** The part the community reports share: each data row of the population
    CSV names a province, the relation table maps it to its community, and
    the row's 24 values (total, men and women for eight years) are added to
    that community's sums. */
module Aggregate {
  import opened Wrappers
  import opened Text
  import opened Dict
  import opened Rows
  import opened Cleaning
  import opened Vec
  import opened Fold
  import opened Ranking

  /** Total, men and women for eight years, most recent first. */
  const Width: nat := 24

  /** How a community report reads a data row. Noise rows and the national
      total are skipped, and so is a province the relation lacks; otherwise
      the cells after the first (at most 24) are cleaned, and one
      unreadable cell skips the row. */
  function CommunityStep(row: Row, relation: Dict<string, string>, blank: BlankRule): (s: Step)
    ensures s.Add? <==> && !IsNoise(row) && !MentionsTotal(row[0])
                        && HasKey(relation, FirstToken(row[0]))
                        && Readable(Slice(row, 1, 25), blank)
    ensures s.Add? ==> && Get(relation, FirstToken(row[0])) == Some(s.target)
                       && |s.values| == |Slice(row, 1, 25)|
                       && forall i | 0 <= i < |s.values| :: s.values[i] == CleanCell(Slice(row, 1, 25)[i], blank).value
  {
    if IsNoise(row) || MentionsTotal(row[0]) then Skip
    else
      match Get(relation, FirstToken(row[0]))
      case None => Skip
      case Some(c) =>
        var cells := Slice(row, 1, 25);
        var clean := cell => CleanCell(cell, blank);
        match CleanAll(cells, clean)
        case None => Skip
        case Some(vs) => Add(c, vs)
  }

  /** Every cell of the block is readable under the rule. */
  predicate Readable(cells: seq<string>, blank: BlankRule) {
    forall i | 0 <= i < |cells| :: CleanCell(cells[i], blank).Some?
  }

  /** A row adds to a community's sums exactly when it is read and has all
      24 value cells. */
  lemma RowCounts(row: Row, relation: Dict<string, string>, blank: BlankRule, k: string)
    ensures Counts(CommunityStep(row, relation, blank), k, Width, ExactWidth)
            <==> CommunityStep(row, relation, blank).Add?
                 && Get(relation, FirstToken(row[0])) == Some(k) && |row| >= 25
  {
  }

  function Steps(rows: seq<Row>, relation: Dict<string, string>, blank: BlankRule): (s: seq<Step>)
    ensures |s| == |rows|
    ensures forall i | 0 <= i < |rows| :: s[i] == CommunityStep(rows[i], relation, blank)
  {
    seq(|rows|, i requires 0 <= i < |rows| => CommunityStep(rows[i], relation, blank))
  }

  /** The sums after reading the CSV past its two header rows, starting
      from zeros for every community; `None` when a row names a community
      missing from the communities table and that is fatal. */
  function Accumulate(communities: Dict<string, string>, relation: Dict<string, string>,
                     rows: seq<Row>, blank: BlankRule, missing: Missing): (r: Option<Acc>)
    requires Valid(communities) && Valid(relation)
    ensures r.Some? ==> Keys(r.value) == Keys(communities) && Uniform(r.value, Width)
  {
    Run(Init(Keys(communities), Width), Width, Steps(DataRows(rows, 2), relation, blank), missing, ExactWidth)
  }

  /** A community's sums are the sum of the values of the rows mapped to it
      that carry all 24 values. */
  lemma AccumulateSums(communities: Dict<string, string>, relation: Dict<string, string>,
                      rows: seq<Row>, blank: BlankRule, missing: Missing, k: string)
    requires Valid(communities) && Valid(relation)
    requires HasKey(communities, k)
    requires Accumulate(communities, relation, rows, blank, missing).Some?
    ensures Get(Accumulate(communities, relation, rows, blank, missing).value, k).value.sums
            == Contribution(Steps(DataRows(rows, 2), relation, blank), k, Width, ExactWidth)
  {
    var acc := Init(Keys(communities), Width);
    var steps := Steps(DataRows(rows, 2), relation, blank);
    InitGet(Keys(communities), k);
    RunSums(acc, Width, steps, missing, ExactWidth, k);
    ZeroPlus(Contribution(steps, k, Width, ExactWidth));
  }

  /** Every community starts at zero and unmarked. */
  lemma InitGet(codes: seq<string>, k: string)
    requires k in codes
    ensures HasKey(Init(codes, Width), k)
    ensures Get(Init(codes, Width), k) == Some(Slot(ZeroVec(Width), false))
  {
    var acc := Init(codes, Width);
    var slot := Get(acc, k).value;
    var i :| 0 <= i < |acc| && acc[i] == (k, slot);
  }

  /** A row is fatal when it is read for a community that the communities
      table lacks. */
  predicate Stray(communities: Dict<string, string>, step: Step) {
    step.Add? && !HasKey(communities, step.target)
  }

  /** The reading aborts exactly when aborting is the rule and some data
      row maps to a community missing from the communities table. */
  lemma AccumulateAborts(communities: Dict<string, string>, relation: Dict<string, string>,
                        rows: seq<Row>, blank: BlankRule, missing: Missing)
    requires Valid(communities) && Valid(relation)
    ensures var steps := Steps(DataRows(rows, 2), relation, blank);
            Accumulate(communities, relation, rows, blank, missing).None?
            <==> missing == AbortOnMissing && exists i | 0 <= i < |steps| :: Stray(communities, steps[i])
  {
    var acc := Init(Keys(communities), Width);
    var steps := Steps(DataRows(rows, 2), relation, blank);
    RunAborts(acc, Width, steps, missing, ExactWidth);
    assert forall i | 0 <= i < |steps| :: Orphan(acc, steps[i]) == Stray(communities, steps[i]);
  }

  /** The ranking input: every community with the mean of its first eight
      sums (the totals), in the order of the communities table. */
  function Ranked(acc: Acc): (r: seq<Entry>)
    requires Uniform(acc, Width)
    ensures |r| == |acc|
    ensures forall i | 0 <= i < |acc| :: r[i].code == acc[i].0 && r[i].key * 8.0 == Sum(acc[i].1.sums[..8])
  {
    seq(|acc|, i requires 0 <= i < |acc| => (assert acc[i] in acc; Entry(acc[i].0, Mean8(acc[i].1.sums))))
  }

  /** The ten communities with the largest mean total, ties in table
      order: each listed once, with its mean total as key. */
  function TopTen(acc: Acc): (r: seq<Entry>)
    requires Uniform(acc, Width) && Valid(acc)
    ensures |r| == if |acc| < 10 then |acc| else 10
    ensures Descending(r) && DistinctCodes(r)
    ensures forall e | e in r :: HasKey(acc, e.code) && e.key == Mean8(Get(acc, e.code).value.sums)
  {
    var ranked := Ranked(acc);
    var r := Top(ranked, 10);
    forall e | e in r ensures HasKey(acc, e.code) && e.key == Mean8(Get(acc, e.code).value.sums) {
      var i :| 0 <= i < |acc| && ranked[i] == e;
      assert Keys(acc)[i] == e.code;
      GetAt(acc, i);
    }
    RankedDistinct(acc);
    TopDistinct(ranked, 10);
    r
  }

  lemma RankedDistinct(acc: Acc)
    requires Uniform(acc, Width) && Valid(acc)
    ensures DistinctCodes(Ranked(acc))
  {
    var ranked := Ranked(acc);
    forall i, j | 0 <= i < j < |ranked| ensures ranked[i].code != ranked[j].code {
      assert Keys(acc)[i] != Keys(acc)[j];
    }
  }

  /** A community whose mean total is above the last kept one is in the
      top ten: no community left out outranks one that is kept. */
  lemma TopTenKeepsLarger(acc: Acc, c: string)
    requires Uniform(acc, Width) && Valid(acc) && HasKey(acc, c)
    ensures var r := TopTen(acc);
            |r| > 0 && Mean8(Get(acc, c).value.sums) > r[|r| - 1].key ==> exists e | e in r :: e.code == c
  {
    var r := TopTen(acc);
    if |r| > 0 && Mean8(Get(acc, c).value.sums) > r[|r| - 1].key {
      var i :| 0 <= i < |acc| && Keys(acc)[i] == c;
      GetAt(acc, i);
      var e := Ranked(acc)[i];
      assert e.key == Mean8(Get(acc, c).value.sums);
      TopKeepsLarger(Ranked(acc), 10, e);
      assert e in r;
    }
  }
}
