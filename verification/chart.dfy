/** The bar chart: the ten communities with the largest mean total, with
    their men and women for 2017 (positions 8 and 16 of the sums). A row
    for a community the communities table lacks is fatal here. */
module CommunityChart {
  import opened Wrappers
  import opened Dict
  import opened Rows
  import opened Cleaning
  import opened Fold
  import opened Aggregate
  import opened Ranking

  datatype Bar = Bar(name: string, men: real, women: real)

  /** The bar of one community: its name and its 2017 men and women. */
  function BarOf(communities: Dict<string, string>, acc: Acc, code: string): (b: Bar)
    requires Uniform(acc, Width) && Keys(acc) == Keys(communities) && HasKey(acc, code)
    ensures Get(communities, code) == Some(b.name)
  {
    var slot := Get(acc, code).value;
    assert (code, slot) in acc;
    Bar(Get(communities, code).value, slot.sums[8], slot.sums[16])
  }

  function Chart(communities: Dict<string, string>, relation: Dict<string, string>, rows: seq<Row>): (r: Option<seq<Bar>>)
    requires Valid(communities) && Valid(relation)
    ensures r.None? <==> Accumulate(communities, relation, rows, BlankAfterStrip, AbortOnMissing).None?
    ensures r.Some? ==> |r.value| == if |communities| < 10 then |communities| else 10
  {
    match Accumulate(communities, relation, rows, BlankAfterStrip, AbortOnMissing)
    case None => None
    case Some(acc) =>
      var top := TopTen(acc);
      Some(seq(|top|, i requires 0 <= i < |top| => BarOf(communities, acc, top[i].code)))
  }

  /** Bar `i` belongs to the community ranked `i`-th, and shows the sums of
      the rows mapped to it at the 2017 men and women positions. */
  lemma ChartBar(communities: Dict<string, string>, relation: Dict<string, string>, rows: seq<Row>, i: nat)
    requires Valid(communities) && Valid(relation)
    requires Chart(communities, relation, rows).Some? && i < |Chart(communities, relation, rows).value|
    ensures var acc := Accumulate(communities, relation, rows, BlankAfterStrip, AbortOnMissing).value;
            var code := TopTen(acc)[i].code;
            var bar := Chart(communities, relation, rows).value[i];
            var c := Contribution(Steps(DataRows(rows, 2), relation, BlankAfterStrip), code, Width, ExactWidth);
            Get(communities, code) == Some(bar.name) && bar.men == c[8] && bar.women == c[16]
  {
    var acc := Accumulate(communities, relation, rows, BlankAfterStrip, AbortOnMissing).value;
    var code := TopTen(acc)[i].code;
    assert TopTen(acc)[i] in TopTen(acc);
    AccumulateSums(communities, relation, rows, BlankAfterStrip, AbortOnMissing, code);
  }
}
