/** The line chart: for the ten communities with the largest mean total,
    their eight totals in chronological order (the sums hold the most
    recent year first). A blank cell must be exactly empty, and a row for a
    community the communities table lacks is fatal. */
module CommunityTrend {
  import opened Wrappers
  import opened Dict
  import opened Rows
  import opened Cleaning
  import opened Vec
  import opened Fold
  import opened Aggregate
  import opened Ranking

  datatype Trend = Trend(name: string, totals: seq<real>)

  /** The line of one community: its name and its eight totals, oldest
      year first. */
  function TrendOf(communities: Dict<string, string>, acc: Acc, code: string): (t: Trend)
    requires Uniform(acc, Width) && Keys(acc) == Keys(communities) && HasKey(acc, code)
    ensures Get(communities, code) == Some(t.name)
    ensures |t.totals| == 8
    ensures forall j | 0 <= j < 8 :: t.totals[j] == Get(acc, code).value.sums[7 - j]
  {
    var slot := Get(acc, code).value;
    assert (code, slot) in acc;
    Trend(Get(communities, code).value, Reverse(slot.sums[..8]))
  }

  /** Reversing the plotted line gives back the totals as the sums hold
      them. */
  lemma TrendUndone(communities: Dict<string, string>, acc: Acc, code: string)
    requires Uniform(acc, Width) && Keys(acc) == Keys(communities) && HasKey(acc, code)
    ensures Reverse(TrendOf(communities, acc, code).totals) == Get(acc, code).value.sums[..8]
  {
    var slot := Get(acc, code).value;
    assert (code, slot) in acc;
    ReverseTwice(slot.sums[..8]);
  }

  function Trends(communities: Dict<string, string>, relation: Dict<string, string>, rows: seq<Row>): (r: Option<seq<Trend>>)
    requires Valid(communities) && Valid(relation)
    ensures r.None? <==> Accumulate(communities, relation, rows, BlankExact, AbortOnMissing).None?
    ensures r.Some? ==> |r.value| == if |communities| < 10 then |communities| else 10
  {
    match Accumulate(communities, relation, rows, BlankExact, AbortOnMissing)
    case None => None
    case Some(acc) =>
      var top := TopTen(acc);
      Some(seq(|top|, i requires 0 <= i < |top| => TrendOf(communities, acc, top[i].code)))
  }

  /** Each line of the chart is a top-ten community's name and the eight
      totals its rows add up to, oldest year first. */
  lemma TrendLine(communities: Dict<string, string>, relation: Dict<string, string>, rows: seq<Row>, i: nat)
    requires Valid(communities) && Valid(relation)
    requires Trends(communities, relation, rows).Some? && i < |Trends(communities, relation, rows).value|
    ensures var acc := Accumulate(communities, relation, rows, BlankExact, AbortOnMissing).value;
            var code := TopTen(acc)[i].code;
            var t := Trends(communities, relation, rows).value[i];
            var c := Contribution(Steps(DataRows(rows, 2), relation, BlankExact), code, Width, ExactWidth);
            Get(communities, code) == Some(t.name) && t.totals == Reverse(c[..8])
  {
    var acc := Accumulate(communities, relation, rows, BlankExact, AbortOnMissing).value;
    var code := TopTen(acc)[i].code;
    assert TopTen(acc)[i] in TopTen(acc);
    AccumulateSums(communities, relation, rows, BlankExact, AbortOnMissing, code);
  }
}
