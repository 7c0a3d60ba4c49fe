/** Year-over-year changes of a series of eight yearly values laid out
    along the list of years (most recent first), as the province and the
    community variation reports compute them. */
module Variation {
  import opened Wrappers
  import opened Dict

  /** An absolute change and the relative change in percent. */
  datatype Delta = Delta(abs: real, rel: real)

  /** The change from `prev` to `cur`. The relative change is 0 when the
      earlier value is 0, instead of a division by zero. */
  function Change(cur: real, prev: real): (d: Delta)
    ensures cur == prev + d.abs
    ensures prev != 0.0 ==> d.rel * prev == d.abs * 100.0
    ensures prev == 0.0 ==> d.rel == 0.0
  {
    var a := cur - prev;
    Delta(a, if prev != 0.0 then a / prev * 100.0 else 0.0)
  }

  /** The change for year `y`: the value at the first position of `y` in
      `years` against the value just after it (the year before), or `None`
      when the series has no value after it. */
  function YearChange(series: seq<real>, years: seq<int>, y: int): (r: Option<Delta>)
    requires y in years
    ensures r.None? <==> FirstIndex(years, y) + 1 >= |series|
    ensures r.Some? ==> var i := FirstIndex(years, y);
                        series[i] == series[i + 1] + r.value.abs
  {
    var i := FirstIndex(years, y);
    if i + 1 < |series| then Some(Change(series[i], series[i + 1])) else None
  }

  /** The changes for every requested year, in the requested order. */
  function Changes(series: seq<real>, years: seq<int>, wanted: seq<int>): (r: seq<Option<Delta>>)
    requires forall j | 0 <= j < |wanted| :: wanted[j] in years
    ensures |r| == |wanted|
    ensures forall j | 0 <= j < |wanted| :: r[j] == YearChange(series, years, wanted[j])
  {
    seq(|wanted|, j requires 0 <= j < |wanted| => YearChange(series, years, wanted[j]))
  }

  /** The community report writes 0 and 0 where there is no earlier year. */
  function OrZero(r: Option<Delta>): Delta {
    r.GetOr(Delta(0.0, 0.0))
  }

  /** In a list of distinct years, a year's first position is its only one. */
  lemma FirstIndexDistinct(years: seq<int>, j: nat)
    requires Distinct(years) && j < |years|
    ensures FirstIndex(years, years[j]) == j
  {
  }

  /** The sum of the absolute changes the community report writes for the
      years `wanted`. */
  function AbsTotal(series: seq<real>, years: seq<int>, wanted: seq<int>): real
    requires forall j | 0 <= j < |wanted| :: wanted[j] in years
  {
    if |wanted| == 0 then 0.0
    else AbsTotal(series, years, wanted[..|wanted| - 1])
         + OrZero(YearChange(series, years, wanted[|wanted| - 1])).abs
  }

  /** The yearly absolute changes over the first `m` years add up to the
      change over the whole span: the value of the most recent year minus
      the value `m` years before it. */
  lemma {:induction false} Telescope(series: seq<real>, years: seq<int>, m: nat)
    requires Distinct(years) && |series| == |years| && m < |years|
    ensures AbsTotal(series, years, years[..m]) == series[0] - series[m]
  {
    if m > 0 {
      var w := years[..m];
      assert w[..m - 1] == years[..m - 1];
      Telescope(series, years, m - 1);
      FirstIndexDistinct(years, m - 1);
    }
  }

  /** The most recent year of a full series has a change; the oldest has
      none. */
  lemma EndsOfSeries(series: seq<real>, years: seq<int>)
    requires Distinct(years) && |series| == |years| >= 2
    ensures YearChange(series, years, years[0]).Some?
    ensures YearChange(series, years, years[|years| - 1]).None?
  {
    FirstIndexDistinct(years, 0);
    FirstIndexDistinct(years, |years| - 1);
  }

  /** The years the province report writes, `range(2017, 2010, -1)`. */
  const ProvinceYears: seq<int> := [2017, 2016, 2015, 2014, 2013, 2012, 2011]

  /** One province row of the variation table: for each year from 2017 down
      to 2011, the change or `None` (written "-"). Every such year must be
      in `years`, or the report stops with ValueError. */
  function ProvinceChanges(series: seq<real>, years: seq<int>): (r: seq<Option<Delta>>)
    requires forall j | 0 <= j < |ProvinceYears| :: ProvinceYears[j] in years
    ensures |r| == 7
    ensures forall j | 0 <= j < 7 :: r[j] == YearChange(series, years, ProvinceYears[j])
  {
    Changes(series, years, ProvinceYears)
  }

  /** When the eight distinct years start with 2017 down to 2011, every
      year written has a change, and each compares a year with the year
      before it. */
  lemma ProvinceChangesFull(series: seq<real>, years: seq<int>)
    requires Distinct(years) && |series| == |years| == 8
    requires forall j | 0 <= j < 7 :: years[j] == ProvinceYears[j]
    ensures forall j | 0 <= j < 7 :: ProvinceChanges(series, years)[j] == Some(Change(series[j], series[j + 1]))
  {
    forall j | 0 <= j < 7 ensures FirstIndex(years, ProvinceYears[j]) == j {
      FirstIndexDistinct(years, j);
    }
  }

  /** The community report's cells for one series: the change for every
      requested year, 0 and 0 where there is no earlier year. */
  function CommunityChanges(series: seq<real>, years: seq<int>, wanted: seq<int>): (r: seq<Delta>)
    requires forall j | 0 <= j < |wanted| :: wanted[j] in years
    ensures |r| == |wanted|
    ensures forall j | 0 <= j < |wanted| :: r[j] == OrZero(YearChange(series, years, wanted[j]))
  {
    seq(|wanted|, j requires 0 <= j < |wanted| => OrZero(YearChange(series, years, wanted[j])))
  }
}
