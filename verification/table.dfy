/** The community table: every community of the communities table, in
    code order, with its 24 summed values. Rows for a community the table
    lacks are ignored, and a blank cell is one that is empty once its dots
    are dropped and it is stripped. */
module CommunityTable {
  import opened Wrappers
  import opened Dict
  import opened Rows
  import opened Cleaning
  import opened Fold
  import opened Aggregate
  import opened Order

  /** The sums; this report never aborts. */
  function Sums(communities: Dict<string, string>, relation: Dict<string, string>, rows: seq<Row>): (acc: Acc)
    requires Valid(communities) && Valid(relation)
    ensures Keys(acc) == Keys(communities) && Uniform(acc, Width)
    ensures Accumulate(communities, relation, rows, BlankAfterStrip, IgnoreMissing) == Some(acc)
  {
    AccumulateAborts(communities, relation, rows, BlankAfterStrip, IgnoreMissing);
    Accumulate(communities, relation, rows, BlankAfterStrip, IgnoreMissing).value
  }

  datatype Line = Line(code: string, name: string, values: seq<real>)

  /** The line of one community: its name and its sums. */
  function LineOf(communities: Dict<string, string>, acc: Acc, code: string): (line: Line)
    requires HasKey(communities, code) && Keys(acc) == Keys(communities) && Uniform(acc, Width)
    ensures line.code == code && Get(communities, code) == Some(line.name)
    ensures Get(acc, code) == Some(Slot(line.values, Get(acc, code).value.hit)) && |line.values| == Width
  {
    var slot := Get(acc, code).value;
    assert (code, slot) in acc;
    Line(code, Get(communities, code).value, slot.sums)
  }

  /** The lines of the given codes, in their order. */
  function Lines(communities: Dict<string, string>, acc: Acc, codes: seq<string>): (r: seq<Line>)
    requires forall c | c in codes :: HasKey(communities, c)
    requires Keys(acc) == Keys(communities) && Uniform(acc, Width)
    ensures |r| == |codes|
    ensures forall i | 0 <= i < |r| :: r[i].code == codes[i] && Get(communities, codes[i]) == Some(r[i].name)
    ensures forall i | 0 <= i < |r| :: |r[i].values| == Width
    ensures Codes(r, Code) == codes
  {
    var r := seq(|codes|, i requires 0 <= i < |codes| => LineOf(communities, acc, codes[i]));
    assert forall i | 0 <= i < |r| :: Code(r[i]) == codes[i];
    r
  }

  function Code(l: Line): string {
    l.code
  }

  /** One line per community, codes in ascending order, each with the
      community's name and its 24 sums. */
  function Table(communities: Dict<string, string>, relation: Dict<string, string>, rows: seq<Row>): (r: seq<Line>)
    requires Valid(communities) && Valid(relation)
    ensures Codes(r, Code) == Sort(Keys(communities))
    ensures forall i | 0 <= i < |r| :: Get(communities, r[i].code) == Some(r[i].name) && |r[i].values| == Width
  {
    var codes := Sort(Keys(communities));
    SortMembers(Keys(communities));
    Lines(communities, Sums(communities, relation, rows), codes)
  }

  /** The lines are in ascending order of code. */
  lemma TableSorted(communities: Dict<string, string>, relation: Dict<string, string>, rows: seq<Row>)
    requires Valid(communities) && Valid(relation)
    ensures var r := Table(communities, relation, rows);
            forall i, j | 0 <= i < j < |r| :: LessEq(r[i].code, r[j].code)
  {
    var r := Table(communities, relation, rows);
    assert Ascending(Codes(r, Code));
  }

  /** Every community appears exactly once. */
  lemma TableCodes(communities: Dict<string, string>, relation: Dict<string, string>, rows: seq<Row>)
    requires Valid(communities) && Valid(relation)
    ensures var r := Table(communities, relation, rows);
            |r| == |communities| && multiset(Codes(r, Code)) == multiset(Keys(communities))
  {
    SortMembers(Keys(communities));
  }

  /** A line's values are the sums of the rows mapped to its community. */
  lemma TableValues(communities: Dict<string, string>, relation: Dict<string, string>, rows: seq<Row>, i: nat)
    requires Valid(communities) && Valid(relation)
    requires i < |Table(communities, relation, rows)|
    ensures var line := Table(communities, relation, rows)[i];
            line.values == Contribution(Steps(DataRows(rows, 2), relation, BlankAfterStrip), line.code, Width, ExactWidth)
  {
    var line := Table(communities, relation, rows)[i];
    AccumulateSums(communities, relation, rows, BlankAfterStrip, IgnoreMissing, line.code);
  }
}
