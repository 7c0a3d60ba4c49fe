/** The two lookup tables read from HTML tables (`ler_comunidades` and
    `ler_relacao_prov_cca`). A row is the list of its cells' texts; the
    HTML parsing that produces those texts is not part of this model.
    Both readers keep a row whose code cell is a numeral and assign
    `code -> value` in a dict, so a repeated code keeps its first position
    and its last value. */
module Lookup {
  import opened Wrappers
  import opened Text
  import opened Dict

  type Row = seq<string>

  /** Which table is read: communities (`codigo -> nome`, code in cell 0,
      name in cell 1) or the province relation (`cod_prov -> cod_ccaa`,
      province code in cell 2, community code in cell 0). */
  datatype Table = Communities | Relation

  function KeyColumn(t: Table): nat {
    match t
    case Communities => 0
    case Relation => 2
  }

  function ValueColumn(t: Table): nat {
    match t
    case Communities => 1
    case Relation => 0
  }

  /** The row is long enough and its key cell is a numeral, so it is read;
      header rows and short rows are skipped. */
  predicate Accepts(t: Table, row: Row) {
    |row| >= KeyColumn(t) + 1 && |row| >= ValueColumn(t) + 1 && IsNumeral(row[KeyColumn(t)])
  }

  /** The assignment a row makes, if any. */
  function Assignment(t: Table): Row -> Option<(string, string)> {
    row => if Accepts(t, row) then Some((row[KeyColumn(t)], row[ValueColumn(t)])) else None
  }

  /** The reader's loop over the table rows. */
  function Read(t: Table, rows: seq<Row>): Dict<string, string> {
    Gather(rows, Assignment(t))
  }

  function ReadCommunities(rows: seq<Row>): Dict<string, string> {
    Read(Communities, rows)
  }

  function ReadRelation(rows: seq<Row>): Dict<string, string> {
    Read(Relation, rows)
  }

  /** A code is in the table exactly when some row with that code in its
      key cell was accepted. */
  lemma ReadKeys(t: Table, rows: seq<Row>, k: string)
    ensures HasKey(Read(t, rows), k)
            <==> exists i | 0 <= i < |rows| :: Accepts(t, rows[i]) && rows[i][KeyColumn(t)] == k
  {
    GatherKeys(rows, Assignment(t), k);
    if exists i | 0 <= i < |rows| :: Accepts(t, rows[i]) && rows[i][KeyColumn(t)] == k {
      var i :| 0 <= i < |rows| && Accepts(t, rows[i]) && rows[i][KeyColumn(t)] == k;
      assert Assignment(t)(rows[i]).Some? && Assignment(t)(rows[i]).value.0 == k;
    }
  }

  /** Every key of the table is a numeral: header rows never get in. */
  lemma ReadKeysNumeric(t: Table, rows: seq<Row>, k: string)
    requires HasKey(Read(t, rows), k)
    ensures IsNumeral(k)
  {
    ReadKeys(t, rows, k);
  }

  /** Like every dict, the table holds each code once. */
  lemma ReadValid(t: Table, rows: seq<Row>)
    ensures Valid(Read(t, rows))
  {
    GatherValid(rows, Assignment(t));
  }

  /** A code reads the value cell of the LAST accepted row that has it. */
  lemma ReadLast(t: Table, rows: seq<Row>, i: nat)
    requires i < |rows| && Accepts(t, rows[i])
    requires forall j | i < j < |rows| :: !(Accepts(t, rows[j]) && rows[j][KeyColumn(t)] == rows[i][KeyColumn(t)])
    ensures Get(Read(t, rows), rows[i][KeyColumn(t)]) == Some(rows[i][ValueColumn(t)])
  {
    var f := Assignment(t);
    assert forall j | i < j < |rows| :: f(rows[j]).None? || f(rows[j]).value.0 != f(rows[i]).value.0;
    GatherLast(rows, f, i);
  }

  /** The table keeps the order in which codes are first read: a code
      listed before another was first assigned before it. */
  lemma ReadOrder(t: Table, rows: seq<Row>, i: nat, j: nat)
    requires i < j < |Read(t, rows)|
    ensures var ks := Keys(Chosen(rows, Assignment(t)));
            var d := Read(t, rows);
            d[i].0 in ks && d[j].0 in ks && FirstIndex(ks, d[i].0) < FirstIndex(ks, d[j].0)
  {
    GatherIsFromPairs(rows, Assignment(t));
    FromPairsOrder(Chosen(rows, Assignment(t)), i, j);
  }
}
