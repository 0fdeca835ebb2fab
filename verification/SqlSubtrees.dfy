/** The `sql` module behind a subtree record: its table is read as an ordered map of contents. */
module SqlSubtrees {
  import opened Oids
  import opened Requests
  import opened SnmprecRoundTrips
  import opened PaddedOids
  import SqlTables
  import opened Subtrees

  /** Every row holds the text of an octet string. */
  predicate AreOctetRows(m: map<Oid, SqlTables.Row>) {
    forall k :: k in m ==> EvaluateValue(m[k].tag, m[k].value).Some?
  }

  function ContentsOf(m: map<Oid, SqlTables.Row>): map<Oid, Content>
    requires AreOctetRows(m)
  {
    map k | k in m :: Content(UnpackTag(m[k].tag).0, EvaluateValue(m[k].tag, m[k].value).value)
  }

  /** `evaluate_value` of a record that names the module: what `variate` replies, as a value. */
  method EvaluateRow(table: SqlTables.SqlTable, q: Query, ghost m: map<Oid, SqlTables.Row>) returns (bind: VarBind)
    requires SqlTables.Represents(table.rows, m) && Fits(q.oid) && !q.setFlag && AreOctetRows(m)
    modifies table
    ensures table.rows == old(table.rows)
    ensures bind == MapAnswer(ContentsOf(m), q)
  {
    hide SqlTables.Represents, Fits, Less, LeastAbove, EvaluateValue;
    LeastAboveIsOne(ContentsOf(m), q.oid);
    var reply, _ := table.Variate(q.oid, q.nextFlag, false, [], [], m);
    match reply
    case Content(oid, tag, value) =>
      var octets := EvaluateValue(tag, value);
      bind := VarBind(oid, Data(Requests.Content(UnpackTag(tag).0, octets.value)));
      assert q.nextFlag ==> IsLeastAbove(ContentsOf(m), q.oid, oid);
    case Refused(oid) =>
      bind := q.NoAnswer();
  }
}
