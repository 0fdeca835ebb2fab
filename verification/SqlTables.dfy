/** The database table behind the `sql` variation module, and its requests. */
module SqlTables {
  import opened Wrappers
  import opened Oids
  import opened Texts
  import opened PaddedOids

  /** A row without its key. */
  datatype Row = Row(tag: Bytes, value: Bytes, maxaccess: Bytes)

  /** The text "read-write". */
  const READ_WRITE: Bytes := [114, 101, 97, 100, 45, 119, 114, 105, 116, 101]

  /** The answer to a request: a row's content, the error status of the request, or the value written. */
  datatype SqlReply = Content(oid: Oid, tag: Bytes, value: Bytes) | Refused(oid: Oid) | Written(oid: Oid, tag: Bytes)

  /** The rows are those of a map from OIDs, keyed by padded text. */
  ghost predicate Represents(rows: map<Bytes, Row>, m: map<Oid, Row>) {
    && (forall oid :: oid in m ==> Fits(oid) && SqlOid(oid) in rows && rows[SqlOid(oid)] == m[oid])
    && (forall key :: key in rows ==> exists oid :: oid in m && key == SqlOid(oid))
  }

  ghost predicate IsLeastKeyAbove(keys: set<Bytes>, x: Bytes, key: Bytes) {
    key in keys && Less(x, key) && forall k :: k in keys && Less(x, k) ==> AtMost(key, k)
  }

  lemma KeyOf(rows: map<Bytes, Row>, m: map<Oid, Row>, oid: Oid)
    requires Represents(rows, m) && Fits(oid)
    ensures SqlOid(oid) in rows <==> oid in m
    ensures oid in m ==> rows[SqlOid(oid)] == m[oid]
  {
    hide SqlOid, Fits;
    if SqlOid(oid) in rows {
      var o :| o in m && SqlOid(oid) == SqlOid(o);
      PaddingKeepsOrder(oid, o);
    }
  }

  lemma UpdateRepresents(rows: map<Bytes, Row>, m: map<Oid, Row>, oid: Oid, row: Row)
    requires Represents(rows, m) && Fits(oid)
    ensures Represents(rows[SqlOid(oid) := row], m[oid := row])
  {
    hide SqlOid, Fits;
    forall o | o in m && o != oid
      ensures SqlOid(o) != SqlOid(oid)
    {
      PaddingKeepsOrder(o, oid);
    }
    var rows', m' := rows[SqlOid(oid) := row], m[oid := row];
    forall key | key in rows'
      ensures exists o :: o in m' && key == SqlOid(o)
    {
      if key != SqlOid(oid) {
        var o :| o in m && key == SqlOid(o);
        assert o in m';
      } else {
        assert oid in m';
      }
    }
  }

  /** The least key above a padded OID is the key of the least OID above, and there is one just when
      there is the other. */
  lemma LeastKeyIsLeastOid(rows: map<Bytes, Row>, m: map<Oid, Row>, oid: Oid)
    requires Represents(rows, m) && Fits(oid)
    ensures forall key :: IsLeastKeyAbove(rows.Keys, SqlOid(oid), key) ==>
              var k := OidOfSql(key); Fits(k) && SqlOid(k) == key && IsLeastAbove(m, oid, k)
    ensures (forall key :: key in rows ==> !Less(SqlOid(oid), key)) <==> (forall k :: k in m ==> !Less(oid, k))
  {
    hide SqlOid, Fits, Less, OidOfSql;
    forall k | k in m
      ensures SqlOid(k) in rows && Fits(k) && (Less(SqlOid(oid), SqlOid(k)) <==> Less(oid, k))
    {
      PaddingKeepsOrder(oid, k);
    }
    forall key | IsLeastKeyAbove(rows.Keys, SqlOid(oid), key)
      ensures var k := OidOfSql(key); Fits(k) && SqlOid(k) == key && IsLeastAbove(m, oid, k)
    {
      var k :| k in m && key == SqlOid(k);
      UnpaddingInverts(k);
      forall j | j in m && Less(oid, j)
        ensures AtMost(k, j)
      {
        PaddingKeepsOrder(k, j);
      }
    }
    forall key | key in rows
      ensures exists k :: k in m && key == SqlOid(k)
    {}
  }

  class SqlTable {
    var rows: map<Bytes, Row>

    constructor ()
      ensures rows == map[]
    {
      rows := map[];
    }

    /** `select oid ... where oid > x order by oid limit 1`. */
    method SelectNext(x: Bytes) returns (key: Option<Bytes>)
      ensures key.Some? ==> IsLeastKeyAbove(rows.Keys, x, key.value)
      ensures key.None? ==> forall k :: k in rows ==> !Less(x, k)
    {
      hide Less;
      var left := rows.Keys;
      key := None;
      while left != {}
        invariant left <= rows.Keys
        invariant key.Some? ==> IsLeastKeyAbove(rows.Keys - left, x, key.value)
        invariant key.None? ==> forall k :: k in rows.Keys - left ==> !Less(x, k)
        decreases |left|
      {
        var k :| k in left;
        left := left - {k};
        if Less(x, k) {
          if key.None? {
            key := Some(k);
          } else if Less(k, key.value) {
            forall j | j in rows.Keys - left && Less(x, j)
              ensures AtMost(k, j)
            {
              if j != k && j != key.value {
                LessTransitive(k, key.value, j);
              }
            }
            key := Some(k);
          } else {
            LessTotal(k, key.value);
          }
        }
      }
    }

    /** `variate`: SET writes a writable or new row; GET reads a row; GETNEXT reads the numerically least row above. */
    method Variate(origOid: Oid, nextFlag: bool, setFlag: bool, newTag: Bytes, newValue: Bytes, ghost m: map<Oid, Row>)
      returns (reply: SqlReply, ghost m': map<Oid, Row>)
      requires Represents(rows, m) && Fits(origOid)
      modifies this
      ensures Represents(rows, m')
      ensures setFlag ==>
                if origOid in m && m[origOid].maxaccess != READ_WRITE then reply == Refused(origOid) && m' == m
                else reply == Written(origOid, newTag) && m' == m[origOid := Row(newTag, newValue, READ_WRITE)]
      ensures !setFlag ==> m' == m && rows == old(rows)
      ensures !setFlag && !nextFlag ==>
                reply == if origOid in m then Content(origOid, m[origOid].tag, m[origOid].value) else Refused(origOid)
      ensures !setFlag && nextFlag ==>
                if forall k :: k in m ==> !Less(origOid, k) then reply == Refused(origOid)
                else reply.Content? && IsLeastAbove(m, origOid, reply.oid)
                     && reply.tag == m[reply.oid].tag && reply.value == m[reply.oid].value
    {
      hide SqlOid, Fits, Less, OidOfSql, Represents, IsLeastKeyAbove;
      var oid := origOid;
      var sqlOid := SqlOid(oid);
      KeyOf(rows, m, oid);
      m' := m;
      if setFlag {
        if sqlOid in rows {
          if rows[sqlOid].maxaccess != READ_WRITE {
            return Refused(oid), m;
          }
          UpdateRepresents(rows, m, oid, Row(newTag, newValue, rows[sqlOid].maxaccess));
          rows := rows[sqlOid := Row(newTag, newValue, rows[sqlOid].maxaccess)];
        } else {
          UpdateRepresents(rows, m, oid, Row(newTag, newValue, READ_WRITE));
          rows := rows[sqlOid := Row(newTag, newValue, READ_WRITE)];
        }
        return Written(oid, newTag), m[oid := Row(newTag, newValue, READ_WRITE)];
      }
      if nextFlag {
        LeastKeyIsLeastOid(rows, m, oid);
        var key := SelectNext(sqlOid);
        if key.None? {
          return Refused(oid), m;
        }
        oid := OidOfSql(key.value);
        sqlOid := SqlOid(oid);
        KeyOf(rows, m, oid);
      }
      if sqlOid in rows {
        return Content(oid, rows[sqlOid].tag, rows[sqlOid].value), m;
      }
      return Refused(oid), m;
    }

    /** `record`: writes a row whatever its access. */
    method Record(oid: Oid, tag: Bytes, value: Bytes, ghost m: map<Oid, Row>)
      requires Represents(rows, m) && Fits(oid)
      modifies this
      ensures var access := if oid in m then m[oid].maxaccess else READ_WRITE;
              Represents(rows, m[oid := Row(tag, value, access)])
    {
      hide SqlOid, Fits, Represents;
      var sqlOid := SqlOid(oid);
      KeyOf(rows, m, oid);
      if sqlOid in rows {
        UpdateRepresents(rows, m, oid, Row(tag, value, rows[sqlOid].maxaccess));
        rows := rows[sqlOid := Row(tag, value, rows[sqlOid].maxaccess)];
      } else {
        UpdateRepresents(rows, m, oid, Row(tag, value, READ_WRITE));
        rows := rows[sqlOid := Row(tag, value, READ_WRITE)];
      }
    }
  }
}
