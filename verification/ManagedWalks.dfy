/** Walking a recording of octet strings the managing tool has written. */
module ManagedWalks {
  import opened Oids
  import opened Texts
  import opened TextFiles
  import opened Recordings
  import opened SearchTails
  import opened Requests
  import opened Serving
  import opened Walks
  import opened Bulk
  import opened BulkWalks
  import opened ManageRecords
  import opened ManagedRecordings
  import opened SnmprecRecordings

  function BindOf(r: Rec): VarBind {
    VarBind(r.oid, Data(r.content))
  }

  /** The records above an OID, in order, as variable bindings. */
  function Above(rs: seq<Rec>, oid: Oid): seq<VarBind> {
    if rs == [] then [] else (if Less(oid, rs[0].oid) then [BindOf(rs[0])] else []) + Above(rs[1..], oid)
  }

  ghost predicate Ascends(binds: seq<VarBind>) {
    forall i, j :: 0 <= i < j < |binds| ==> Less(binds[i].oid, binds[j].oid)
  }

  lemma {:induction false} AboveIs(rs: seq<Rec>, oid: Oid)
    requires IsAscending(rs)
    ensures Ascends(Above(rs, oid))
    ensures forall b :: b in Above(rs, oid) <==> Less(oid, b.oid) && b.value.Data? && Rec(b.oid, b.value.content) in rs
  {
    hide Less;
    if rs != [] {
      var rest := Above(rs[1..], oid);
      AscendingHead(rs);
      AboveIs(rs[1..], oid);
      assert forall r :: r in rs <==> r == rs[0] || r in rs[1..];
      if Less(oid, rs[0].oid) {
        forall j | 0 <= j < |rest|
          ensures Less(rs[0].oid, rest[j].oid)
        {
          assert rest[j] in rest;
        }
      }
    }
  }

  lemma HeadIsIn(a: seq<VarBind>)
    ensures a != [] ==> a[0] in a
  {}

  lemma SplitsHead(a: seq<VarBind>)
    requires a != [] && Ascends(a)
    ensures Ascends(a[1..]) && forall x :: x in a[1..] <==> x in a && x != a[0]
  {
    hide Less;
    forall x | x in a[1..]
      ensures x != a[0]
    {
      LessIrreflexive(x.oid);
    }
  }

  /** Ascending lists of the same variable bindings are the same. */
  lemma {:induction false} SameAscending(a: seq<VarBind>, b: seq<VarBind>)
    requires Ascends(a) && Ascends(b) && forall x :: x in a <==> x in b
    ensures a == b
    decreases |a|
  {
    hide Less;
    HeadIsIn(a);
    HeadIsIn(b);
    if a != [] && b != [] {
      if a[0] != b[0] {
        LessAsymmetric(a[0].oid, b[0].oid);
        assert false;
      }
      SplitsHead(a);
      SplitsHead(b);
      SameAscending(a[1..], b[1..]);
      assert a == [a[0]] + a[1..] && b == [b[0]] + b[1..];
    }
  }

  /** The records served above an OID are records held. */
  lemma ServedIsHeld(c: Bytes, rs: seq<Rec>, oid: Oid, b: VarBind)
    requires Holds(c, rs) && b in ServedFrom(PARSER, ContentOf, c, Cut(PARSER, c, oid))
    ensures Less(oid, b.oid) && b.value.Data? && Rec(b.oid, b.value.content) in rs
  {
    hide Less, Cut, IsRecord, OidAt, ContentOf, ServedFrom, Sorted, Readable, Canonical, Line, NoSubtrees,
      LastLineIsRecord;
    var p := Cut(PARSER, c, oid);
    CutSplits(PARSER, c, oid);
    ServedIsTheMap(PARSER, ContentOf, c, p);
    var s: nat :| Serves(ContentOf, c, s) && p <= s && b == BindAt(PARSER, ContentOf, c, s);
    var r :| r in rs && IsRecordOf(c, s, r);
    assert b == BindOf(r);
  }

  /** And every record held above the OID is served. */
  lemma HeldIsServed(c: Bytes, rs: seq<Rec>, oid: Oid, r: Rec)
    requires Holds(c, rs) && r in rs && Less(oid, r.oid)
    ensures BindOf(r) in ServedFrom(PARSER, ContentOf, c, Cut(PARSER, c, oid))
  {
    hide Less, Cut, IsRecord, OidAt, ContentOf, ServedFrom, Sorted, Readable, Canonical, Line, NoSubtrees,
      LastLineIsRecord;
    CutSplits(PARSER, c, oid);
    ServedIsTheMap(PARSER, ContentOf, c, Cut(PARSER, c, oid));
    var s: nat :| IsRecord(c, s) && IsRecordOf(c, s, r);
    assert Serves(ContentOf, c, s) && BindOf(r) == BindAt(PARSER, ContentOf, c, s);
  }

  lemma ServedAscends(c: Bytes, oid: Oid)
    requires Sorted(PARSER, c)
    ensures Ascends(ServedFrom(PARSER, ContentOf, c, Cut(PARSER, c, oid)))
  {
    hide Less, Cut, IsRecord, OidAt, ContentOf, ServedFrom, Sorted;
    CutSplits(PARSER, c, oid);
    ServedIsTheMap(PARSER, ContentOf, c, Cut(PARSER, c, oid));
  }

  lemma HoldsSorted(c: Bytes, rs: seq<Rec>)
    requires Holds(c, rs)
    ensures Sorted(PARSER, c) && LastLineIsRecord(c) && NoSubtrees(PARSER, c)
    ensures forall s: nat :: IsRecord(c, s) ==> Serves(ContentOf, c, s)
  {
    hide Sorted, LastLineIsRecord, NoSubtrees, IsRecord, ContentOf;
  }

  /** What a recording that holds the records serves above an OID: just those above it. */
  lemma ServesWhatItHolds(c: Bytes, rs: seq<Rec>, oid: Oid)
    requires Holds(c, rs) && IsAscending(rs)
    ensures ServedFrom(PARSER, ContentOf, c, Cut(PARSER, c, oid)) == Above(rs, oid)
  {
    hide Less, Cut, ServedFrom, Holds, IsAscending, Above, Ascends, ContentOf;
    var served := ServedFrom(PARSER, ContentOf, c, Cut(PARSER, c, oid));
    AboveIs(rs, oid);
    HoldsSorted(c, rs);
    ServedAscends(c, oid);
    forall b
      ensures b in served <==> b in Above(rs, oid)
    {
      if b in served {
        ServedIsHeld(c, rs, oid, b);
      }
      if b in Above(rs, oid) {
        HeldIsServed(c, rs, oid, Rec(b.oid, b.value.content));
      }
    }
    SameAscending(served, Above(rs, oid));
  }

  lemma ManagedIsWalkable(files: seq<Bytes>, evaluate: Bytes -> Evaluated, nohex: bool, options: Options, oid: Oid)
    requires options.sortRecords && options.deduplicate && AreOctetStrings(Kept(files, evaluate, options))
    ensures var o := Expected(files, evaluate, Format(nohex), options);
            o.Done? ==>
              && Sorted(PARSER, o.output) && IsWalkable(PARSER, ContentOf, o.output, oid)
              && ServedFrom(PARSER, ContentOf, o.output, Cut(PARSER, o.output, oid))
                 == Above(Merged(Kept(files, evaluate, options)), oid)
  {
    hide Expected, Kept, Merged, Format, ContentOf, AreOctetStrings, Above, ServedFrom, Cut, IsWalkable, IsRecord,
      Sorted, IsAscending, OfOid, Holds;
    var o := Expected(files, evaluate, Format(nohex), options);
    if o.Done? {
      ManagedRecordingHolds(files, evaluate, nohex, options);
      MergedIsSorted(Kept(files, evaluate, options));
      ServesWhatItHolds(o.output, Merged(Kept(files, evaluate, options)), oid);
      HoldsSorted(o.output, Merged(Kept(files, evaluate, options)));
      CleanRecordingsWalk(PARSER, ContentOf, o.output, oid);
    }
  }

  /** A GETNEXT walk of a recording that was sorted, de-duplicated and written lists, from any OID,
      just the OIDs kept above it, in ascending order, each with the content read first. */
  lemma ManagedRecordingWalks(files: seq<Bytes>, evaluate: Bytes -> Evaluated,
                              nohex: bool, options: Options, oid: Oid, n: nat)
    requires options.sortRecords && options.deduplicate && AreOctetStrings(Kept(files, evaluate, options))
    requires n > |Above(Merged(Kept(files, evaluate, options)), oid)|
    ensures var o := Expected(files, evaluate, Format(nohex), options);
            o.Done? ==>
              Walk(x => GetNext(PARSER, ContentOf, o.output, x), oid, n)
                == Above(Merged(Kept(files, evaluate, options)), oid)
  {
    hide Expected, Kept, Merged, Format, ContentOf, Holds, GetNext, AreOctetStrings, Above, Walk, ServedFrom, Cut,
      IsWalkable;
    var o := Expected(files, evaluate, Format(nohex), options);
    if o.Done? {
      ManagedIsWalkable(files, evaluate, nohex, options, oid);
      WalkVisitsAll(PARSER, ContentOf, o.output, oid, n);
    }
  }

  /** And so does a chain of GETBULKs long enough, whatever the limits. */
  lemma ManagedRecordingBulkWalks(files: seq<Bytes>, evaluate: Bytes -> Evaluated, nohex: bool, options: Options,
                                  size: VarBind -> Octets, oid: Oid, limits: seq<Limits>, rsps: seq<seq<VarBind>>)
    requires options.sortRecords && options.deduplicate && AreOctetStrings(Kept(files, evaluate, options))
    requires forall l :: l in limits ==> l.Usable()
    requires |rsps| > |Above(Merged(Kept(files, evaluate, options)), oid)|
    ensures var o := Expected(files, evaluate, Format(nohex), options);
            o.Done? && IsChain(x => GetNext(PARSER, ContentOf, o.output, x), size, oid, limits, rsps) ==>
              UntilEnd(Flatten(rsps)) == Above(Merged(Kept(files, evaluate, options)), oid)
  {
    hide Expected, Kept, Merged, Format, ContentOf, Holds, GetNext, AreOctetStrings, Above, ServedFrom, Cut, IsWalkable,
      IsChain, UntilEnd;
    var o := Expected(files, evaluate, Format(nohex), options);
    if o.Done? && IsChain(x => GetNext(PARSER, ContentOf, o.output, x), size, oid, limits, rsps) {
      ManagedIsWalkable(files, evaluate, nohex, options, oid);
      ChainVisitsAll(PARSER, ContentOf, o.output, size, oid, limits, rsps);
    }
  }
}
