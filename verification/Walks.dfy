/** Walking a recording with GETNEXT. */
module Walks {
  import opened Oids
  import opened Texts
  import opened TextFiles
  import opened Recordings
  import opened FileSearch
  import opened SearchTails
  import opened Requests
  import opened Serving

  /** GETNEXT on one OID. */
  ghost function GetNext(parser: TextParser, contents: Contents, c: Bytes, oid: Oid): VarBind {
    AnswerTo(parser, contents, c, Query(oid, NoSuchInstance, true, false, 1, 0))
  }

  type Next = Oid -> VarBind

  /** GETNEXT on each of a list of variable bindings. */
  function ReadNext(next: Next, binds: seq<VarBind>): (r: seq<VarBind>)
    ensures |r| == |binds|
    ensures forall i :: 0 <= i < |r| ==> r[i] == next(binds[i].oid)
  {
    seq(|binds|, i requires 0 <= i < |binds| => next(binds[i].oid))
  }

  /** GETNEXT applied `k` times. */
  function Repeated(next: Next, oid: Oid, k: nat): VarBind
    requires k >= 1
  {
    if k == 1 then next(oid) else next(Repeated(next, oid, k - 1).oid)
  }

  /** Up to `n` GETNEXTs, each from the OID last returned, until endOfMib. */
  function Walk(next: Next, oid: Oid, n: nat): seq<VarBind>
    decreases n
  {
    if n == 0 || next(oid).value.EndOfMib? then [] else [next(oid)] + Walk(next, next(oid).oid, n - 1)
  }

  /** The servable records from `p` on. */
  function ServedFrom(parser: TextParser, contents: Contents, c: Bytes, p: nat): seq<VarBind>
    requires p <= |c|
    decreases |c| - p
  {
    var s := NextServed(contents, c, p);
    if s < |c| && contents(Line(c, s)).Some? then
      [BindAt(parser, contents, c, s)] + ServedFrom(parser, contents, c, LineEnd(c, s))
    else []
  }

  /** Before each servable record at most a hundred broken ones are read in a row, `extra` ones
      included at first, and none of the servable records is a subtree record. */
  predicate RunsFit(parser: TextParser, contents: Contents, c: Bytes, p: nat, extra: nat)
    requires p <= |c|
    decreases |c| - p
  {
    var s := NextServed(contents, c, p);
    s < |c| && contents(Line(c, s)).Some? ==>
      && extra + Skipped(contents, c, p) <= MAX_BROKEN_RECORDS
      && !parser.IsSubtree(Line(c, s)) && RunsFit(parser, contents, c, LineEnd(c, s), 0)
  }

  /** Whether a walk gets through: no subtree record answers at its start, and unless nothing above
      can be served, the start can be located and runs of broken records are short enough. */
  ghost predicate IsWalkable(parser: TextParser, contents: Contents, c: Bytes, oid: Oid) {
    var p := Cut(parser, c, oid);
    && !IsDiverted(parser, contents, c, oid)
    && (ServedFrom(parser, contents, c, p) == []
        || (IsLocated(parser, c, oid) && RunsFit(parser, contents, c, p, Extra(parser, contents, c, oid))))
  }

  /** Behind an OID that is a record's own, the walk resumes with the next line, unless it is a subtree record's. */
  lemma CutAtRecord(parser: TextParser, contents: Contents, c: Bytes, s: nat)
    requires Sorted(parser, c) && IsRecord(c, s)
    ensures var oid := OidAt(parser, c, s);
            && Cut(parser, c, oid) == LineEnd(c, s) && IsLocated(parser, c, oid)
            && Diversion(parser, c, oid) == (if parser.IsSubtree(Line(c, s)) then s else -1)
            && (!parser.IsSubtree(Line(c, s)) ==> Extra(parser, contents, c, oid) == 0)
  {
    hide ScanFrom, Less, RecordAt, LineEnd;
    PivotHits(parser, c, s);
    ScanFindsFirst(parser, c, OidAt(parser, c, s), 0);
    FirstAtLeastUnique(parser, c, OidAt(parser, c, s), s, ScanFrom(parser, c, OidAt(parser, c, s), 0));
  }

  lemma WalkableBehind(parser: TextParser, contents: Contents, c: Bytes, s: nat)
    requires Sorted(parser, c) && Serves(contents, c, s)
    ensures LineEnd(c, s) <= |c|
    ensures IsWalkable(parser, contents, c, OidAt(parser, c, s))
            <==> !parser.IsSubtree(Line(c, s)) && RunsFit(parser, contents, c, LineEnd(c, s), 0)
  {
    hide Less, Cut, RecordAt, LineEnd, IsNoise, NextServed, IsLocated, Skipped, Extra, Diversion;
    LineAfterRecord(c, s);
    CutAtRecord(parser, contents, c, s);
  }

  lemma ServedUnfolds(parser: TextParser, contents: Contents, c: Bytes, p: nat, extra: nat)
    requires p <= |c| && IsBoundary(c, p)
    ensures var s := NextServed(contents, c, p);
            if s == |c| then ServedFrom(parser, contents, c, p) == [] && RunsFit(parser, contents, c, p, extra)
            else
              && Serves(contents, c, s) && p <= s && LineEnd(c, s) <= |c|
              && ServedFrom(parser, contents, c, p)
                 == [BindAt(parser, contents, c, s)] + ServedFrom(parser, contents, c, LineEnd(c, s))
              && (RunsFit(parser, contents, c, p, extra) <==>
                    && extra + Skipped(contents, c, p) <= MAX_BROKEN_RECORDS
                    && !parser.IsSubtree(Line(c, s)) && RunsFit(parser, contents, c, LineEnd(c, s), 0))
  {
    hide RecordAt, IsNoise, NextServed, Skipped;
    NextServedIsFirst(contents, c, p);
  }

  lemma WalkUnfolds(next: Next, oid: Oid, n: nat)
    requires n > 0
    ensures Walk(next, oid, n) ==
            if next(oid).value.EndOfMib? then [] else [next(oid)] + Walk(next, next(oid).oid, n - 1)
  {}

  /** A walk visits every servable record above its start, once each and in order, and then ends,
      if and only if it gets through. */
  lemma {:induction false} WalkVisitsAll(parser: TextParser, contents: Contents, c: Bytes, oid: Oid, n: nat)
    requires Sorted(parser, c)
    requires n > |ServedFrom(parser, contents, c, Cut(parser, c, oid))|
    ensures Walk(o => GetNext(parser, contents, c, o), oid, n) == ServedFrom(parser, contents, c, Cut(parser, c, oid))
            <==> IsWalkable(parser, contents, c, oid)
    decreases n
  {
    hide Less, Cut, RecordAt, LineEnd, AnswerTo, IsLocated, NextServed, Skipped, IsNoise, IsRecord, ServedFrom, RunsFit,
      OidAt, Line, Diversion, Extra, Sorted, Walk;
    var next := o => GetNext(parser, contents, c, o);
    var p := Cut(parser, c, oid);
    var s := NextServed(contents, c, p);
    GetNextIs(parser, contents, c, Query(oid, NoSuchInstance, true, false, 1, 0));
    CutSplits(parser, c, oid);
    ServedUnfolds(parser, contents, c, p, Extra(parser, contents, c, oid));
    WalkUnfolds(next, oid, n);
    if IsDiverted(parser, contents, c, oid) {
      PrefixIsNotAbove(OidAt(parser, c, Diversion(parser, c, oid)), oid);
      assert Walk(next, oid, n)[0] == BindAt(parser, contents, c, Diversion(parser, c, oid));
      if s < |c| {
        assert IsRecord(c, s) && Less(oid, OidAt(parser, c, s));
        assert ServedFrom(parser, contents, c, p)[0] == BindAt(parser, contents, c, s);
      }
    } else if s < |c| && Reaches(parser, contents, c, oid) {
      CutAtRecord(parser, contents, c, s);
      WalkableBehind(parser, contents, c, s);
      WalkVisitsAll(parser, contents, c, OidAt(parser, c, s), n - 1);
      var rest, rest' := Walk(next, next(oid).oid, n - 1), ServedFrom(parser, contents, c, LineEnd(c, s));
      assert ([next(oid)] + rest)[1..] == rest && ([next(oid)] + rest')[1..] == rest';
    }
  }

  lemma {:induction false} CleanRunsFit(parser: TextParser, contents: Contents, c: Bytes, p: nat)
    requires p <= |c| && IsBoundary(c, p) && NoSubtrees(parser, c)
    requires forall s: nat :: IsRecord(c, s) ==> Serves(contents, c, s)
    ensures Skipped(contents, c, p) == 0 && RunsFit(parser, contents, c, p, 0)
    decreases |c| - p
  {
    hide RecordAt, IsNoise, LineEnd, Line, IsRecord;
    var s := RecordAt(c, p);
    RecordAtIsFirst(c, p);
    NextServedIsFirst(contents, c, p);
    if s < |c| {
      LineAfterRecord(c, s);
      CleanRunsFit(parser, contents, c, LineEnd(c, s));
    }
  }

  /** A recording without subtree records, of which every record can be served and the last line is
      one, can be walked from any OID. */
  lemma CleanRecordingsWalk(parser: TextParser, contents: Contents, c: Bytes, oid: Oid)
    requires Sorted(parser, c) && LastLineIsRecord(c) && NoSubtrees(parser, c)
    requires forall s: nat :: IsRecord(c, s) ==> Serves(contents, c, s)
    ensures IsWalkable(parser, contents, c, oid)
  {
    hide Less, OvershootsFrom, RecordAt, LineEnd, LineStart, Diversion, Extra, Cut, NextServed, RunsFit, Sorted,
      NoSubtrees, LastLineIsRecord, Line, OidAt, Found;
    var p := Cut(parser, c, oid);
    CutSplits(parser, c, oid);
    NoDiversion(parser, contents, c, oid);
    CleanRunsFit(parser, contents, c, p);
    LastLineRecordSuffices(parser, c, oid);
    SearchAgreesWithScan(parser, c, oid);
    ServedUnfolds(parser, contents, c, p, 0);
    var s := NextServed(contents, c, p);
    if s < |c| && Overshoots(parser, c, oid) {
      LessAsymmetric(oid, OidAt(parser, c, s));
    }
  }

  /** What a full walk lists: exactly the stored OIDs above its start with their contents, ascending. */
  lemma {:induction false} ServedIsTheMap(parser: TextParser, contents: Contents, c: Bytes, p: nat)
    requires Sorted(parser, c) && p <= |c| && IsBoundary(c, p)
    ensures var served := ServedFrom(parser, contents, c, p);
            && (forall s: nat :: Serves(contents, c, s) && p <= s ==> BindAt(parser, contents, c, s) in served)
            && (forall b :: b in served ==>
                  exists s: nat :: Serves(contents, c, s) && p <= s && b == BindAt(parser, contents, c, s))
            && (forall i, j :: 0 <= i < j < |served| ==> Less(served[i].oid, served[j].oid))
    decreases |c| - p
  {
    hide Less, RecordAt, LineEnd, NextServed, IsNoise;
    var s := NextServed(contents, c, p);
    NextServedIsFirst(contents, c, p);
    if s < |c| {
      var b := BindAt(parser, contents, c, s);
      var rest := ServedFrom(parser, contents, c, LineEnd(c, s));
      LineAfterRecord(c, s);
      ServedIsTheMap(parser, contents, c, LineEnd(c, s));
      var served := [b] + rest;
      assert ServedFrom(parser, contents, c, p) == served;
      forall j | 0 < j < |served|
        ensures Less(b.oid, served[j].oid)
      {
        assert served[j] in rest;
        var t: nat :| Serves(contents, c, t) && LineEnd(c, s) <= t && served[j] == BindAt(parser, contents, c, t);
        SortedPair(parser, c, s, t);
      }
      forall t: nat | Serves(contents, c, t) && p <= t
        ensures BindAt(parser, contents, c, t) in served
      {
        if t != s {
          SortedPair(parser, c, s, t);
          assert BindAt(parser, contents, c, t) in rest;
        }
      }
    }
  }
}
