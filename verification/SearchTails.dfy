/** When the binary search agrees with a scan of the whole file: always when the last line is a
    record, and otherwise as long as comments and blanks behind the last record do not catch a pivot. */
module SearchTails {
  import opened Oids
  import opened Texts
  import opened TextFiles
  import opened Recordings
  import opened FileSearch

  ghost predicate AllBelow(parser: TextParser, c: Bytes, oid: Oid) {
    forall s: nat :: IsRecord(c, s) ==> Less(OidAt(parser, c, s), oid)
  }

  ghost predicate IsLastRecord(c: Bytes, last: nat) {
    IsRecord(c, last) && forall s: nat :: IsRecord(c, s) ==> s <= last
  }

  /** `last` is the last record, and reading from `p` finds it: only comments and blanks lie in between. */
  ghost predicate IsFinalBlock(c: Bytes, p: nat, last: nat) {
    IsLastRecord(c, last) && p <= last && IsBoundary(c, p) && RecordAt(c, p) == last
  }

  /** The search agrees with the scan for an OID if and only if it does not overshoot or the OID is
      above every record. */
  lemma SearchAgreesWithScan(parser: TextParser, c: Bytes, oid: Oid)
    ensures Found(parser, c, oid) == ScanFrom(parser, c, oid, 0)
            <==> (Overshoots(parser, c, oid) ==> AllBelow(parser, c, oid))
  {
    hide OvershootsFrom, ScanFrom;
    ScanFindsFirst(parser, c, oid, 0);
    if AllBelow(parser, c, oid) {
      FirstAtLeastUnique(parser, c, oid, |c|, ScanFrom(parser, c, oid, 0));
    }
  }

  /** Whether a search for the last record slips past it: its pivots are caught by records before it
      and then by what lies behind it. Only where lines start and end matters. */
  ghost predicate SlipsPast(c: Bytes, last: nat, lo: nat)
    decreases |c| - lo
  {
    lo < |c| &&
    var s := RecordAt(c, LineStart(c, (lo + |c|) / 2));
    s >= |c| || (s < last && lo < LineEnd(c, s) && SlipsPast(c, last, LineEnd(c, s)))
  }

  lemma {:induction false} SlipsPastIsOvershooting(parser: TextParser, c: Bytes, last: nat, lo: nat)
    requires Sorted(parser, c) && IsLastRecord(c, last) && lo <= |c| && IsBoundary(c, lo)
    ensures OvershootsFrom(parser, c, OidAt(parser, c, last), lo) <==> SlipsPast(c, last, lo)
    decreases |c| - lo
  {
    hide RecordAt, LineStart, LineEnd, IsNoise, Less, OidAt;
    if lo < |c| {
      var mid := LineStart(c, (lo + |c|) / 2);
      var s := RecordAt(c, mid);
      assert IsLineStart(c, mid) && IsBoundary(c, mid);
      RecordAtIsFirst(c, mid);
      LessIrreflexive(OidAt(parser, c, last));
      if s < last && lo < LineEnd(c, s) {
        SlipsPastIsOvershooting(parser, c, last, LineEnd(c, s));
      }
    }
  }

  /** Records below an OID are below every greater one, so the search for that overshoots as well. */
  lemma {:induction false} OvershootingGrows(parser: TextParser, c: Bytes, oid: Oid, above: Oid, lo: nat)
    requires OvershootsFrom(parser, c, oid, lo) && AtMost(oid, above)
    ensures OvershootsFrom(parser, c, above, lo)
    decreases |c| - lo
  {
    hide RecordAt, LineStart, LineEnd, Less;
    var s := RecordAt(c, LineStart(c, (lo + |c|) / 2));
    if s < |c| {
      if oid != above {
        LessTransitive(OidAt(parser, c, s), oid, above);
      }
      OvershootingGrows(parser, c, oid, above, LineEnd(c, s));
    }
  }

  lemma AboveTheLast(parser: TextParser, c: Bytes, oid: Oid, last: nat)
    requires Sorted(parser, c) && IsLastRecord(c, last) && Less(OidAt(parser, c, last), oid)
    ensures AllBelow(parser, c, oid)
  {
    hide Less;
    forall s: nat | IsRecord(c, s)
      ensures Less(OidAt(parser, c, s), oid)
    {
      if s < last {
        LessTransitive(OidAt(parser, c, s), OidAt(parser, c, last), oid);
      }
    }
  }

  lemma SearchReachesTheLast(parser: TextParser, c: Bytes, oid: Oid, last: nat)
    requires Sorted(parser, c) && IsLastRecord(c, last) && !Overshoots(parser, c, OidAt(parser, c, last))
    ensures Found(parser, c, oid) == ScanFrom(parser, c, oid, 0)
  {
    hide OvershootsFrom, ScanFrom, Less, OidAt;
    SearchAgreesWithScan(parser, c, oid);
    LessTotal(oid, OidAt(parser, c, last));
    if Less(OidAt(parser, c, last), oid) {
      AboveTheLast(parser, c, oid, last);
    } else if Overshoots(parser, c, oid) {
      OvershootingGrows(parser, c, oid, OidAt(parser, c, last), 0);
    }
  }

  /** The search agrees with the scan for every OID if and only if there is no record, or the
      search does not slip past the last one. */
  lemma SearchAgreesForAll(parser: TextParser, c: Bytes)
    requires Sorted(parser, c)
    ensures var last := PrevRecord(c, |c|);
            (forall oid :: Found(parser, c, oid) == ScanFrom(parser, c, oid, 0)) <==> last < 0 || !SlipsPast(c, last, 0)
  {
    hide OvershootsFrom, SlipsPast, ScanFrom, Found, Less, OidAt, PrevRecord;
    var last := PrevRecord(c, |c|);
    if last < 0 {
      forall oid
        ensures Found(parser, c, oid) == ScanFrom(parser, c, oid, 0)
      {
        SearchAgreesWithScan(parser, c, oid);
      }
    } else {
      var greatest := OidAt(parser, c, last);
      SlipsPastIsOvershooting(parser, c, last, 0);
      SearchAgreesWithScan(parser, c, greatest);
      LessIrreflexive(greatest);
      if !SlipsPast(c, last, 0) {
        forall oid
          ensures Found(parser, c, oid) == ScanFrom(parser, c, oid, 0)
        {
          SearchReachesTheLast(parser, c, oid, last);
        }
      }
    }
  }

  /** A search from before the final block reaches for a pivot inside the records when the tail is short. */
  lemma {:induction false} ShortTailStaysInside(parser: TextParser, c: Bytes, oid: Oid, p: nat, last: nat, lo: nat)
    requires IsFinalBlock(c, p, last) && |c| - LineEnd(c, last) < LineEnd(c, last) - p
    requires !Less(OidAt(parser, c, last), oid)
    requires lo <= p && IsBoundary(c, lo)
    ensures !OvershootsFrom(parser, c, oid, lo)
    decreases |c| - lo
  {
    hide OvershootsFrom, RecordAt, LineStart, LineEnd;
    var mid := LineStart(c, (lo + |c|) / 2);
    var s := RecordAt(c, mid);
    assert IsLineStart(c, lo);
    assert lo <= mid < LineEnd(c, last);
    RecordAtIsFirst(c, mid);
    OvershootsStep(parser, c, oid, lo, s);
    if s < |c| && Less(OidAt(parser, c, s), oid) {
      RecordAtIsFirst(c, p);
      assert s < p;
      ShortTailStaysInside(parser, c, oid, p, last, LineEnd(c, s));
    }
  }

  /** A tail of comments and blanks shorter than the last record, counted with the comments and
      blanks right before it, is harmless: the search agrees with the scan for every OID. */
  lemma ShortTailIsHarmless(parser: TextParser, c: Bytes, oid: Oid, p: nat, last: nat)
    requires Sorted(parser, c)
    requires IsFinalBlock(c, p, last) && |c| - LineEnd(c, last) < LineEnd(c, last) - p
    ensures Found(parser, c, oid) == ScanFrom(parser, c, oid, 0)
  {
    hide OvershootsFrom, ScanFrom;
    SearchAgreesWithScan(parser, c, oid);
    if Less(OidAt(parser, c, last), oid) {
      AboveTheLast(parser, c, oid, last);
    } else {
      ShortTailStaysInside(parser, c, oid, p, last, 0);
    }
  }

  ghost predicate LastLineIsRecord(c: Bytes) {
    c == [] || IsRecord(c, LineStart(c, |c| - 1))
  }

  /** With a record in the last line the search agrees with the scan for every OID. */
  lemma LastLineRecordSuffices(parser: TextParser, c: Bytes, oid: Oid)
    requires Sorted(parser, c) && LastLineIsRecord(c)
    ensures Found(parser, c, oid) == ScanFrom(parser, c, oid, 0)
  {
    if c != [] {
      var last := LineStart(c, |c| - 1);
      assert LineEnd(c, last) == |c|;
      assert RecordAt(c, last) == last;
      ShortTailIsHarmless(parser, c, oid, last, last);
    }
  }

  /** When the line around the middle of the file lies behind the last record, the search misses
      every OID at or below the last record. */
  lemma LongTailMissesAll(parser: TextParser, c: Bytes, oid: Oid, s: nat)
    requires RecordAt(c, LineStart(c, |c| / 2)) == |c|
    requires IsRecord(c, s) && !Less(OidAt(parser, c, s), oid)
    ensures Found(parser, c, oid) == |c| != ScanFrom(parser, c, oid, 0)
  {
    hide ScanFrom, OvershootsFrom, RecordAt, LineStart;
    OvershootsStep(parser, c, oid, 0, |c|);
    SearchAgreesWithScan(parser, c, oid);
  }
}
