/** Reading records and searching them by OID, in place in the text file. */
module FileSearch {
  import opened Wrappers
  import opened Oids
  import opened Texts
  import opened TextFiles
  import opened Recordings

  /** Reads the next line that is neither comment nor blank. */
  method GetRecord(file: TextFile, lineNo: Option<nat> := None, offset: nat := 0)
    returns (line: Bytes, lineNo': Option<nat>, offset': nat)
    modifies file
    ensures line == Line(file.content, RecordAt(file.content, old(file.pos)))
    ensures file.pos == LineEnd(file.content, RecordAt(file.content, old(file.pos)))
    ensures offset' == offset + RecordAt(file.content, old(file.pos)) - old(file.pos)
    ensures lineNo' == if lineNo.None? then None else Some(lineNo.value + LinesRead(file.content, old(file.pos)))
  {
    ghost var c := file.content;
    ghost var p := file.pos;
    line := file.ReadLine();
    lineNo', offset' := lineNo, offset;
    if lineNo'.Some? && line != [] {
      lineNo' := Some(lineNo'.value + 1);
    }
    while line != []
      invariant line == Line(c, p) && file.pos == LineEnd(c, p)
      invariant old(file.pos) <= p && offset' == offset + p - old(file.pos)
      invariant RecordAt(c, p) == RecordAt(c, old(file.pos))
      invariant lineNo'.None? <==> lineNo.None?
      invariant lineNo.Some? ==>
                  lineNo'.value + LinesRead(c, p) - (if line == [] then 0 else 1)
                  == lineNo.value + LinesRead(c, old(file.pos))
      decreases |c| - p, |line|
    {
      var tline := Strip(line);
      if tline == [] || tline[0] == HASH {
        offset' := offset' + |line|;
        p := LineEnd(c, p);
        line := file.ReadLine();
        if lineNo'.Some? && line != [] {
          lineNo' := Some(lineNo'.value + 1);
        }
      } else {
        break;
      }
    }
  }

  /** Position of the last `b`, or -1. */
  function LastIndex(s: Bytes, b: Byte): (i: int)
    ensures -1 <= i < |s|
    ensures 0 <= i ==> s[i] == b
    ensures forall k :: i < k < |s| ==> s[k] != b
  {
    if s == [] then -1 else if s[|s| - 1] == b then |s| - 1 else LastIndex(s[..|s| - 1], b)
  }

  /** Steps back, block by block, to the greatest line start not above `offset`. */
  method FindEol(file: TextFile, offset: nat, blockSize: nat := 256) returns (q: nat)
    requires blockSize >= 1
    modifies file
    ensures q == LineStart(file.content, offset)
  {
    ghost var c := file.content;
    var at: nat, size: nat := offset, blockSize;
    while true
      invariant at <= offset && (size >= 1 || at == 0)
      invariant forall r: nat :: at < r <= offset ==> !IsLineStart(c, r)
      decreases at
    {
      ghost var above := at;
      if at < size {
        at, size := 0, at;
      } else {
        at := at - size;
      }
      file.Seek(at);
      var chunk := file.Read(size);
      var i := LastIndex(chunk, EOL);
      forall r: nat | at + i + 1 < r <= above
        ensures !IsLineStart(c, r)
      {
        if r <= |c| {
          assert c[r - 1] == chunk[r - 1 - at];
        }
      }
      if i >= 0 {
        assert IsLineStart(c, at + i + 1);
        return at + i + 1;
      }
      if at == 0 {
        return 0;
      }
    }
  }

  /** Whether a search that has so far met only records below `oid`, and resumes from `lo` up
      to the end of the file, puts its pivot behind the last record. */
  ghost predicate OvershootsFrom(parser: TextParser, c: Bytes, oid: Oid, lo: nat)
    decreases |c| - lo
  {
    lo < |c| &&
    var s := RecordAt(c, LineStart(c, (lo + |c|) / 2));
    s >= |c| || (Less(OidAt(parser, c, s), oid) && lo < LineEnd(c, s) && OvershootsFrom(parser, c, oid, LineEnd(c, s)))
  }

  /** Whether the search for `oid` in the whole file runs behind its last record. */
  ghost predicate Overshoots(parser: TextParser, c: Bytes, oid: Oid) {
    OvershootsFrom(parser, c, oid, 0)
  }

  /** The first record from `p` on whose OID is not below `oid`, by reading them all; the end of the file if none. */
  function ScanFrom(parser: TextParser, c: Bytes, oid: Oid, p: nat): (r: nat)
    requires p <= |c|
    ensures p <= r <= |c|
    decreases |c| - p
  {
    var s := RecordAt(c, p);
    if s < |c| && Less(OidAt(parser, c, s), oid) then ScanFrom(parser, c, oid, LineEnd(c, s)) else s
  }

  /** The record the search ends at: what a scan of the whole file finds, unless the search overshoots. */
  ghost function Found(parser: TextParser, c: Bytes, oid: Oid): (r: nat)
    ensures r <= |c|
  {
    if Overshoots(parser, c, oid) then |c| else ScanFrom(parser, c, oid, 0)
  }

  /** A scan from a boundary with nothing but smaller records before it finds the first record at or above the OID. */
  lemma {:induction false} ScanFindsFirst(parser: TextParser, c: Bytes, oid: Oid, p: nat)
    requires p <= |c| && IsBoundary(c, p)
    requires forall s: nat :: IsRecord(c, s) && s < p ==> Less(OidAt(parser, c, s), oid)
    ensures IsFirstAtLeast(parser, c, oid, ScanFrom(parser, c, oid, p))
    decreases |c| - p
  {
    var s := RecordAt(c, p);
    RecordAtIsFirst(c, p);
    if s < |c| && Less(OidAt(parser, c, s), oid) {
      assert forall t: nat :: IsRecord(c, t) && t < LineEnd(c, s) ==> t <= s;
      ScanFindsFirst(parser, c, oid, LineEnd(c, s));
    }
  }

  lemma FoundIs(parser: TextParser, c: Bytes, oid: Oid, r: nat)
    requires Overshoots(parser, c, oid) ==> r == |c|
    requires !Overshoots(parser, c, oid) ==> IsFirstAtLeast(parser, c, oid, r)
    ensures Found(parser, c, oid) == r
  {
    hide OvershootsFrom, ScanFrom;
    ScanFindsFirst(parser, c, oid, 0);
    if !Overshoots(parser, c, oid) {
      FirstAtLeastUnique(parser, c, oid, r, ScanFrom(parser, c, oid, 0));
    }
  }

  /** What is known between two pivots: records before `lo` are below the wanted OID, the one
      found from `hi` is above it, and the search overshoots just when nothing above has been met
      and the rest of the run overshoots. */
  ghost predicate Bracketed(parser: TextParser, c: Bytes, oid: Oid, lo: nat, hi: nat) {
    && lo <= hi <= |c| && IsBoundary(c, lo) && IsBoundary(c, hi)
    && (forall s: nat :: IsRecord(c, s) && s < lo ==> Less(OidAt(parser, c, s), oid))
    && (hi < |c| ==> RecordAt(c, hi) < |c| && Less(oid, OidAt(parser, c, RecordAt(c, hi))))
  }

  lemma BracketOpens(parser: TextParser, c: Bytes, oid: Oid)
    ensures Bracketed(parser, c, oid, 0, |c|)
    ensures Overshoots(parser, c, oid) <==> OvershootsFrom(parser, c, oid, 0)
  {}

  lemma PivotIsInside(parser: TextParser, c: Bytes, oid: Oid, lo: nat, hi: nat, mid: nat, s: nat)
    requires Bracketed(parser, c, oid, lo, hi) && lo < hi
    requires mid == LineStart(c, (lo + hi) / 2) && s == RecordAt(c, mid)
    ensures lo <= mid < hi && IsLineStart(c, mid) && IsBoundary(c, mid) && mid <= s <= |c|
    ensures OidAt(parser, c, s) == OidOf(parser, Line(c, s))
    ensures s < |c| ==> IsRecord(c, s) && |Line(c, s)| == LineEnd(c, s) - s > 0
    ensures s == |c| ==> Line(c, s) == [] && hi == |c|
  {
    RecordAtIsFirst(c, mid);
    RecordAtMonotone(c, mid, hi);
  }

  /** How one pivot record of a run that has met nothing above the OID decides its fate. */
  lemma OvershootsStep(parser: TextParser, c: Bytes, oid: Oid, lo: nat, s: nat)
    requires lo < |c| && s == RecordAt(c, LineStart(c, (lo + |c|) / 2)) && lo <= s
    ensures s >= |c| ==> OvershootsFrom(parser, c, oid, lo)
    ensures s < |c| && !Less(OidAt(parser, c, s), oid) ==> !OvershootsFrom(parser, c, oid, lo)
    ensures s < |c| && Less(OidAt(parser, c, s), oid) ==>
              (OvershootsFrom(parser, c, oid, lo) <==> OvershootsFrom(parser, c, oid, LineEnd(c, s)))
  {}

  /** A pivot record below the wanted OID lies wholly below the upper limit, and so does every record before it. */
  lemma PivotBelow(parser: TextParser, c: Bytes, oid: Oid, s: nat, hi: nat)
    requires Sorted(parser, c) && IsRecord(c, s) && Less(OidAt(parser, c, s), oid)
    requires IsBoundary(c, hi) && hi <= |c|
    requires hi < |c| ==> RecordAt(c, hi) < |c| && Less(oid, OidAt(parser, c, RecordAt(c, hi)))
    ensures s < LineEnd(c, s) <= hi
    ensures forall t: nat :: IsRecord(c, t) && t < LineEnd(c, s) ==> Less(OidAt(parser, c, t), oid)
  {
    if hi <= s {
      var h := RecordAt(c, hi);
      RecordAtIsFirst(c, hi);
      LessTransitive(OidAt(parser, c, s), oid, OidAt(parser, c, h));
      LessAsymmetric(OidAt(parser, c, s), OidAt(parser, c, h));
      assert false;
    }
    forall t: nat | IsRecord(c, t) && t < LineEnd(c, s)
      ensures Less(OidAt(parser, c, t), oid)
    {
      if t < s {
        LessTransitive(OidAt(parser, c, t), OidAt(parser, c, s), oid);
      }
    }
  }

  lemma PivotRaisesLo(parser: TextParser, c: Bytes, oid: Oid, lo: nat, hi: nat, s: nat)
    requires Sorted(parser, c) && Bracketed(parser, c, oid, lo, hi)
    requires lo <= s && IsRecord(c, s) && Less(OidAt(parser, c, s), oid)
    ensures lo < LineEnd(c, s) && Bracketed(parser, c, oid, LineEnd(c, s), hi)
  {
    PivotBelow(parser, c, oid, s, hi);
  }

  lemma PivotLowersHi(parser: TextParser, c: Bytes, oid: Oid, lo: nat, hi: nat, mid: nat)
    requires Bracketed(parser, c, oid, lo, hi) && lo <= mid < hi && IsLineStart(c, mid)
    requires RecordAt(c, mid) < |c| && Less(oid, OidAt(parser, c, RecordAt(c, mid)))
    ensures Bracketed(parser, c, oid, lo, mid)
    ensures !Less(OidAt(parser, c, RecordAt(c, mid)), oid)
  {
    LessAsymmetric(oid, OidAt(parser, c, RecordAt(c, mid)));
  }

  lemma PivotHits(parser: TextParser, c: Bytes, s: nat)
    requires Sorted(parser, c) && IsRecord(c, s)
    ensures IsFirstAtLeast(parser, c, OidAt(parser, c, s), s)
    ensures !Less(OidAt(parser, c, s), OidAt(parser, c, s))
  {
    LessIrreflexive(OidAt(parser, c, s));
  }

  lemma BracketClosed(parser: TextParser, c: Bytes, oid: Oid, r: nat)
    requires Bracketed(parser, c, oid, r, r)
    ensures IsBoundary(c, r) && IsFirstAtLeast(parser, c, oid, RecordAt(c, r))
    ensures !OvershootsFrom(parser, c, oid, |c|)
  {
    RecordAtIsFirst(c, r);
    if r < |c| {
      LessAsymmetric(oid, OidAt(parser, c, RecordAt(c, r)));
    }
  }

  lemma BracketBounds(parser: TextParser, c: Bytes, oid: Oid, lo: nat, hi: nat)
    requires Bracketed(parser, c, oid, lo, hi)
    ensures lo <= hi <= |c| && IsBoundary(c, hi)
  {}

  /** By-OID binary search over byte offsets. It finds the first record at or above the OID,
      except in the runs that overshoot the last record: those give up with the file size. */
  method SearchRecordByOid(oid: Oid, file: TextFile, parser: TextParser) returns (r: nat)
    requires Readable(parser, file.content) && Sorted(parser, file.content)
    modifies file
    ensures IsBoundary(file.content, r) && r <= |file.content|
    ensures RecordAt(file.content, r) == Found(parser, file.content, oid)
  {
    hide *;
    ghost var c := file.content;
    ghost var over := Overshoots(parser, c, oid);
    var lo: nat, mid: nat := 0, 0;
    var prevMid := -1;
    var sz := file.SeekEnd();
    var hi: nat := sz;
    BracketOpens(parser, c, oid);
    while lo < hi
      invariant sz == |c| && lo <= hi <= sz && Bracketed(parser, c, oid, lo, hi)
      invariant over <==> hi == sz && OvershootsFrom(parser, c, oid, lo)
      invariant prevMid < lo || hi <= prevMid
      decreases hi - lo
    {
      mid := (lo + hi) / 2;
      file.Seek(mid);
      mid := FindEol(file, mid);
      ghost var s := RecordAt(c, mid);
      PivotIsInside(parser, c, oid, lo, hi, mid, s);
      if hi == sz {
        OvershootsStep(parser, c, oid, lo, s);
      }
      file.Seek(mid);
      if mid == prevMid {
        assert false;  // the pivot never repeats
        break;
      }
      if mid >= sz {
        assert false;  // nor does it reach the end of the file, which the program would return
      }
      var line, _, skipped := GetRecord(file);
      if line == [] {
        BracketBounds(parser, c, oid, lo, hi);
        FoundIs(parser, c, oid, s);
        return hi;
      }
      var midval := OidOf(parser, line);
      if Less(midval, oid) {
        PivotRaisesLo(parser, c, oid, lo, hi, s);
        lo := mid + skipped + |line|;
        BracketBounds(parser, c, oid, lo, hi);
      } else if Less(oid, midval) {
        PivotLowersHi(parser, c, oid, lo, hi, mid);
        hi := mid;
      } else {
        LessTotal(oid, midval);
        PivotHits(parser, c, s);
        FoundIs(parser, c, oid, s);
        return mid;
      }
      prevMid := mid;
    }
    BracketClosed(parser, c, oid, hi);
    FoundIs(parser, c, oid, RecordAt(c, hi));
    if lo == mid {
      return lo;
    } else {
      return hi;
    }
  }
}
