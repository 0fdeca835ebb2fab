/** The indexing pass: one sequential reading of a recording that maps the OID text of every
    record to its offset, its subtree flag and a back reference. */
module Indexing {
  import opened Wrappers
  import opened Oids
  import opened Texts
  import opened OidTexts
  import opened TextFiles
  import opened Recordings
  import opened FileSearch

  /** An index entry; `prev` is the offset of the preceding record when that one serves a subtree, else -1. */
  datatype Entry = Entry(offset: nat, subtree: bool, prev: int)

  type Index = map<Bytes, Entry>

  /** The key "last" of the entry behind the final record. */
  const LAST: Bytes := [108, 97, 115, 116]

  /** How an indexing pass ends: with a full index, at a record the grammar refuses, or in the
      unhandled failure on a record with a blank tag, which leaves a partial index. */
  datatype Pass = Indexed(db: Index) | DataError(lineNo: nat) | BlankTag(partial: Index)

  /** The pass from offset `p` on, with `lineNo` lines read, `prev` the back reference for the
      next record and `db` the entries made so far. */
  function PassFrom(parser: TextParser, c: Bytes, validate: bool, p: nat, lineNo: nat, prev: int, db: Index): Pass
    decreases |c| - p
  {
    var s := RecordAt(c, p);
    if s >= |c| then Indexed(db[LAST := Entry(s, false, prev)])
    else
      var n := lineNo + LinesRead(c, p);
      match parser.parse(Line(c, s))
      case None => DataError(n)
      case Some(f) =>
        if validate && parser.evaluateOid(f.oid).None? then DataError(n)
        else if f.tag == [] then BlankTag(db)
        else
          var subtree := f.tag[0] == COLON;
          PassFrom(parser, c, validate, LineEnd(c, s), n, if subtree then s else -1,
                   db[f.oid := Entry(s, subtree, prev)])
  }

  function IndexPass(parser: TextParser, c: Bytes, validate: bool := false): Pass {
    PassFrom(parser, c, validate, 0, 0, -1, map[])
  }

  lemma NextLine(c: Bytes, p: nat)
    requires p <= |c|
    ensures var s := RecordAt(c, p);
            && s <= |c| && (Line(c, s) == [] <==> s >= |c|) && LineEnd(c, s) == s + |Line(c, s)| <= |c|
            && (s < |c| ==> p < LineEnd(c, s))
  {
    hide IsNoise;
  }

  lemma PassFromUnfolds(parser: TextParser, c: Bytes, validate: bool, p: nat, lineNo: nat, prev: int, db: Index)
    ensures var s := RecordAt(c, p); var n := lineNo + LinesRead(c, p); var f := parser.parse(Line(c, s));
            PassFrom(parser, c, validate, p, lineNo, prev, db) ==
            if s >= |c| then Indexed(db[LAST := Entry(s, false, prev)])
            else if f.None? || (validate && parser.evaluateOid(f.value.oid).None?) then DataError(n)
            else if f.value.tag == [] then BlankTag(db)
            else PassFrom(parser, c, validate, LineEnd(c, s), n, if f.value.tag[0] == COLON then s else -1,
                          db[f.value.oid := Entry(s, f.value.tag[0] == COLON, prev)])
  {
    hide RecordAt, LineEnd, LinesRead, Line;
  }

  /** The loop of `RecordIndex.create`. */
  method BuildIndex(text: TextFile, parser: TextParser, validateData: bool) returns (pass: Pass)
    requires text.pos == 0
    modifies text
    ensures pass == PassFrom(parser, text.content, validateData, 0, 0, -1, map[])
  {
    hide *;
    var db: Index := map[];
    var lineNo: nat, offset: nat, prevOffset: int := 0, 0, -1;
    while true
      invariant text.pos == offset <= |text.content|
      invariant PassFrom(parser, text.content, validateData, 0, 0, -1, map[])
                == PassFrom(parser, text.content, validateData, offset, lineNo, prevOffset, db)
      decreases |text.content| - offset
    {
      NextLine(text.content, offset);
      PassFromUnfolds(parser, text.content, validateData, offset, lineNo, prevOffset, db);
      var line, lineNo', offset' := GetRecord(text, Some(lineNo), offset);
      lineNo, offset := lineNo'.value, offset';
      if line == [] {
        db := db[LAST := Entry(offset, false, prevOffset)];
        return Indexed(db);
      }
      var fields := parser.parse(line);
      if fields.None? {
        return DataError(lineNo);
      }
      var f := fields.value;
      if validateData && parser.evaluateOid(f.oid).None? {
        return DataError(lineNo);
      }
      if f.tag == [] {
        return BlankTag(db);
      }
      db := db[f.oid := Entry(offset, f.tag[0] == COLON, prevOffset)];
      if f.tag[0] == COLON {
        prevOffset := offset;
      } else {
        prevOffset := -1;
      }
      offset := offset + |line|;
    }
  }

  function BackReference(parser: TextParser, c: Bytes, p: nat): (q: int)
    ensures -1 <= q < p
    ensures 0 <= q ==> IsRecord(c, q)
  {
    var q := PrevRecord(c, p);
    if q >= 0 && parser.IsSubtree(Line(c, q)) then q else -1
  }

  function KeyAt(parser: TextParser, c: Bytes, s: nat): Bytes {
    OidText(OidAt(parser, c, s))
  }

  /** What the index says about the records before `p`. */
  ghost predicate CoversUpTo(parser: TextParser, c: Bytes, db: Index, p: nat) {
    && (forall s: nat :: IsRecord(c, s) && s < p ==>
          KeyAt(parser, c, s) in db
          && db[KeyAt(parser, c, s)] == Entry(s, parser.IsSubtree(Line(c, s)), BackReference(parser, c, s)))
    && (forall k :: k in db && k != LAST ==> exists s: nat :: IsRecord(c, s) && s < p && k == KeyAt(parser, c, s))
  }

  /** The full index of a recording: an exact entry for every record, one for "last", and nothing else. */
  ghost predicate IsIndexOf(parser: TextParser, c: Bytes, db: Index) {
    CoversUpTo(parser, c, db, |c|) && LAST in db && db[LAST] == Entry(|c|, false, BackReference(parser, c, |c|))
  }

  lemma BackReferenceSkipsNoise(parser: TextParser, c: Bytes, p: nat)
    requires IsBoundary(c, p)
    ensures BackReference(parser, c, p) == BackReference(parser, c, RecordAt(c, p))
  {
    hide RecordAt, PrevRecord;
    RecordAtIsFirst(c, p);
    assert PrevRecord(c, p) == PrevRecord(c, RecordAt(c, p));
  }

  lemma BackReferenceAfterRecord(parser: TextParser, c: Bytes, s: nat)
    requires IsRecord(c, s)
    ensures BackReference(parser, c, LineEnd(c, s)) == if parser.IsSubtree(Line(c, s)) then s else -1
  {
    assert PrevRecord(c, LineEnd(c, s)) == s;
  }

  lemma KeysDiffer(parser: TextParser, c: Bytes, s: nat, t: nat)
    requires Sorted(parser, c) && IsRecord(c, s) && IsRecord(c, t) && s != t
    ensures KeyAt(parser, c, s) != KeyAt(parser, c, t)
  {
    LessIrreflexive(OidAt(parser, c, s));
    if KeyAt(parser, c, s) == KeyAt(parser, c, t) {
      OidTextInjective(OidAt(parser, c, s), OidAt(parser, c, t));
    }
  }

  lemma LastIsNoOid(oid: Oid)
    ensures OidText(oid) != LAST
  {
    OidTextBytes(oid);
    assert 108 in LAST && 108 !in OidText(oid);
  }

  lemma CoversOneMore(parser: TextParser, c: Bytes, db: Index, p: nat, s: nat)
    requires Sorted(parser, c) && IsBoundary(c, p) && CoversUpTo(parser, c, db, p)
    requires s == RecordAt(c, p) < |c|
    ensures CoversUpTo(parser, c,
              db[KeyAt(parser, c, s) := Entry(s, parser.IsSubtree(Line(c, s)), BackReference(parser, c, s))],
              LineEnd(c, s))
  {
    hide OidText, Less, RecordAt, LineEnd, BackReference;
    var db' := db[KeyAt(parser, c, s) := Entry(s, parser.IsSubtree(Line(c, s)), BackReference(parser, c, s))];
    RecordAtIsFirst(c, p);
    forall t: nat | IsRecord(c, t) && t < LineEnd(c, s)
      ensures KeyAt(parser, c, t) in db'
      ensures db'[KeyAt(parser, c, t)] == Entry(t, parser.IsSubtree(Line(c, t)), BackReference(parser, c, t))
    {
      if t != s {
        assert t < p;
        KeysDiffer(parser, c, s, t);
      }
    }
    forall k | k in db' && k != LAST
      ensures exists t: nat :: IsRecord(c, t) && t < LineEnd(c, s) && k == KeyAt(parser, c, t)
    {
      if k in db {
        var t: nat :| IsRecord(c, t) && t < p && k == KeyAt(parser, c, t);
      } else {
        assert IsRecord(c, s) && s < LineEnd(c, s);
      }
    }
  }

  lemma LastCovers(parser: TextParser, c: Bytes, db: Index, p: nat)
    requires IsBoundary(c, p) && RecordAt(c, p) == |c| && CoversUpTo(parser, c, db, p)
    ensures IsIndexOf(parser, c, db[LAST := Entry(|c|, false, BackReference(parser, c, |c|))])
  {
    hide OidText, BackReference;
    RecordAtIsFirst(c, p);
    var db' := db[LAST := Entry(|c|, false, BackReference(parser, c, |c|))];
    forall t: nat | IsRecord(c, t)
      ensures t < p && KeyAt(parser, c, t) != LAST
    {
      LastIsNoOid(OidAt(parser, c, t));
    }
  }

  lemma {:induction false} PassCovers(parser: TextParser, c: Bytes, validate: bool,
                                      p: nat, lineNo: nat, prev: int, db: Index)
    requires Sorted(parser, c) && Readable(parser, c) && Canonical(parser, c)
    requires IsBoundary(c, p) && prev == BackReference(parser, c, p) && CoversUpTo(parser, c, db, p) && LAST !in db
    ensures var pass := PassFrom(parser, c, validate, p, lineNo, prev, db);
            pass.Indexed? && IsIndexOf(parser, c, pass.db)
    decreases |c| - p
  {
    hide OidText, Less, BackReference, CoversUpTo, PassFrom, RecordAt, LineEnd, Line, LinesRead, IsNoise, IsIndexOf;
    var s := RecordAt(c, p);
    RecordAtIsFirst(c, p);
    NextLine(c, p);
    PassFromUnfolds(parser, c, validate, p, lineNo, prev, db);
    BackReferenceSkipsNoise(parser, c, p);
    if s < |c| {
      CoversOneMore(parser, c, db, p, s);
      BackReferenceAfterRecord(parser, c, s);
      LastIsNoOid(OidAt(parser, c, s));
      var n := lineNo + LinesRead(c, p);
      var f := parser.parse(Line(c, s)).value;
      PassCovers(parser, c, validate, LineEnd(c, s), n, if f.tag[0] == COLON then s else -1,
                 db[f.oid := Entry(s, f.tag[0] == COLON, prev)]);
    } else {
      LastCovers(parser, c, db, p);
    }
  }

  /** A pass over a sorted recording with canonical OID texts yields its full index. */
  lemma IndexIsExact(parser: TextParser, c: Bytes, validate: bool)
    requires Sorted(parser, c) && Readable(parser, c) && Canonical(parser, c)
    ensures var pass := IndexPass(parser, c, validate); pass.Indexed? && IsIndexOf(parser, c, pass.db)
  {
    PassCovers(parser, c, validate, 0, 0, -1, map[]);
  }

  /** An OID is a key of the full index exactly when it is the OID of a record. */
  lemma IndexKeyIsRecord(parser: TextParser, c: Bytes, db: Index, oid: Oid)
    requires IsIndexOf(parser, c, db)
    ensures OidText(oid) in db <==> exists s: nat :: IsRecord(c, s) && OidAt(parser, c, s) == oid
  {
    hide BackReference;
    LastIsNoOid(oid);
    if OidText(oid) in db {
      var s: nat :| IsRecord(c, s) && s < |c| && OidText(oid) == KeyAt(parser, c, s);
      OidTextInjective(oid, OidAt(parser, c, s));
    }
  }

  predicate HasTag(parser: TextParser, line: Bytes) {
    parser.parse(line).Some? && parser.parse(line).value.tag != []
  }

  /** Every record can be parsed and has a tag. */
  ghost predicate Tagged(parser: TextParser, c: Bytes) {
    forall s: nat :: IsRecord(c, s) ==> HasTag(parser, Line(c, s))
  }

  /** The first record from `p` on that cannot be parsed or has a blank tag. */
  ghost predicate IsFirstUntagged(parser: TextParser, c: Bytes, p: nat, u: nat) {
    && IsRecord(c, u) && p <= u && !HasTag(parser, Line(c, u))
    && (forall s: nat :: IsRecord(c, s) && p <= s < u ==> HasTag(parser, Line(c, s)))
  }

  ghost predicate StopsAt(parser: TextParser, c: Bytes, p: nat, parsed: bool) {
    exists u: nat :: IsFirstUntagged(parser, c, p, u) && parser.parse(Line(c, u)).Some? == parsed
  }

  lemma RecordBehind(c: Bytes, s: nat, t: nat)
    requires IsRecord(c, t) && s < t
    ensures LineEnd(c, s) <= t
  {}

  lemma RecordsFrom(c: Bytes, p: nat)
    requires p <= |c| && IsBoundary(c, p)
    ensures var s := RecordAt(c, p); var e := LineEnd(c, s);
            && (s == |c| ==> forall t: nat :: IsRecord(c, t) ==> t < p)
            && (s < |c| ==>
                  && IsRecord(c, s) && e <= |c| && IsBoundary(c, e) && p <= s < e
                  && (forall t: nat :: IsRecord(c, t) ==> (p <= t <==> t == s || e <= t)))
  {
    hide RecordAt, LineEnd, IsNoise;
    RecordAtIsFirst(c, p);
    NextLine(c, p);
    forall t: nat | IsRecord(c, t) && p <= t && t != RecordAt(c, p)
      ensures LineEnd(c, RecordAt(c, p)) <= t
    {
      RecordBehind(c, RecordAt(c, p), t);
    }
  }

  lemma UntaggedStops(parser: TextParser, c: Bytes, p: nat, u: nat, parsed: bool)
    requires IsFirstUntagged(parser, c, p, u)
    ensures StopsAt(parser, c, p, parsed) <==> parser.parse(Line(c, u)).Some? == parsed
  {
    hide IsRecord, Line, HasTag;
    forall v: nat | IsFirstUntagged(parser, c, p, v)
      ensures u == v
    {}
  }

  lemma NothingStops(parser: TextParser, c: Bytes, p: nat)
    requires forall t: nat :: IsRecord(c, t) ==> t < p
    ensures !StopsAt(parser, c, p, true) && !StopsAt(parser, c, p, false)
  {}

  lemma StopsFurtherOn(parser: TextParser, c: Bytes, p: nat, s: nat, e: nat, parsed: bool)
    requires p <= s < e && HasTag(parser, Line(c, s))
    requires forall t: nat :: IsRecord(c, t) ==> (p <= t <==> t == s || e <= t)
    ensures StopsAt(parser, c, p, parsed) <==> StopsAt(parser, c, e, parsed)
  {
    hide IsRecord, Line, HasTag;
    assert forall u: nat :: IsFirstUntagged(parser, c, p, u) <==> IsFirstUntagged(parser, c, e, u);
  }

  /** How a pass ends: with a full index if and only if every record has a tag, and else as the
      first one that has none decides. */
  lemma {:induction false} PassEnds(parser: TextParser, c: Bytes, p: nat, lineNo: nat, prev: int, db: Index)
    requires p <= |c| && IsBoundary(c, p)
    ensures var pass := PassFrom(parser, c, false, p, lineNo, prev, db);
            && (pass.Indexed? <==> forall s: nat :: IsRecord(c, s) && p <= s ==> HasTag(parser, Line(c, s)))
            && (pass.BlankTag? <==> StopsAt(parser, c, p, true))
            && (pass.DataError? <==> StopsAt(parser, c, p, false))
    decreases |c| - p
  {
    hide PassFrom, RecordAt, LineEnd, LinesRead, Line, IsRecord, IsBoundary, StopsAt;
    var s := RecordAt(c, p);
    RecordsFrom(c, p);
    PassFromUnfolds(parser, c, false, p, lineNo, prev, db);
    if s < |c| {
      var f := parser.parse(Line(c, s));
      if HasTag(parser, Line(c, s)) {
        var subtree := f.value.tag[0] == COLON;
        PassEnds(parser, c, LineEnd(c, s), lineNo + LinesRead(c, p), if subtree then s else -1,
                 db[f.value.oid := Entry(s, subtree, prev)]);
        StopsFurtherOn(parser, c, p, s, LineEnd(c, s), true);
        StopsFurtherOn(parser, c, p, s, LineEnd(c, s), false);
      } else {
        assert IsFirstUntagged(parser, c, p, s);
        UntaggedStops(parser, c, p, s, true);
        UntaggedStops(parser, c, p, s, false);
      }
    } else {
      NothingStops(parser, c, p);
    }
  }

  lemma RecordEndsLine(c: Bytes, s: nat, u: nat)
    requires IsRecord(c, s) && IsRecord(c, u) && s < u
    ensures LineEnd(c, s) <= u < |c| && LineEnds(c, s, LineEnd(c, s)) == 1
  {
    RecordBehind(c, s, u);
    OneLineEnd(c, s);
  }

  /** A refused record is reported with the number of its line, counted from one. */
  lemma {:induction false} ReportsTheLine(parser: TextParser, c: Bytes, p: nat,
                                          lineNo: nat, prev: int, db: Index, u: nat)
    requires p <= |c| && IsBoundary(c, p)
    requires IsFirstUntagged(parser, c, p, u) && parser.parse(Line(c, u)).None?
    ensures PassFrom(parser, c, false, p, lineNo, prev, db) == DataError(lineNo + LineEnds(c, p, u) + 1)
    decreases |c| - p
  {
    hide PassFrom, RecordAt, LineEnd, LinesRead, Line, IsRecord, IsBoundary, LineEnds;
    var s := RecordAt(c, p);
    RecordsFrom(c, p);
    PassFromUnfolds(parser, c, false, p, lineNo, prev, db);
    LinesReadCounts(c, p);
    if s != u {
      var e := LineEnd(c, s);
      var f := parser.parse(Line(c, s)).value;
      var subtree := f.tag[0] == COLON;
      LineAfterRecord(c, s);
      RecordBehind(c, s, u);
      ReportsTheLine(parser, c, e, lineNo + LinesRead(c, p), if subtree then s else -1,
                     db[f.oid := Entry(s, subtree, prev)], u);
      RecordEndsLine(c, s, u);
      LineEndsAdd(c, s, e, u);
      LineEndsAdd(c, p, s, u);
    }
  }

  /** With validation a pass accepts the recording if and only if every OID can be read as well. */
  lemma {:induction false} PassValidates(parser: TextParser, c: Bytes, p: nat, lineNo: nat, prev: int, db: Index)
    requires p <= |c| && IsBoundary(c, p)
    ensures PassFrom(parser, c, true, p, lineNo, prev, db).Indexed? <==>
            forall s: nat :: IsRecord(c, s) && p <= s ==>
              HasTag(parser, Line(c, s)) && parser.Evaluate(Line(c, s)).Some?
    decreases |c| - p
  {
    hide PassFrom, RecordAt, LineEnd, LinesRead, Line, IsRecord, IsBoundary;
    var s := RecordAt(c, p);
    RecordsFrom(c, p);
    PassFromUnfolds(parser, c, true, p, lineNo, prev, db);
    if s < |c| && HasTag(parser, Line(c, s)) {
      var f := parser.parse(Line(c, s)).value;
      var subtree := f.tag[0] == COLON;
      PassValidates(parser, c, LineEnd(c, s), lineNo + LinesRead(c, p), if subtree then s else -1,
                    db[f.oid := Entry(s, subtree, prev)]);
    }
  }

  /** A recording is accepted with validation if and only if it is without and every OID can be read. */
  lemma ValidatedIff(parser: TextParser, c: Bytes)
    ensures IndexPass(parser, c, true).Indexed? <==> Tagged(parser, c) && Readable(parser, c)
  {
    PassValidates(parser, c, 0, 0, -1, map[]);
  }

  lemma IndexedIffTagged(parser: TextParser, c: Bytes)
    ensures IndexPass(parser, c).Indexed? <==> Tagged(parser, c)
    ensures IndexPass(parser, c).BlankTag? <==> StopsAt(parser, c, 0, true)
    ensures IndexPass(parser, c).DataError? <==> StopsAt(parser, c, 0, false)
  {
    PassEnds(parser, c, 0, 0, -1, map[]);
  }

  /** The OID field of a record as it is spelt. */
  function SpellingAt(parser: TextParser, c: Bytes, s: nat): Bytes {
    var f := parser.parse(Line(c, s));
    if f.Some? then f.value.oid else []
  }

  ghost predicate IsSpelling(parser: TextParser, c: Bytes, p: nat, k: Bytes) {
    exists s: nat :: IsRecord(c, s) && p <= s && k == SpellingAt(parser, c, s)
  }

  lemma SpellingsFrom(parser: TextParser, c: Bytes, p: nat, k: Bytes)
    requires p <= |c| && IsBoundary(c, p)
    ensures var s := RecordAt(c, p);
            IsSpelling(parser, c, p, k) <==>
            s < |c| && (k == SpellingAt(parser, c, s) || IsSpelling(parser, c, LineEnd(c, s), k))
  {
    hide RecordAt, LineEnd, IsNoise, SpellingAt;
    var s := RecordAt(c, p);
    RecordAtIsFirst(c, p);
    if IsSpelling(parser, c, p, k) {
      var t: nat :| IsRecord(c, t) && p <= t && k == SpellingAt(parser, c, t);
      if t != s {
        RecordBehind(c, s, t);
      }
    }
  }

  /** The keys of an index are the spellings of the OID fields, and "last". */
  lemma {:induction false} KeysAreSpellings(parser: TextParser, c: Bytes, p: nat,
                                            lineNo: nat, prev: int, db: Index, k: Bytes)
    requires Tagged(parser, c) && p <= |c| && IsBoundary(c, p)
    ensures var pass := PassFrom(parser, c, false, p, lineNo, prev, db);
            pass.Indexed? && (k in pass.db <==> k in db || k == LAST || IsSpelling(parser, c, p, k))
    decreases |c| - p
  {
    hide PassFrom, RecordAt, LineEnd, IsNoise, IsSpelling, LinesRead, Line;
    var s := RecordAt(c, p);
    RecordAtIsFirst(c, p);
    NextLine(c, p);
    PassFromUnfolds(parser, c, false, p, lineNo, prev, db);
    SpellingsFrom(parser, c, p, k);
    if s < |c| {
      var f := parser.parse(Line(c, s)).value;
      KeysAreSpellings(parser, c, LineEnd(c, s), lineNo + LinesRead(c, p), if f.tag[0] == COLON then s else -1,
                       db[f.oid := Entry(s, f.tag[0] == COLON, prev)], k);
    }
  }

  lemma SpelledAt(parser: TextParser, c: Bytes, s: nat)
    ensures parser.parse(Line(c, s)).Some? ==> SpellingAt(parser, c, s) == parser.parse(Line(c, s)).value.oid
  {}

  /** The part of an index a blank tag leaves holds the records before it, under their spellings. */
  lemma {:induction false} PartialKeysAreSpellings(parser: TextParser, c: Bytes, p: nat, lineNo: nat, prev: int,
                                                   db: Index, u: nat, k: Bytes)
    requires p <= |c| && IsBoundary(c, p)
    requires IsFirstUntagged(parser, c, p, u) && parser.parse(Line(c, u)).Some?
    ensures var pass := PassFrom(parser, c, false, p, lineNo, prev, db);
            && pass.BlankTag?
            && (k in pass.partial <==>
                k in db || exists s: nat :: IsRecord(c, s) && p <= s < u && k == SpellingAt(parser, c, s))
    decreases |c| - p
  {
    hide PassFrom, RecordAt, LineEnd, LinesRead, Line, IsRecord, IsBoundary, SpellingAt;
    var s := RecordAt(c, p);
    RecordsFrom(c, p);
    PassFromUnfolds(parser, c, false, p, lineNo, prev, db);
    if s != u {
      var e := LineEnd(c, s);
      var f := parser.parse(Line(c, s)).value;
      var subtree := f.tag[0] == COLON;
      SpelledAt(parser, c, s);
      PartialKeysAreSpellings(parser, c, e, lineNo + LinesRead(c, p), if subtree then s else -1,
                              db[f.oid := Entry(s, subtree, prev)], u, k);
    }
  }

  /** When the OID text the program prints reads back, the loop finds every record it reads in the
      index if and only if all OIDs are spelt that way. */
  lemma FoundIffCanonical(parser: TextParser, c: Bytes)
    requires Sorted(parser, c) && Readable(parser, c) && Tagged(parser, c)
    requires parser.evaluateOid(LAST) == None && forall oid :: parser.evaluateOid(OidText(oid)) == Some(oid)
    ensures var pass := IndexPass(parser, c);
            && pass.Indexed?
            && ((forall s: nat :: IsRecord(c, s) ==> KeyAt(parser, c, s) in pass.db) <==> Canonical(parser, c))
  {
    hide PassFrom, OidText, Less, IsNoise, Line, RecordAt, LineEnd;
    KeysAreSpellings(parser, c, 0, 0, -1, map[], LAST);
    forall s: nat | IsRecord(c, s)
      ensures KeyAt(parser, c, s) in IndexPass(parser, c).db <==> SpellingAt(parser, c, s) == KeyAt(parser, c, s)
    {
      var key := KeyAt(parser, c, s);
      KeysAreSpellings(parser, c, 0, 0, -1, map[], key);
      LastIsNoOid(OidAt(parser, c, s));
      if IsSpelling(parser, c, 0, key) {
        var t: nat :| IsRecord(c, t) && 0 <= t && key == SpellingAt(parser, c, t);
        assert OidAt(parser, c, t) == OidAt(parser, c, s);
        if s != t {
          KeysDiffer(parser, c, s, t);
        }
      }
    }
  }
}
