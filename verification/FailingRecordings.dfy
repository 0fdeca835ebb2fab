/** Recordings of octet strings on which the program falls short, written the way .snmprec files are. */
module FailingRecordings {
  import opened Wrappers
  import opened Oids
  import opened Texts
  import opened OidTexts
  import opened TextFiles
  import opened Recordings
  import opened FileSearch
  import opened Indexing
  import opened RecordIndexes
  import opened Freshness
  import opened Requests
  import opened Serving
  import opened Snmprec
  import opened SnmprecRoundTrips
  import opened ManageRecords
  import opened ManagedRecordings
  import opened SnmprecRecordings

  function Blanks(n: nat): (text: Bytes)
    ensures |text| == n && forall i :: 0 <= i < n ==> text[i] == EOL
  {
    seq(n, _ => EOL)
  }

  lemma BlankLine(c: Bytes, p: nat)
    requires p < |c| && c[p] == EOL
    ensures LineEnd(c, p) == p + 1 && IsNoise(Line(c, p))
  {
    assert Line(c, p) == [EOL];
    assert TrimLeft([EOL], IsSpace) == TrimLeft([EOL][1..], IsSpace) == [];
  }

  lemma {:induction false} NothingInBlanks(line: Bytes, n: nat, p: nat)
    requires IsRecordLine(line) && |line| <= p <= |line| + n
    ensures RecordAt(line + Blanks(n), p) == |line| + n && IsLineStart(line + Blanks(n), p)
    decreases |line| + n - p
  {
    hide IsNoise, LineEnd, Line;
    var c := line + Blanks(n);
    assert c[p - 1] == EOL;
    if p < |c| {
      assert c[p] == EOL;
      BlankLine(c, p);
      NothingInBlanks(line, n, p + 1);
    }
  }

  /** One line and blank lines: the line is the only record. */
  lemma OnlyRecord(line: Bytes, n: nat, s: nat)
    requires IsRecordLine(line)
    ensures IsRecord(line + Blanks(n), s) <==> s == 0
    ensures Line(line + Blanks(n), 0) == line
  {
    hide IsNoise, RecordAt, LineEnd;
    var c := line + Blanks(n);
    RecordsOfTwoBack(line, Blanks(n));
    if IsRecord(c, s) && s > 0 {
      RecordsOfTwo(line, Blanks(n), s);
      NothingInBlanks(line, n, s);
      RecordFacts(c, s);
    }
  }

  /** A recording with one record. */
  lemma OneRecord(line: Bytes, n: nat)
    requires IsRecordLine(line)
    ensures var c := line + Blanks(n);
            && Sorted(PARSER, c) && IsRecord(c, 0) && OidAt(PARSER, c, 0) == OidOf(PARSER, line)
            && (Readable(PARSER, c) <==> PARSER.Evaluate(line).Some?)
            && (Tagged(PARSER, c) <==> HasTag(PARSER, line))
            && (NoSubtrees(PARSER, c) <==> !PARSER.IsSubtree(line))
            && (!HasTag(PARSER, line) ==> IsFirstUntagged(PARSER, c, 0, 0))
  {
    hide IsRecord, Line, IsNoise, HasTag;
    forall s: nat
      ensures IsRecord(line + Blanks(n), s) <==> s == 0
      ensures Line(line + Blanks(n), 0) == line
    {
      OnlyRecord(line, n, s);
    }
  }

  /** Blank lines behind the only record, as many as that has bytes, catch the first pivot. */
  lemma BlanksCatchThePivot(line: Bytes, n: nat, oid: Oid)
    requires IsRecordLine(line) && |line| <= n
    ensures Overshoots(PARSER, line + Blanks(n), oid)
  {
    hide RecordAt;
    var c := line + Blanks(n);
    NothingInBlanks(line, n, |c| / 2);
    assert LineStart(c, |c| / 2) == |c| / 2;
  }

  /** The record of an octet string and enough blank lines: a recording that can be indexed and
      searched and holds the value, yet a GETNEXT from any OID below answers endOfMib. */
  lemma TrailingBlanksHideTheRecord(oid: Oid, tag: Bytes, v: Bytes, nohex: bool, n: nat, q: Query)
    requires oid != [] && IsOctetTag(tag) && Record(oid, tag, v, nohex).Some? && |Record(oid, tag, v, nohex).value| <= n
    requires q.nextFlag && !q.setFlag && Less(q.oid, oid)
    ensures var c := Record(oid, tag, v, nohex).value + Blanks(n);
            && Sorted(PARSER, c) && Readable(PARSER, c) && IndexPass(PARSER, c).Indexed?
            && IsStoreOf(map[oid := Content(tag, v)], PARSER, ContentOf, c)
            && AnswerTo(PARSER, ContentOf, c, q) == VarBind(q.oid, EndOfMib)
  {
    hide Record, IsRecord, Line, IsNoise, PassFrom, AnswerTo, Overshoots, Less, ContentOf, Diversion;
    var line := Record(oid, tag, v, nohex).value;
    var c := line + Blanks(n);
    RecordReadsBack(Rec(oid, Content(tag, v)), nohex);
    assert Format(nohex)(Rec(oid, Content(tag, v))).value == line;
    OneRecord(line, n);
    IndexedIffTagged(PARSER, c);
    forall s: nat
      ensures IsRecord(c, s) <==> s == 0
      ensures Line(c, 0) == line
    {
      OnlyRecord(line, n, s);
    }
    LessIrreflexive(oid);
    BlanksCatchThePivot(line, n, q.oid);
    NoDiversion(PARSER, ContentOf, c, q.oid);
    GetNextIs(PARSER, ContentOf, c, q);
  }

  const ONE_THREE: Bytes := [49, DOT, 51, BAR, 52, BAR, EOL]

  lemma OneThreeIsRecord()
    ensures Record([1, 3], OCTET_STRING, [], false) == Some(ONE_THREE)
  {
    assert Parts([1, 3]) == [[49], [51]] && [[49], [51]][1..] == [[51]];
    assert Join([[49], [51]], DOT) == [49] + [DOT] + Join([[51]], DOT) == [49, DOT, 51];
    assert OidText([1, 3]) == [49, DOT, 51];
    assert FormatValue(OCTET_STRING, [], false) == (OCTET_STRING, []);
    assert [49, DOT, 51] + [BAR] + OCTET_STRING + [BAR] + [] + [EOL] == ONE_THREE;
  }

  /** For one, seven blank lines behind the record 1.3|4| hide it. */
  lemma SevenBlankLines()
    ensures var c := ONE_THREE + Blanks(7);
            && Sorted(PARSER, c) && Readable(PARSER, c) && IndexPass(PARSER, c).Indexed?
            && IsStoreOf(map[[1, 3] := Content(OCTET_STRING, [])], PARSER, ContentOf, c)
            && AnswerTo(PARSER, ContentOf, c, Query([0, 0], NoSuchInstance, true, false, 1, 0))
               == VarBind([0, 0], EndOfMib)
  {
    hide AnswerTo, Record, Sorted, Readable, IsStoreOf, IndexPass;
    OneThreeIsRecord();
    TrailingBlanksHideTheRecord([1, 3], OCTET_STRING, [], false, 7, Query([0, 0], NoSuchInstance, true, false, 1, 0));
  }

  lemma StripsBlank()
    ensures StripText([SPACE]) == []
  {
    assert TrimLeft([SPACE], IsTextSpace) == TrimLeft([SPACE][1..], IsTextSpace) == [];
  }

  lemma BlankTagParses(key: Bytes, text: Bytes)
    requires key != [] && forall b :: b in key ==> IsDigit(b) || b == DOT
    requires forall b :: b in text ==> !IsLineSpace(b)
    ensures Parse(key + [BAR, SPACE, BAR] + text + [EOL]) == Some(Fields(key, [], text))
  {
    hide Find, Trim, IsLineSpace;
    var line := key + [BAR, SPACE, BAR] + text + [EOL];
    var i := |key|;
    assert line[0..i] == key && line[i + 1..i + 2] == [SPACE] && line[i + 3..] == text + [EOL];
    NoBarIn(key);
    FindIs(line, BAR, 0, i);
    FindIs(line, BAR, i + 1, i + 2);
    StripKeeps(key);
    StripsBlank();
    TrimLineEnd(text);
  }

  lemma BlankTagLine(key: Bytes, text: Bytes)
    requires key != [] && forall b :: b in key ==> IsDigit(b) || b == DOT
    requires forall b :: b in text ==> !IsLineSpace(b)
    ensures IsRecordLine(key + [BAR, SPACE, BAR] + text + [EOL])
  {
    var line := key + [BAR, SPACE, BAR] + text + [EOL];
    assert key[0] in key && line[0] == key[0];
    assert TrimLeft(line, IsSpace) == line;
    KeepsFirst(line, IsSpace);
    assert line[..|line| - 1] == key + [BAR, SPACE, BAR] + text;
  }

  lemma LinesOfOne(line: Bytes)
    requires IsRecordLine(line)
    ensures AllLines([line]) == [ReadLine(line, 1)]
  {
    hide IsNoise, LineEnd;
    LineEndInFirst(line, [], 0);
    assert line + [] == line && line[0..|line|] == line;
    assert RecordLines(line, |line|) == [];
    assert RecordLines(line, 0) == [ReadLine(line, 1)] + RecordLines(line, |line|);
    assert AllLines([line]) == RecordLines(line, 0) + AllLines([]);
  }

  /** A letter in the OID field ends the managing tool in the exception, whatever it has been told to ignore. */
  lemma LetterInOidStopsTheTool(oid: Bytes, tag: Bytes, text: Bytes, others: OtherTypes,
                                format: Rec -> Option<Bytes>, options: Options)
    requires forall b :: b in oid ==> IsAlnum(b) || b == DOT
    requires exists b :: b in oid && !IsDigit(b) && b != DOT
    requires tag != [] && forall b :: b in tag ==> IsAlnum(b)
    requires forall b :: b in text ==> !IsLineSpace(b)
    ensures Build(oid, tag, text).Some?
    ensures Expected([Build(oid, tag, text).value], EvaluateLine(others), format, options) == Stopped(Unhandled)
  {
    hide Parse, IsOidText, Expected, AllLines, ValueOf, IsNoise, IsRecordLine;
    ParsesWhatWasBuilt(oid, tag, text);
    LineOfRecord(oid, tag, text);
    var line := Build(oid, tag, text).value;
    var b :| b in oid && !IsDigit(b) && b != DOT;
    OtherBytesDoNot(oid, b);
    LinesOfOne(line);
    SnmprecFinishesIff([line], others, format, options);
    assert !IsPassed(others, options, AllLines([line])[0].line);
  }

  /** For one, the line abc|4|x does. */
  lemma AbcStopsTheTool(others: OtherTypes, format: Rec -> Option<Bytes>, options: Options)
    ensures Expected([[97, 98, 99, BAR, 52, BAR, 120, EOL]], EvaluateLine(others), format, options)
            == Stopped(Unhandled)
  {
    hide Expected;
    assert [97, 98, 99] + [BAR] + [52] + [BAR] + [120] + [EOL] == [97, 98, 99, BAR, 52, BAR, 120, EOL];
    assert 97 in [97, 98, 99];
    LetterInOidStopsTheTool([97, 98, 99], [52], [120], others, format, options);
  }

  /** A record with a blank tag: it reads as a record, and indexing ends in the exception with nothing indexed. */
  lemma BlankTagRecording(oid: Oid, text: Bytes)
    requires oid != [] && forall b :: b in text ==> !IsLineSpace(b)
    ensures var c := OidText(oid) + [BAR, SPACE, BAR] + text + [EOL];
            && IsRecord(c, 0) && PARSER.Evaluate(Line(c, 0)) == Some(oid)
            && IndexPass(PARSER, c) == BlankTag(map[])
  {
    hide PassFrom, IsNoise, IsOidText, OidText, OidOfText, Parse;
    var key := OidText(oid);
    var c := key + [BAR, SPACE, BAR] + text + [EOL];
    OidTextBytes(oid);
    OidTextNotEmpty(oid);
    BlankTagParses(key, text);
    BlankTagLine(key, text);
    OidTextsReadBack();
    assert c + Blanks(0) == c;
    OnlyRecord(c, 0, 0);
    OneRecord(c, 0);
    IndexedIffTagged(PARSER, c);
    UntaggedStops(PARSER, c, 0, 0, true);
    PassFromUnfolds(PARSER, c, false, 0, 0, -1, map[]);
  }

  /** Under the OID's text there is no entry for a record that spells it otherwise. */
  lemma OtherSpellingIsMissed(line: Bytes, oid: Oid)
    requires IsRecordLine(line) && PARSER.Evaluate(line) == Some(oid) && HasTag(PARSER, line)
    requires Parse(line).value.oid != OidText(oid)
    ensures IsRecord(line, 0) && Line(line, 0) == line && Sorted(PARSER, line) && Readable(PARSER, line)
    ensures IndexPass(PARSER, line).Indexed? && OidText(oid) !in IndexPass(PARSER, line).db
  {
    hide PassFrom, IsNoise, OidText, Parse, IsRecord, Line;
    assert line + Blanks(0) == line;
    forall s: nat
      ensures IsRecord(line, s) <==> s == 0
      ensures Line(line, 0) == line
    {
      OnlyRecord(line, 0, s);
    }
    OneRecord(line, 0);
    KeysAreSpellings(PARSER, line, 0, 0, -1, map[], OidText(oid));
    LastIsNoOid(oid);
  }

  /** A record whose OID is spelt with a leading dot: it reads as a record of the OID, and indexing
      succeeds, but the index has no entry under the OID's text. */
  lemma LeadingDotRecording(oid: Oid, tag: Bytes, v: Bytes, nohex: bool)
    requires oid != [] && IsOctetTag(tag)
    ensures var (tag', text) := FormatValue(tag, v, nohex);
            var built := Build([DOT] + OidText(oid), tag', text);
            built.Some? &&
            var c := built.value;
            && IsRecord(c, 0) && Sorted(PARSER, c) && OidAt(PARSER, c, 0) == oid
            && IndexPass(PARSER, c).Indexed? && OidText(oid) !in IndexPass(PARSER, c).db
  {
    hide IsNoise, HexifyValue, ReprBody, OidText, Parse, OidOfText, FormatValue, EvaluateValue, Sorted, IsRecord, Line;
    var (tag', text) := FormatValue(tag, v, nohex);
    var key := [DOT] + OidText(oid);
    ValueRoundTrip(tag, v, nohex);
    var c := Build(key, tag', text).value;
    OidTextBytes(oid);
    LeadingDotReadsAlike(oid);
    ParsesWhatWasBuilt(key, tag', text);
    LineOfRecord(key, tag', text);
    OtherSpellingIsMissed(c, oid);
  }

  /** The index of a recording with one record, spelt the printed way. */
  lemma IndexOfOne(line: Bytes, oid: Oid, other: Oid)
    requires ReadsBack(PARSER, line, oid)
    ensures Tagged(PARSER, line) && IndexPass(PARSER, line).Indexed?
    ensures OidText(other) in IndexPass(PARSER, line).db <==> other == oid
  {
    hide PassFrom, IsNoise, OidText, Parse, IsRecord, Line;
    EndsOnce(PARSER, line, oid);
    assert line + Blanks(0) == line;
    forall s: nat
      ensures IsRecord(line, s) <==> s == 0
      ensures Line(line, 0) == line
    {
      OnlyRecord(line, 0, s);
    }
    OneRecord(line, 0);
    KeysAreSpellings(PARSER, line, 0, 0, -1, map[], OidText(other));
    LastIsNoOid(other);
    if OidText(other) == OidText(oid) {
      OidTextInjective(other, oid);
    }
  }

  /** A recording replaced by another, with the time it had or with one from before it was indexed:
      the next request gets an index without the new record. */
  lemma ReplacedRecordingIsStale(before: Bytes, a: Oid, after: Bytes, b: Oid, time: int, later: int, t1: int, t2: int)
    requires ReadsBack(PARSER, before, a) && ReadsBack(PARSER, after, b) && a != b
    requires time <= later < t1
    ensures var s := OpenStep(PARSER, State(Disk(before, time, None), None, 0), true, t1).0;
            var (replaced, fault) := OpenStep(PARSER, Step(PARSER, s, Modified(after, later)), true, t2);
            && fault == NoFault && replaced.handles.Some? && OidText(b) !in replaced.handles.value.db
            && replaced.handles.value.content == if time == later then before else after
  {
    hide ReadsBack, IndexPass, OidText, Tagged;
    IndexOfOne(before, a, b);
    if time == later {
      SameTimeGoesUnnoticed(PARSER, before, after, time, t1, t2);
    } else {
      PreservedTimeReusesTheIndex(PARSER, before, after, time, later, t1, t2);
    }
  }

  /** For one, 1.3 replaced by 1.4: last changed at 1 and indexed at 5, the new one dated 1 or 3. */
  lemma OneFourIsMissed(now: int)
    ensures var before := Record([1, 3], OCTET_STRING, [], false);
            var after := Record([1, 4], OCTET_STRING, [], false);
            && before.Some? && after.Some?
            && var s := OpenStep(PARSER, State(Disk(before.value, 1, None), None, 0), true, 5).0;
            && var same := OpenStep(PARSER, Step(PARSER, s, Modified(after.value, 1)), true, now).0.handles;
            && var preserved := OpenStep(PARSER, Step(PARSER, s, Modified(after.value, 3)), true, now).0.handles;
            && same.Some? && same.value.content == before.value
            && preserved.Some? && preserved.value.content == after.value && OidText([1, 4]) !in preserved.value.db
  {
    hide ReadsBack, IndexPass, OidText, Record, OpenStep, Step, ContentOf;
    RecordReadsBack(Rec([1, 3], Content(OCTET_STRING, [])), false);
    RecordReadsBack(Rec([1, 4], Content(OCTET_STRING, [])), false);
    var before := Record([1, 3], OCTET_STRING, [], false).value;
    var after := Record([1, 4], OCTET_STRING, [], false).value;
    ReplacedRecordingIsStale(before, [1, 3], after, [1, 4], 1, 1, 5, now);
    ReplacedRecordingIsStale(before, [1, 3], after, [1, 4], 1, 3, 5, now);
  }
}
