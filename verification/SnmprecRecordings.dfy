/** From input files over the managing tool to answers, for octet strings in .snmprec files. */
module SnmprecRecordings {
  import opened Wrappers
  import opened Oids
  import opened Texts
  import opened OidTexts
  import opened TextFiles
  import opened Recordings
  import opened Indexing
  import opened SearchTails
  import opened Requests
  import opened Serving
  import opened Snmprec
  import opened SnmprecRoundTrips
  import opened ManageRecords
  import opened ManagedRecordings

  /** `evaluate_oid`; None stands for the error on a text that is no OID. */
  function EvaluateOid(text: Bytes): Option<Oid> {
    if IsOidText(text) then Some(OidOfText(text)) else None
  }

  /** The .snmprec record type. */
  const PARSER := TextParser(Parse, EvaluateOid)

  /** Its OID texts read back, and "last" is none, as the index takes for granted. */
  lemma OidTextsReadBack()
    ensures PARSER.evaluateOid(LAST) == None && forall oid :: PARSER.evaluateOid(OidText(oid)) == Some(oid)
  {
    hide OidText, OidOfText, IsOidText;
    assert 108 in LAST;
    OtherBytesDoNot(LAST, 108);
    forall oid: Oid
      ensures EvaluateOid(OidText(oid)) == Some(oid)
    {
      OidTextBytes(oid);
      DigitsAndDotsRead(OidText(oid));
      OidTextRoundTrip(oid);
    }
  }

  /** The tag of a record served as it stands: up to a colon with no module named behind it. */
  function StaticTag(tag: Bytes): Option<Bytes> {
    var i := Find(tag, COLON);
    if i + 1 < |tag| then None else Some(tag[..i])
  }

  /** The content of an octet string record served as it stands. */
  function ContentOf(line: Bytes): Option<Content> {
    match Parse(line)
    case None => None
    case Some(f) =>
      match StaticTag(f.tag)
      case None => None
      case Some(tag) =>
        match EvaluateValue(tag, f.value)
        case None => None
        case Some(octets) => Some(Content(UnpackTag(tag).0, octets))
  }

  lemma StaticTagKeeps(tag: Bytes)
    requires forall b :: b in tag ==> IsAlnum(b)
    ensures StaticTag(tag) == Some(tag)
  {
    assert COLON !in tag && tag[0..|tag|] == tag[..|tag|] == tag;
    FindIs(tag, COLON, 0, |tag|);
  }

  /** No subtree record can be served as it stands. */
  lemma SubtreesNeedModules(line: Bytes)
    requires PARSER.IsSubtree(line)
    ensures ContentOf(line).None?
  {
    hide Parse;
    var tag := Parse(line).value.tag;
    FindIs(tag, COLON, 0, 0);
    assert tag[..0] == [];
    assert StaticTag(tag) == None || StaticTag(tag) == Some([]);
    assert EvaluateValue([], Parse(line).value.value) == None;
  }

  /** So none answers for the OIDs it covers. */
  lemma NothingDiverts(c: Bytes, oid: Oid)
    ensures !IsDiverted(PARSER, ContentOf, c, oid)
  {
    hide Parse, Diversion, ContentOf;
    var d := Diversion(PARSER, c, oid);
    if d >= 0 {
      DiversionIsSubtree(PARSER, c, oid);
      SubtreesNeedModules(Line(c, d));
    }
  }

  /** The values of types other than octet strings, read by pyasn1: any function of tag and text will do. */
  type OtherTypes = (Bytes, Bytes) -> Option<Bytes>

  /** `evaluate_value` in the managing tool, which knows no variation modules. */
  function ValueOf(others: OtherTypes, tag: Bytes, value: Bytes): Option<Bytes> {
    if IsOctetTag(UnpackTag(tag).0) then EvaluateValue(tag, value)
    else if COLON in tag then None else others(tag, value)
  }

  /** `evaluate` of a record line in the managing tool. */
  function EvaluateLine(others: OtherTypes): Bytes -> Evaluated {
    line =>
      match Parse(line)
      case None => Bad
      case Some(f) =>
        match EvaluateOid(f.oid)
        case None => Malformed
        case Some(oid) =>
          match ValueOf(others, f.tag, f.value)
          case None => Bad
          case Some(octets) => Good(Rec(oid, Content(UnpackTag(f.tag).0, octets)))
  }

  /** What the tool gets past: a record, or a line that is broken but for its OID when it has been
      told to ignore that. */
  predicate IsPassed(others: OtherTypes, options: Options, line: Bytes) {
    var f := Parse(line);
    if f.None? then options.ignoreBroken
    else IsOidText(f.value.oid) && (options.ignoreBroken || ValueOf(others, f.value.tag, f.value.value).Some?)
  }

  /** The tool finishes if and only if it gets past every line read. Else the first one it does not
      get past ends it in the exception if and only if that parses and its OID field is no OID. */
  lemma SnmprecFinishesIff(files: seq<Bytes>, others: OtherTypes, format: Rec -> Option<Bytes>, options: Options)
    ensures var (lines, o) := (AllLines(files), Expected(files, EvaluateLine(others), format, options));
            && (o.Done? <==> forall j :: 0 <= j < |lines| ==> IsPassed(others, options, lines[j].line))
            && (forall i :: 0 <= i < |lines| && !IsPassed(others, options, lines[i].line)
                            && (forall j :: 0 <= j < i ==> IsPassed(others, options, lines[j].line)) ==>
                  var f := Parse(lines[i].line);
                  o == Stopped(if f.Some? && !IsOidText(f.value.oid) then Unhandled else BrokenRecord))
  {
    hide AllLines, Expected, Parse, IsOidText, ValueOf;
    FinishesIff(files, EvaluateLine(others), format, options);
    var lines := AllLines(files);
    assert forall r: ReadLine :: IsPassed(others, options, r.line) <==> IsTakeable(EvaluateLine(others), options, r);
    forall i | 0 <= i < |lines| && !IsPassed(others, options, lines[i].line)
               && (forall j :: 0 <= j < i ==> IsPassed(others, options, lines[j].line))
      ensures IsFirstNotTakeable(EvaluateLine(others), options, lines, i)
    {}
  }

  function Format(nohex: bool): Rec -> Option<Bytes> {
    (r: Rec) => Record(r.oid, r.content.tag, r.content.octets, nohex)
  }

  lemma RecordTag(oid: Oid, tag: Bytes, v: Bytes, nohex: bool)
    requires oid != [] && IsOctetTag(tag)
    ensures Record(oid, tag, v, nohex).Some?
    ensures Parse(Record(oid, tag, v, nohex).value).Some?
    ensures UnpackTag(Parse(Record(oid, tag, v, nohex).value).value.tag).0 == tag
    ensures forall b :: b in Parse(Record(oid, tag, v, nohex).value).value.tag ==> IsAlnum(b)
  {
    hide Parse, OidText, FormatValue, EvaluateValue, UnpackTag, IsOctetTag;
    var (tag', text) := FormatValue(tag, v, nohex);
    ValueRoundTrip(tag, v, nohex);
    OidTextBytes(oid);
    OidTextNotEmpty(oid);
    ParsesWhatWasBuilt(OidText(oid), tag', text);
  }

  /** A record of an octet string reads back: its OID, its content, and no subtree. */
  lemma RecordReadsBack(r: Rec, nohex: bool)
    requires r.oid != [] && IsOctetTag(r.content.tag)
    ensures Format(nohex)(r).Some? && ReadsBack(PARSER, Format(nohex)(r).value, r.oid)
    ensures ContentOf(Format(nohex)(r).value) == Some(r.content) && !PARSER.IsSubtree(Format(nohex)(r).value)
  {
    hide Record, OidText, OidOfText, EvaluateValue, IsNoise, UnpackTag, Find, StripText, Trim;
    RecordRoundTrip(r.oid, r.content.tag, r.content.octets, nohex);
    OidTextsReadBack();
    RecordTag(r.oid, r.content.tag, r.content.octets, nohex);
    assert forall b :: b in Parse(Format(nohex)(r).value).value.tag ==> IsAlnum(b);
    StaticTagKeeps(Parse(Format(nohex)(r).value).value.tag);
  }

  /** Every record kept can be written. */
  ghost predicate AreOctetStrings(rs: seq<Rec>) {
    forall r :: r in rs ==> r.oid != [] && IsOctetTag(r.content.tag)
  }

  ghost predicate IsRecordOf(c: Bytes, s: nat, r: Rec) {
    OidAt(PARSER, c, s) == r.oid && ContentOf(Line(c, s)) == Some(r.content)
  }

  /** The recording at `c` holds just these records, in ascending order, ready to be served. */
  ghost predicate Holds(c: Bytes, rs: seq<Rec>) {
    && Sorted(PARSER, c) && Readable(PARSER, c) && Canonical(PARSER, c) && LastLineIsRecord(c) && NoSubtrees(PARSER, c)
    && (forall s: nat :: IsRecord(c, s) ==> exists r :: r in rs && IsRecordOf(c, s, r))
    && (forall r :: r in rs ==> exists s: nat :: IsRecord(c, s) && IsRecordOf(c, s, r))
  }

  lemma RecordLineIs(c: Bytes, s: nat, r: Rec, nohex: bool)
    requires r.oid != [] && IsOctetTag(r.content.tag) && Some(Line(c, s)) == Format(nohex)(r)
    ensures IsRecordOf(c, s, r) && !PARSER.IsSubtree(Line(c, s))
  {
    hide Format, Line, ContentOf, OidAt;
    RecordReadsBack(r, nohex);
    OidOfLine(PARSER, c, s, Line(c, s), r.oid);
  }

  /** A recording of octet strings that was sorted, de-duplicated and written holds the records merged. */
  lemma ManagedRecordingHolds(files: seq<Bytes>, evaluate: Bytes -> Evaluated, nohex: bool, options: Options)
    requires options.sortRecords && options.deduplicate && AreOctetStrings(Kept(files, evaluate, options))
    ensures var o := Expected(files, evaluate, Format(nohex), options);
            o.Done? ==> Holds(o.output, Merged(Kept(files, evaluate, options)))
  {
    hide Expected, Kept, Merged, TextOf, IsAscending, IsRecord, Line, Format, ContentOf, IsOctetTag, Sorted, Readable,
      Canonical, LastLineIsRecord, ReadsBack, OfOid, IsRecordOf;
    var format := Format(nohex);
    var kept := Kept(files, evaluate, options);
    forall r | r in kept
      ensures format(r).Some? && ReadsBack(PARSER, format(r).value, r.oid)
    {
      RecordReadsBack(r, nohex);
    }
    var rs := Merged(kept);
    var c := TextOf(format, rs);
    ManagedRecordingIsServable(PARSER, files, evaluate, format, options);
    MergedIsWritten(files, evaluate, format, options);
    MergedIsSorted(kept);
    TextIsRecording(PARSER, format, rs);
    forall s: nat | IsRecord(c, s)
      ensures !PARSER.IsSubtree(Line(c, s)) && exists r :: r in rs && IsRecordOf(c, s, r)
    {
      var r :| r in rs && Line(c, s) == format(r).value;
      RecordLineIs(c, s, r, nohex);
    }
    forall r | r in rs
      ensures exists s: nat :: IsRecord(c, s) && IsRecordOf(c, s, r)
    {
      var s := TextHoldsAll(PARSER, format, rs, r);
      RecordLineIs(c, s, r, nohex);
    }
  }

  lemma StoredContent(m: map<Oid, Content>, parser: TextParser, contents: Contents, c: Bytes, s: nat)
    requires IsStoreOf(m, parser, contents, c) && IsRecord(c, s) && contents(Line(c, s)).Some?
    ensures OidAt(parser, c, s) in m && m[OidAt(parser, c, s)] == contents(Line(c, s)).value
  {
    assert Serves(contents, c, s);
  }

  lemma {:induction false} OfOidMember(rs: seq<Rec>, oid: Oid, i: nat)
    requires i < |OfOid(rs, oid)|
    ensures OfOid(rs, oid)[i] in rs && OfOid(rs, oid)[i].oid == oid
  {
    if rs[0].oid == oid {
      if i > 0 {
        OfOidMember(rs[1..], oid, i - 1);
      }
    } else {
      OfOidMember(rs[1..], oid, i);
    }
  }

  lemma {:induction false} MemberOfOid(rs: seq<Rec>, r: Rec)
    requires r in rs
    ensures OfOid(rs, r.oid) != []
  {
    if rs[0] != r {
      assert r in rs[1..];
      MemberOfOid(rs[1..], r);
    }
  }

  lemma HeldAnswers(c: Bytes, rs: seq<Rec>, q: Query)
    requires Holds(c, rs) && !q.nextFlag && !q.setFlag
    ensures var read := OfOid(rs, q.oid);
            |read| <= 1 ==>
            AnswerTo(PARSER, ContentOf, c, q)
              == VarBind(q.oid, if read == [] then NoSuchInstance else Data(read[0].content))
  {
    hide IsRecord, Line, AnswerTo, ContentOf, Sorted, Readable, Canonical, LastLineIsRecord, NoSubtrees, OfOid, OidAt;
    var m := StoreFrom(PARSER, ContentOf, c, 0);
    StoreExists(PARSER, ContentOf, c);
    GetReadsTheMap(PARSER, ContentOf, c, q, m);
    var read := OfOid(rs, q.oid);
    if read != [] {
      OfOidMember(rs, q.oid, 0);
      var s: nat :| IsRecord(c, s) && IsRecordOf(c, s, read[0]);
      StoredContent(m, PARSER, ContentOf, c, s);
    } else if q.oid in m {
      var s := StoredAt(PARSER, ContentOf, c, m, q.oid);
      var r :| r in rs && IsRecordOf(c, s, r);
      MemberOfOid(rs, r);
      assert false;
    }
  }

  /** It answers every GET with the content read first for the OID, and noSuchInstance for an OID that was not read. */
  lemma ManagedRecordingAnswers(files: seq<Bytes>, evaluate: Bytes -> Evaluated,
                                nohex: bool, options: Options, q: Query)
    requires options.sortRecords && options.deduplicate && AreOctetStrings(Kept(files, evaluate, options))
    requires !q.nextFlag && !q.setFlag
    ensures var o := Expected(files, evaluate, Format(nohex), options);
            var read := OfOid(Kept(files, evaluate, options), q.oid);
            o.Done? ==>
              AnswerTo(PARSER, ContentOf, o.output, q)
              == VarBind(q.oid, if read == [] then NoSuchInstance else Data(read[0].content))
  {
    hide Expected, Kept, Merged, IsAscending, IsRecord, Line, Format, AnswerTo, ContentOf, Sorted, Readable, Canonical,
      LastLineIsRecord, NoSubtrees, OfOid, OidAt, AreOctetStrings;
    var c := Expected(files, evaluate, Format(nohex), options);
    if c.Done? {
      var rs := Merged(Kept(files, evaluate, options));
      ManagedRecordingHolds(files, evaluate, nohex, options);
      MergedIsSorted(Kept(files, evaluate, options));
      HeldAnswers(c.output, rs, q);
    }
  }

  /** The managing tool reads the record of an octet string back as it was. */
  lemma ToolReadsBack(others: OtherTypes, r: Rec, nohex: bool)
    requires r.oid != [] && IsOctetTag(r.content.tag)
    ensures Format(nohex)(r).Some? && EvaluateLine(others)(Format(nohex)(r).value) == Good(r)
  {
    hide Record, OidText, OidOfText, EvaluateValue, IsNoise, UnpackTag, Find, StripText, Trim, IsOidText;
    RecordRoundTrip(r.oid, r.content.tag, r.content.octets, nohex);
    OidTextsReadBack();
    RecordTag(r.oid, r.content.tag, r.content.octets, nohex);
  }
}
