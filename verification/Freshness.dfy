/** Freshness of the index over every interleaving of modifications, evictions and requests. */
module Freshness {
  import opened Wrappers
  import opened Texts
  import opened TextFiles
  import opened Recordings
  import opened Indexing
  import opened RecordIndexes

  /** What can happen to one data file. A time is the modification time the text file or a new index
      file gets, in whole seconds; a moved or restored text file brings along one from the past. */
  datatype Event =
    | Modified(text: Bytes, time: int)
    | Evicted
    | Reindexed(force: bool, validate: bool, recognised: bool, time: int)
    | Requested(recognised: bool, time: int)

  /** A data file is evicted only while open, and re-indexed only while closed. */
  predicate IsPossible(s: State, e: Event) {
    match e
    case Evicted => s.handles.Some?
    case Reindexed(_, _, _, _) => s.handles.None?
    case _ => true
  }

  function Step(parser: TextParser, s: State, e: Event): State {
    match e
    case Modified(text, time) => s.(disk := s.disk.(text := text, textTime := time))
    case Evicted => s.(handles := None)
    case Reindexed(force, validate, recognised, time) =>
      var r := CreateOn(parser, s.disk, force, validate, recognised, time);
      State(r.disk, s.handles, if r.fault.NoFault? then s.disk.textTime else s.seenTime)
    case Requested(recognised, time) => OpenStep(parser, s, recognised, time).0
  }

  /** The index of the current text: what an indexing pass over it writes. */
  function WrittenFor(parser: TextParser, text: Bytes): Option<Index> {
    match IndexPass(parser, text)
    case Indexed(db) => Some(db)
    case BlankTag(db) => Some(db)
    case DataError(_) => None
  }

  /** An index file newer than the text, and an index open with the modification time the text has,
      are those of the current text. */
  ghost predicate Inv(parser: TextParser, s: State) {
    && (s.disk.stored.Some? && s.disk.textTime < s.disk.stored.value.time ==>
          WrittenFor(parser, s.disk.text) == Some(s.disk.stored.value.db))
    && (s.handles.Some? && s.seenTime == s.disk.textTime ==>
          s.handles.value.content == s.disk.text && WrittenFor(parser, s.disk.text) == Some(s.handles.value.db))
  }

  /** A modification gets another time than the one an open data file was seen with, and the index
      file is not newer. */
  predicate IsNoticeable(s: State, e: Event) {
    e.Modified? ==>
      && (s.handles.Some? ==> s.seenTime != e.time)
      && (s.disk.stored.Some? ==> s.disk.stored.value.time <= e.time)
  }

  /** Checking values as well refuses more recordings but never writes another index. */
  lemma {:induction false} ValidationWritesTheSame(parser: TextParser, c: Bytes, p: nat,
                                                   lineNo: nat, prev: int, db: Index)
    ensures var checked := PassFrom(parser, c, true, p, lineNo, prev, db);
            checked.DataError? || checked == PassFrom(parser, c, false, p, lineNo, prev, db)
    decreases |c| - p
  {
    hide RecordAt, LineEnd, LinesRead, Line;
    var s := RecordAt(c, p);
    if s < |c| && parser.parse(Line(c, s)).Some? {
      var f := parser.parse(Line(c, s)).value;
      if f.tag != [] && parser.evaluateOid(f.oid).Some? {
        var subtree := f.tag[0] == COLON;
        ValidationWritesTheSame(parser, c, LineEnd(c, s), lineNo + LinesRead(c, p), if subtree then s else -1,
                                db[f.oid := Entry(s, subtree, prev)]);
      }
    }
  }

  /** When an index is made and what is left: the index file there is kept when it is newer than the
      text, of a known format and no rebuild is forced; else a new one is written if every record can
      be parsed and has a tag, and, with validation, has an OID that can be read. */
  lemma CreatesIff(parser: TextParser, d: Disk, force: bool, validate: bool, recognised: bool, now: int)
    ensures var r := CreateOn(parser, d, force, validate, recognised, now);
            var kept := !force && recognised && d.stored.Some? && d.textTime < d.stored.value.time;
            var accepted := Tagged(parser, d.text) && (validate ==> Readable(parser, d.text));
            && (r.fault.NoFault? <==> kept || accepted)
            && (kept ==> r.disk == d)
            && (!kept && accepted ==> r.disk.stored.Some? && r.disk.stored.value.time == now)
            && (!kept && r.fault.SnmpsimError? ==> r.disk.stored.None?)
  {
    hide PassFrom, Tagged, Readable;
    IndexedIffTagged(parser, d.text);
    ValidatedIff(parser, d.text);
  }

  lemma CreatedIsOfTheText(parser: TextParser, d: Disk, force: bool, validate: bool, recognised: bool, now: int)
    ensures var r := CreateOn(parser, d, force, validate, recognised, now);
            && r.disk.text == d.text && r.disk.textTime == d.textTime
            && (r.disk == d || r.disk.stored.None?
                || (r.disk.stored.value.time == now && WrittenFor(parser, d.text) == Some(r.disk.stored.value.db)))
  {
    hide PassFrom;
    ValidationWritesTheSame(parser, d.text, 0, 0, -1, map[]);
  }

  lemma StepKeepsInv(parser: TextParser, s: State, e: Event)
    requires Inv(parser, s) && IsPossible(s, e) && IsNoticeable(s, e)
    ensures Inv(parser, Step(parser, s, e))
  {
    hide PassFrom, IndexPass;
    match e
    case Evicted =>
    case Modified(_, _) =>
    case Reindexed(force, validate, recognised, time) =>
      CreatedIsOfTheText(parser, s.disk, force, validate, recognised, time);
    case Requested(recognised, time) =>
      CreatedIsOfTheText(parser, s.disk, false, false, recognised, time);
  }

  function Run(parser: TextParser, s: State, es: seq<Event>): State
    decreases |es|
  {
    if es == [] then s else Run(parser, Step(parser, s, es[0]), es[1..])
  }

  /** A run of possible events in which every modification can be noticed. */
  ghost predicate IsRun(parser: TextParser, s: State, es: seq<Event>)
    decreases |es|
  {
    es != [] ==>
      && IsPossible(s, es[0]) && IsNoticeable(s, es[0])
      && IsRun(parser, Step(parser, s, es[0]), es[1..])
  }

  lemma {:induction false} RunKeepsInv(parser: TextParser, s: State, es: seq<Event>)
    requires Inv(parser, s) && IsRun(parser, s, es)
    ensures Inv(parser, Run(parser, s, es))
    decreases |es|
  {
    if es != [] {
      StepKeepsInv(parser, s, es[0]);
      RunKeepsInv(parser, Step(parser, s, es[0]), es[1..]);
    }
  }

  /** A modification gets a later time than the text had, and than the index file has. */
  predicate IsLater(s: State, e: Event) {
    e.Modified? ==>
      && s.disk.textTime < e.time
      && (s.disk.stored.Some? ==> s.disk.stored.value.time <= e.time)
  }

  ghost predicate IsLaterRun(parser: TextParser, s: State, es: seq<Event>)
    decreases |es|
  {
    es != [] ==>
      IsPossible(s, es[0]) && IsLater(s, es[0]) && IsLaterRun(parser, Step(parser, s, es[0]), es[1..])
  }

  /** Modifications with later and later times can all be noticed. */
  lemma {:induction false} LaterIsNoticeable(parser: TextParser, s: State, es: seq<Event>)
    requires IsLaterRun(parser, s, es) && (s.handles.Some? ==> s.seenTime <= s.disk.textTime)
    ensures IsRun(parser, s, es)
    decreases |es|
  {
    hide IndexPass;
    if es != [] {
      LaterIsNoticeable(parser, Step(parser, s, es[0]), es[1..]);
    }
  }

  /** A data file that has not been opened, with no index file newer than its text, is where runs start from. */
  lemma InvAtFirst(parser: TextParser, disk: Disk)
    ensures disk.stored.None? || disk.stored.value.time <= disk.textTime ==> Inv(parser, State(disk, None, 0))
  {}

  /** After any run, a request gets the index of the current text when that can be indexed, and the
      handled error when a record of it is refused. A text with a blank tag fails unhandled or is
      served by the part of its index before the blank tag. */
  lemma RequestsGetTheCurrentIndex(parser: TextParser, s: State, es: seq<Event>, recognised: bool, time: int)
    requires Inv(parser, s) && IsRun(parser, s, es)
    ensures var before := Run(parser, s, es);
            var (after, fault) := OpenStep(parser, before, recognised, time);
            match IndexPass(parser, before.disk.text)
            case Indexed(db) => fault == NoFault && after.handles == Some(Handles(before.disk.text, db))
            case DataError(_) => fault == SnmpsimError && after.handles == None
            case BlankTag(db) => if fault == NoFault then after.handles == Some(Handles(before.disk.text, db))
                                 else fault == TagFailed && after.handles == None
  {
    hide PassFrom, IndexPass;
    RunKeepsInv(parser, s, es);
  }

  /** When the first record without a tag can be parsed, its tag being blank, the part of the index
      before it is left behind and served from the second request on. */
  lemma BlankTagServedPartially(parser: TextParser, s: State, t1: int, t2: int)
    requires s.handles.None? && StopsAt(parser, s.disk.text, 0, true)
    requires !IsReusable(s.disk, true) && s.disk.textTime < t1
    ensures var (first, fault1) := OpenStep(parser, s, true, t1);
            var (second, fault2) := OpenStep(parser, first, true, t2);
            var pass := IndexPass(parser, s.disk.text);
            && fault1 == TagFailed && fault2 == NoFault
            && pass.BlankTag? && second.handles == Some(Handles(s.disk.text, pass.partial))
  {
    hide PassFrom, IndexPass, StopsAt;
    IndexedIffTagged(parser, s.disk.text);
  }

  /** Whatever has happened before, a request after a modification gets the index of the new text if
      and only if, with the time an open data file was seen with, what is open is that anyway, and
      otherwise an index file newer than the text is. */
  lemma NoticedIff(parser: TextParser, s: State, text: Bytes, time: int, recognised: bool, now: int)
    requires Tagged(parser, text)
    ensures var modified := Step(parser, s, Modified(text, time));
            var (after, fault) := OpenStep(parser, modified, recognised, now);
            var pass := IndexPass(parser, text);
            && fault == NoFault && pass.Indexed?
            && (after.handles == Some(Handles(text, pass.db)) <==>
                if s.handles.Some? && s.seenTime == time then s.handles.value == Handles(text, pass.db)
                else IsReusable(modified.disk, recognised) ==> s.disk.stored.value.db == pass.db)
  {
    hide PassFrom, IndexPass, Tagged;
    IndexedIffTagged(parser, text);
  }

  /** And a new text that cannot be indexed is refused in just those cases in which neither what is
      open nor an index file is taken for that of the new text. */
  lemma RefusedIff(parser: TextParser, s: State, text: Bytes, time: int, recognised: bool, now: int)
    requires !Tagged(parser, text)
    ensures var modified := Step(parser, s, Modified(text, time));
            var fault := OpenStep(parser, modified, recognised, now).1;
            if (s.handles.Some? && s.seenTime == time) || IsReusable(modified.disk, recognised) then fault == NoFault
            else fault == if StopsAt(parser, text, 0, true) then TagFailed else SnmpsimError
  {
    hide PassFrom, IndexPass, Tagged, StopsAt;
    IndexedIffTagged(parser, text);
  }

  /** A modification with the time the open data file was seen with, as within the same second,
      leaves the old text and index in use. */
  lemma SameTimeGoesUnnoticed(parser: TextParser, before: Bytes, text: Bytes, time: int, t1: int, t2: int)
    requires Tagged(parser, before)
    ensures var first := OpenStep(parser, State(Disk(before, time, None), None, 0), true, t1).0;
            var (after, fault) := OpenStep(parser, Step(parser, first, Modified(text, time)), true, t2);
            var pass := IndexPass(parser, before);
            fault == NoFault && pass.Indexed? && after.handles == Some(Handles(before, pass.db))
  {
    hide PassFrom, IndexPass, Tagged;
    IndexedIffTagged(parser, before);
  }

  /** A later one that is older than the index file, as the preserved time of a file that was moved
      in place may be, has the new text served with the index of the old one. */
  lemma PreservedTimeReusesTheIndex(parser: TextParser, before: Bytes, text: Bytes,
                                    time: int, later: int, t1: int, t2: int)
    requires Tagged(parser, before) && time < later < t1
    ensures var first := OpenStep(parser, State(Disk(before, time, None), None, 0), true, t1).0;
            var (after, fault) := OpenStep(parser, Step(parser, first, Modified(text, later)), true, t2);
            var pass := IndexPass(parser, before);
            fault == NoFault && pass.Indexed? && after.handles == Some(Handles(text, pass.db))
  {
    hide PassFrom, IndexPass, Tagged;
    IndexedIffTagged(parser, before);
  }
}
