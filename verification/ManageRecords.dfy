/** Managing recordings: reading, filtering, sorting, de-duplicating and writing records. */
module ManageRecords {
  import opened Wrappers
  import opened Oids
  import opened Texts
  import opened TextFiles
  import opened Recordings
  import opened FileSearch
  import opened Requests

  /** A record read. */
  datatype Rec = Rec(oid: Oid, content: Content)

  /** What evaluating a line comes to: the record, the error of a broken record, or another exception,
      as an OID field that is no OID raises it. */
  datatype Evaluated = Good(rec: Rec) | Bad | Malformed

  datatype Options = Options(sortRecords: bool, deduplicate: bool, ignoreBroken: bool,
                             startOid: Option<Oid>, stopOid: Option<Oid>) {
    /** Outside the range asked for; an empty OID counts as none given. */
    predicate Filters(oid: Oid) {
      || (startOid.Some? && startOid.value != [] && Less(oid, startOid.value))
      || (stopOid.Some? && stopOid.value != [] && Less(stopOid.value, oid))
    }
  }

  /** A record line with the number of lines read to get to and past it. */
  datatype ReadLine = ReadLine(line: Bytes, lines: nat)

  function RecordLines(c: Bytes, p: nat): seq<ReadLine>
    decreases |c| - p
  {
    var s := RecordAt(c, p);
    if s >= |c| then [] else [ReadLine(Line(c, s), LinesRead(c, p))] + RecordLines(c, LineEnd(c, s))
  }

  /** What ends the program early: a broken record, reported, or an exception nothing handles. */
  datatype Stop = BrokenRecord | Unhandled

  /** The records kept while reading and the counts. */
  datatype Gathered = Gathered(records: seq<Rec>, skipped: nat, broken: nat, lostComments: nat, stop: Option<Stop>)

  const NOTHING_YET := Gathered([], 0, 0, 0, None)

  function Take(evaluate: Bytes -> Evaluated, options: Options, g: Gathered, r: ReadLine): Gathered {
    var g1 := if r.lines != 1 then g.(lostComments := g.lostComments + 1) else g;
    match evaluate(r.line)
    case Malformed => g1.(stop := Some(Unhandled))
    case Bad => if options.ignoreBroken then g1.(broken := g1.broken + 1) else g1.(stop := Some(BrokenRecord))
    case Good(rec) =>
      if options.Filters(rec.oid) then g1.(skipped := g1.skipped + 1)
      else g1.(records := g1.records + [rec])
  }

  function TakeAll(evaluate: Bytes -> Evaluated, options: Options, g: Gathered, rs: seq<ReadLine>): Gathered
    decreases |rs|
  {
    if rs == [] || g.stop.Some? then g else TakeAll(evaluate, options, Take(evaluate, options, g, rs[0]), rs[1..])
  }

  function AllLines(files: seq<Bytes>): seq<ReadLine> {
    if files == [] then [] else RecordLines(files[0], 0) + AllLines(files[1..])
  }

  /** Sorting by OID keeps records of one OID in the order they were read. */
  function Insert(r: Rec, sorted: seq<Rec>): seq<Rec> {
    if sorted == [] || !Less(sorted[0].oid, r.oid) then [r] + sorted else [sorted[0]] + Insert(r, sorted[1..])
  }

  function SortByOid(rs: seq<Rec>): seq<Rec> {
    if rs == [] then [] else Insert(rs[0], SortByOid(rs[1..]))
  }

  /** The records whose OID has not been seen before. */
  function Unique(rs: seq<Rec>, seen: set<Oid>): seq<Rec> {
    if rs == [] then []
    else if rs[0].oid in seen then Unique(rs[1..], seen)
    else [rs[0]] + Unique(rs[1..], seen + {rs[0].oid})
  }

  /** The text of records that can all be written. */
  function TextOf(format: Rec -> Option<Bytes>, rs: seq<Rec>): Bytes {
    if rs == [] then []
    else (if format(rs[0]).Some? then format(rs[0]).value else []) + TextOf(format, rs[1..])
  }

  /** What the program leaves: the output and its counts, or why it ended early. */
  datatype Outcome =
    | Done(output: Bytes, written: nat, skipped: nat, duplicates: nat, lostComments: nat, broken: nat)
    | Stopped(stop: Stop)

  function Arrange(options: Options, rs: seq<Rec>): seq<Rec> {
    if options.sortRecords then SortByOid(rs) else rs
  }

  lemma TakeAllUnfolds(evaluate: Bytes -> Evaluated, options: Options, g: Gathered, r: ReadLine, rs: seq<ReadLine>)
    ensures g.stop.None? ==>
              TakeAll(evaluate, options, g, [r] + rs) == TakeAll(evaluate, options, Take(evaluate, options, g, r), rs)
    ensures g.stop.Some? ==> TakeAll(evaluate, options, g, rs) == g
    ensures TakeAll(evaluate, options, g, []) == g
  {
    assert ([r] + rs)[1..] == rs;
  }

  lemma TakeIs(evaluate: Bytes -> Evaluated, options: Options, g: Gathered, r: ReadLine)
    ensures Take(evaluate, options, g, r) ==
            var lost := if r.lines != 1 then g.lostComments + 1 else g.lostComments;
            match evaluate(r.line)
            case Malformed => Gathered(g.records, g.skipped, g.broken, lost, Some(Unhandled))
            case Bad =>
              if options.ignoreBroken then Gathered(g.records, g.skipped, g.broken + 1, lost, g.stop)
              else Gathered(g.records, g.skipped, g.broken, lost, Some(BrokenRecord))
            case Good(rec) =>
              if options.Filters(rec.oid) then Gathered(g.records, g.skipped + 1, g.broken, lost, g.stop)
              else Gathered(g.records + [rec], g.skipped, g.broken, lost, g.stop)
  {}

  lemma RecordLinesUnfold(c: Bytes, p: nat)
    requires p <= |c|
    ensures var s := RecordAt(c, p);
            && s <= |c| && (Line(c, s) == [] <==> s == |c|) && LineEnd(c, s) <= |c|
               && (s < |c| ==> p < LineEnd(c, s) && LinesRead(c, p) >= 1)
            && RecordLines(c, p) ==
               if s == |c| then [] else [ReadLine(Line(c, s), LinesRead(c, p))] + RecordLines(c, LineEnd(c, s))
  {}

  /** Reads the records of one file. */
  method ReadFile(file: TextFile, evaluate: Bytes -> Evaluated, options: Options, g0: Gathered) returns (g: Gathered)
    requires file.pos == 0 && g0.stop.None?
    modifies file
    ensures forall more :: TakeAll(evaluate, options, g0, RecordLines(file.content, 0) + more)
                           == TakeAll(evaluate, options, g, more)
  {
    hide TakeAll, Take, RecordLines, RecordAt, LinesRead, LineEnd;
    ghost var all := RecordLines(file.content, 0);
    var lineNo := 0;
    g := g0;
    while true
      invariant g.stop.None? && file.pos <= |file.content|
      invariant forall more :: TakeAll(evaluate, options, g0, all + more)
                               == TakeAll(evaluate, options, g, RecordLines(file.content, file.pos) + more)
      decreases |file.content| - file.pos
    {
      ghost var before, p := g, file.pos;
      RecordLinesUnfold(file.content, p);
      var line, recLineNo, _ := GetRecord(file, Some(lineNo));
      if line == [] {
        forall more
          ensures RecordLines(file.content, p) + more == more
        {}
        return;
      }
      var r := ReadLine(line, recLineNo.value - lineNo);
      if recLineNo.value != lineNo + 1 {
        lineNo := recLineNo.value;
        g := g.(lostComments := g.lostComments + 1);
      }
      match evaluate(line) {
        case Malformed =>
          g := g.(stop := Some(Unhandled));
        case Bad =>
          if options.ignoreBroken {
            g := g.(broken := g.broken + 1);
          } else {
            g := g.(stop := Some(BrokenRecord));
          }
        case Good(rec) =>
          if options.Filters(rec.oid) {
            g := g.(skipped := g.skipped + 1);
          } else {
            g := g.(records := g.records + [rec]);
          }
      }
      TakeIs(evaluate, options, before, r);
      forall more
        ensures TakeAll(evaluate, options, before, RecordLines(file.content, p) + more)
                == TakeAll(evaluate, options, g, RecordLines(file.content, file.pos) + more)
      {
        assert RecordLines(file.content, p) + more == [r] + (RecordLines(file.content, file.pos) + more);
        TakeAllUnfolds(evaluate, options, before, r, RecordLines(file.content, file.pos) + more);
      }
      if g.stop.Some? {
        forall more
          ensures TakeAll(evaluate, options, g, RecordLines(file.content, file.pos) + more)
                  == TakeAll(evaluate, options, g, more)
        {
          TakeAllUnfolds(evaluate, options, g, r, RecordLines(file.content, file.pos) + more);
          TakeAllUnfolds(evaluate, options, g, r, more);
        }
        return;
      }
    }
  }

  lemma AllLinesUnfold(files: seq<Bytes>)
    ensures files == [] ==> AllLines(files) == []
    ensures files != [] ==> AllLines(files) == RecordLines(files[0], 0) + AllLines(files[1..])
  {}

  /** The writing loop: the output, the number of records written and the number of duplicates dropped. */
  function WriteAll(format: Rec -> Option<Bytes>, deduplicate: bool, rs: seq<Rec>,
                    seen: set<Oid>, output: Bytes, written: nat, duplicates: nat): (Bytes, nat, nat)
  {
    if rs == [] then (output, written, duplicates)
    else if deduplicate && rs[0].oid in seen then
      WriteAll(format, deduplicate, rs[1..], seen, output, written, duplicates + 1)
    else if format(rs[0]).None? then (output, written, duplicates)
    else WriteAll(format, deduplicate, rs[1..], if deduplicate then seen + {rs[0].oid} else seen,
                  output + format(rs[0]).value, written + 1, duplicates)
  }

  function Expected(files: seq<Bytes>, evaluate: Bytes -> Evaluated,
                    format: Rec -> Option<Bytes>, options: Options): Outcome
  {
    var g := TakeAll(evaluate, options, NOTHING_YET, AllLines(files));
    if g.stop.Some? then Stopped(g.stop.value)
    else
      var (output, written, duplicates) :=
        WriteAll(format, options.deduplicate, Arrange(options, g.records), {}, [], 0, 0);
      Done(output, written, g.skipped, duplicates, g.lostComments, g.broken)
  }

  /** `main` after the arguments are read: all files, then sorting, then writing without duplicates. */
  method Manage(files: seq<TextFile>, evaluate: Bytes -> Evaluated, format: Rec -> Option<Bytes>, options: Options)
    returns (outcome: Outcome)
    requires forall i :: 0 <= i < |files| ==> files[i].pos == 0
    requires forall i, j :: 0 <= i < j < |files| ==> files[i] != files[j]
    modifies set f | f in files
    ensures var contents := seq(|files|, i requires 0 <= i < |files| => files[i].content);
            outcome == Expected(contents, evaluate, format, options)
  {
    hide TakeAll, Take, RecordLines, Unique, TextOf, SortByOid, AllLines;
    ghost var contents := seq(|files|, i requires 0 <= i < |files| => files[i].content);
    var g := NOTHING_YET;
    assert contents[0..] == contents;
    for i := 0 to |files|
      invariant g.stop.None?
      invariant forall k :: i <= k < |files| ==> files[k].pos == 0
      invariant TakeAll(evaluate, options, NOTHING_YET, AllLines(contents))
                == TakeAll(evaluate, options, g, AllLines(contents[i..]))
    {
      AllLinesUnfold(contents[i..]);
      assert contents[i..][1..] == contents[i + 1..];
      g := ReadFile(files[i], evaluate, options, g);
      if g.stop.Some? {
        TakeAllUnfolds(evaluate, options, g, ReadLine([], 0), AllLines(contents[i + 1..]));
        return Stopped(g.stop.value);
      }
    }
    AllLinesUnfold(contents[|files|..]);
    TakeAllUnfolds(evaluate, options, g, ReadLine([], 0), []);
    var records := Arrange(options, g.records);
    var seen: set<Oid> := {};
    var output: Bytes := [];
    var written, duplicates := 0, 0;
    ghost var goal := WriteAll(format, options.deduplicate, records, {}, [], 0, 0);
    var k := 0;
    assert records[0..] == records;
    while k < |records|
      invariant k <= |records|
      invariant goal == WriteAll(format, options.deduplicate, records[k..], seen, output, written, duplicates)
    {
      var record := records[k];
      assert records[k..][1..] == records[k + 1..];
      k := k + 1;
      if options.deduplicate {
        if record.oid in seen {
          duplicates := duplicates + 1;
          continue;
        } else {
          seen := seen + {record.oid};
        }
      }
      var line := format(record);
      if line.None? {
        break;
      }
      output := output + line.value;
      written := written + 1;
    }
    return Done(output, written, g.skipped, duplicates, g.lostComments, g.broken);
  }
}
