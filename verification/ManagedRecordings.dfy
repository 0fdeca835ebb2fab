/** What sorting and de-duplicating leave is a recording that can be served. */
module ManagedRecordings {
  import opened Wrappers
  import opened Oids
  import opened Texts
  import opened OidTexts
  import opened TextFiles
  import opened Recordings
  import opened Indexing
  import opened SearchTails
  import opened ManageRecords

  /** The records of one OID, in order. */
  function OfOid(rs: seq<Rec>, oid: Oid): seq<Rec> {
    if rs == [] then [] else (if rs[0].oid == oid then [rs[0]] else []) + OfOid(rs[1..], oid)
  }

  ghost predicate IsOrdered(rs: seq<Rec>) {
    forall i, j :: 0 <= i < j < |rs| ==> AtMost(rs[i].oid, rs[j].oid)
  }

  ghost predicate IsAscending(rs: seq<Rec>) {
    forall i, j :: 0 <= i < j < |rs| ==> Less(rs[i].oid, rs[j].oid)
  }

  lemma {:induction false} InsertOrders(r: Rec, rs: seq<Rec>)
    requires IsOrdered(rs)
    ensures IsOrdered(Insert(r, rs)) && |Insert(r, rs)| == |rs| + 1
    ensures forall x :: x in Insert(r, rs) ==> x == r || x in rs
    ensures forall o :: OfOid(Insert(r, rs), o) == OfOid([r] + rs, o)
  {
    hide Less;
    assert ([r] + rs)[1..] == rs;
    if rs != [] {
      LessTotal(rs[0].oid, r.oid);
      var rest := Insert(r, rs[1..]);
      if Less(rs[0].oid, r.oid) {
        InsertOrders(r, rs[1..]);
        LessIrreflexive(r.oid);
        assert ([rs[0]] + rest)[1..] == rest && ([r] + rs[1..])[1..] == rs[1..];
        forall j | 0 <= j < |rest|
          ensures AtMost(rs[0].oid, rest[j].oid)
        {
          assert rest[j] in rest;
        }
      } else {
        forall j | 0 <= j < |rs|
          ensures AtMost(r.oid, rs[j].oid)
        {
          if Less(r.oid, rs[0].oid) && j > 0 && rs[0].oid != rs[j].oid {
            LessTransitive(r.oid, rs[0].oid, rs[j].oid);
          }
        }
      }
    }
  }

  /** Sorting orders by OID and keeps the records of each OID as they were read. */
  lemma {:induction false} SortIsStable(rs: seq<Rec>)
    ensures IsOrdered(SortByOid(rs)) && |SortByOid(rs)| == |rs|
    ensures forall x :: x in SortByOid(rs) ==> x in rs
    ensures forall o :: OfOid(SortByOid(rs), o) == OfOid(rs, o)
  {
    hide Less, Insert;
    if rs != [] {
      SortIsStable(rs[1..]);
      var sorted := SortByOid(rs[1..]);
      InsertOrders(rs[0], sorted);
      assert ([rs[0]] + sorted)[1..] == sorted;
    }
  }

  /** Of each OID not seen before, the first record stays. */
  lemma {:induction false} UniqueOfOid(rs: seq<Rec>, seen: set<Oid>, o: Oid)
    ensures OfOid(Unique(rs, seen), o) == if o in seen || OfOid(rs, o) == [] then [] else [OfOid(rs, o)[0]]
  {
    if rs != [] {
      var r := rs[0];
      if r.oid in seen {
        UniqueOfOid(rs[1..], seen, o);
      } else {
        UniqueOfOid(rs[1..], seen + {r.oid}, o);
        var rest := Unique(rs[1..], seen + {r.oid});
        assert ([r] + rest)[1..] == rest;
      }
    }
  }

  /** And nothing else. */
  lemma {:induction false} UniqueKeepsFirst(rs: seq<Rec>, seen: set<Oid>)
    ensures |Unique(rs, seen)| <= |rs|
    ensures forall x :: x in Unique(rs, seen) ==> x in rs && x.oid !in seen
  {
    if rs != [] {
      UniqueKeepsFirst(rs[1..], if rs[0].oid in seen then seen else seen + {rs[0].oid});
    }
  }

  lemma HeadIsLeast(rs: seq<Rec>)
    requires rs != [] && IsOrdered(rs)
    ensures IsOrdered(rs[1..]) && forall x :: x in rs[1..] ==> AtMost(rs[0].oid, x.oid)
  {
    hide AtMost;
  }

  lemma AscendsWithHead(r: Rec, rest: seq<Rec>)
    requires IsAscending(rest) && forall x :: x in rest ==> Less(r.oid, x.oid)
    ensures IsAscending([r] + rest)
  {
    hide Less;
  }

  lemma NothingAscends()
    ensures IsAscending([])
  {}

  lemma {:induction false} UniqueAscends(rs: seq<Rec>, seen: set<Oid>)
    requires IsOrdered(rs)
    ensures IsAscending(Unique(rs, seen))
  {
    hide Less, IsOrdered, IsAscending, OfOid;
    if rs != [] {
      var r := rs[0];
      HeadIsLeast(rs);
      if r.oid in seen {
        UniqueAscends(rs[1..], seen);
      } else {
        var rest := Unique(rs[1..], seen + {r.oid});
        UniqueAscends(rs[1..], seen + {r.oid});
        UniqueKeepsFirst(rs[1..], seen + {r.oid});
        AscendsWithHead(r, rest);
      }
    } else {
      NothingAscends();
    }
  }

  /** What is written of the records gathered when they are sorted and de-duplicated. */
  function Merged(rs: seq<Rec>): seq<Rec> {
    Unique(SortByOid(rs), {})
  }

  /** Sorted and de-duplicated records ascend strictly and hold every OID gathered once, with the content read first. */
  lemma MergedIsSorted(rs: seq<Rec>)
    ensures IsAscending(Merged(rs))
    ensures forall o :: OfOid(Merged(rs), o) == if OfOid(rs, o) == [] then [] else [OfOid(rs, o)[0]]
    ensures forall x :: x in Merged(rs) ==> x in rs
  {
    hide Unique, SortByOid, OfOid;
    SortIsStable(rs);
    UniqueAscends(SortByOid(rs), {});
    UniqueKeepsFirst(SortByOid(rs), {});
    forall o: Oid
      ensures OfOid(Unique(SortByOid(rs), {}), o) == if OfOid(rs, o) == [] then [] else [OfOid(rs, o)[0]]
    {
      UniqueOfOid(SortByOid(rs), {}, o);
    }
  }

  /** When every record can be written, the output is their text in order. */
  lemma {:induction false} WritesAll(format: Rec -> Option<Bytes>, deduplicate: bool, rs: seq<Rec>,
                                     seen: set<Oid>, output: Bytes, written: nat, duplicates: nat)
    requires forall r :: r in rs ==> format(r).Some?
    ensures var kept := if deduplicate then Unique(rs, seen) else rs;
            |kept| <= |rs| && WriteAll(format, deduplicate, rs, seen, output, written, duplicates)
            == (output + TextOf(format, kept), written + |kept|, duplicates + |rs| - |kept|)
  {
    if rs == [] {
      assert output + [] == output;
    } else {
      var r, rest := rs[0], rs[1..];
      if deduplicate && r.oid in seen {
        WritesAll(format, deduplicate, rest, seen, output, written, duplicates + 1);
      } else {
        var seen' := if deduplicate then seen + {r.oid} else seen;
        var kept := if deduplicate then Unique(rest, seen') else rest;
        WritesAll(format, deduplicate, rest, seen', output + format(r).value, written + 1, duplicates);
        assert ([r] + kept)[1..] == kept;
        assert output + format(r).value + TextOf(format, kept) == output + (format(r).value + TextOf(format, kept));
      }
    }
  }

  /** The first record that cannot be written ends the writing. */
  lemma {:induction false} WritesUpTo(format: Rec -> Option<Bytes>, deduplicate: bool, before: seq<Rec>, r: Rec,
                                      behind: seq<Rec>, seen: set<Oid>, output: Bytes, written: nat, duplicates: nat)
    requires forall x :: x in before ==> format(x).Some?
    requires format(r).None? && (deduplicate ==> r.oid !in seen && forall x :: x in before ==> x.oid != r.oid)
    ensures WriteAll(format, deduplicate, before + [r] + behind, seen, output, written, duplicates)
            == WriteAll(format, deduplicate, before, seen, output, written, duplicates)
    decreases |before|
  {
    var rs := before + [r] + behind;
    if before != [] {
      assert rs[1..] == before[1..] + [r] + behind && rs[0] == before[0];
      if deduplicate && before[0].oid in seen {
        WritesUpTo(format, deduplicate, before[1..], r, behind, seen, output, written, duplicates + 1);
      } else {
        WritesUpTo(format, deduplicate, before[1..], r, behind, if deduplicate then seen + {before[0].oid} else seen,
                   output + format(before[0]).value, written + 1, duplicates);
      }
    } else {
      assert rs[0] == r;
    }
  }

  lemma {:induction false} GatheringCounts(evaluate: Bytes -> Evaluated, options: Options,
                                           g: Gathered, rs: seq<ReadLine>)
    ensures var h := TakeAll(evaluate, options, g, rs);
            h.stop.None? ==>
                g.stop.None? && |h.records| + h.skipped + h.broken == |g.records| + g.skipped + g.broken + |rs|
    decreases |rs|
  {
    if rs != [] && g.stop.None? {
      GatheringCounts(evaluate, options, Take(evaluate, options, g, rs[0]), rs[1..]);
    }
  }

  /** A line that does not end the program. */
  predicate IsTakeable(evaluate: Bytes -> Evaluated, options: Options, r: ReadLine) {
    evaluate(r.line).Good? || (evaluate(r.line).Bad? && options.ignoreBroken)
  }

  ghost predicate IsFirstNotTakeable(evaluate: Bytes -> Evaluated, options: Options, rs: seq<ReadLine>, i: nat) {
    i < |rs| && !IsTakeable(evaluate, options, rs[i]) && forall j :: 0 <= j < i ==> IsTakeable(evaluate, options, rs[j])
  }

  lemma {:induction false} GatheringEnds(evaluate: Bytes -> Evaluated, options: Options, g: Gathered, rs: seq<ReadLine>)
    requires g.stop.None?
    ensures TakeAll(evaluate, options, g, rs).stop.None?
            <==> forall j :: 0 <= j < |rs| ==> IsTakeable(evaluate, options, rs[j])
    ensures forall i: nat :: IsFirstNotTakeable(evaluate, options, rs, i) ==>
              TakeAll(evaluate, options, g, rs).stop
                == Some(if evaluate(rs[i].line).Bad? then BrokenRecord else Unhandled)
    decreases |rs|
  {
    if rs != [] {
      var g' := Take(evaluate, options, g, rs[0]);
      var rest := rs[1..];
      assert g'.stop.None? <==> IsTakeable(evaluate, options, rs[0]);
      if g'.stop.None? {
        GatheringEnds(evaluate, options, g', rest);
        assert forall j :: 0 <= j < |rest| ==> rest[j] == rs[j + 1];
        assert forall j :: 0 < j < |rs| ==> rs[j] == rest[j - 1];
        forall i: nat | IsFirstNotTakeable(evaluate, options, rs, i)
          ensures i > 0 && IsFirstNotTakeable(evaluate, options, rest, i - 1) && rest[i - 1] == rs[i]
        {}
      }
    }
  }

  /** The tool finishes if and only if every line read is a record, or broken in a way it has been
      told to ignore; otherwise the first line that is not decides whether it ends with an error or
      in an exception. */
  lemma FinishesIff(files: seq<Bytes>, evaluate: Bytes -> Evaluated, format: Rec -> Option<Bytes>, options: Options)
    ensures var (lines, o) := (AllLines(files), Expected(files, evaluate, format, options));
            && (o.Done? <==> forall j :: 0 <= j < |lines| ==> IsTakeable(evaluate, options, lines[j]))
            && (forall i: nat :: IsFirstNotTakeable(evaluate, options, lines, i) ==>
                  o == Stopped(if evaluate(lines[i].line).Bad? then BrokenRecord else Unhandled))
  {
    hide TakeAll, WriteAll, AllLines;
    GatheringEnds(evaluate, options, NOTHING_YET, AllLines(files));
  }

  /** The records that pass the filter, as far as the reading got. */
  function Kept(files: seq<Bytes>, evaluate: Bytes -> Evaluated, options: Options): seq<Rec> {
    TakeAll(evaluate, options, NOTHING_YET, AllLines(files)).records
  }

  /** The lines are the records at the offsets given and no others from `p` on, in file order, each
      counted with the lines since the record before. */
  ghost predicate AreLinesAt(c: Bytes, p: nat, starts: seq<nat>, lines: seq<ReadLine>)
    requires p <= |c|
    decreases |starts|
  {
    if starts == [] then lines == [] && forall t: nat :: IsRecord(c, t) ==> t < p
    else
      var s := starts[0];
      && p <= s && IsRecord(c, s) && (forall t: nat :: IsRecord(c, t) && p <= t ==> s <= t)
      && lines != [] && lines[0] == ReadLine(Line(c, s), LineEnds(c, p, s) + 1)
      && AreLinesAt(c, LineEnd(c, s), starts[1..], lines[1..])
  }

  /** What is read of a file are all its records. */
  lemma {:induction false} LinesAreRecords(c: Bytes, p: nat) returns (starts: seq<nat>)
    requires p <= |c| && IsBoundary(c, p)
    ensures AreLinesAt(c, p, starts, RecordLines(c, p))
    decreases |c| - p
  {
    hide RecordAt, LineEnd, Line, IsBoundary, LineEnds, LinesRead;
    var s := RecordAt(c, p);
    RecordsFrom(c, p);
    RecordLinesUnfold(c, p);
    LinesReadCounts(c, p);
    if s == |c| {
      starts := [];
    } else {
      var rest := LinesAreRecords(c, LineEnd(c, s));
      starts := [s] + rest;
      assert starts[1..] == rest && RecordLines(c, p)[1..] == RecordLines(c, LineEnd(c, s));
    }
  }

  /** Not below the first OID asked for, and not above the last one; empty ones ask for nothing. */
  predicate IsWithin(start: Option<Oid>, stop: Option<Oid>, oid: Oid) {
    && (start.Some? && start.value != [] ==> AtMost(start.value, oid))
    && (stop.Some? && stop.value != [] ==> AtMost(oid, stop.value))
  }

  /** The records of the lines that have one. */
  function GoodOnes(evaluate: Bytes -> Evaluated, rs: seq<ReadLine>): seq<Rec> {
    if rs == [] then []
    else (if evaluate(rs[0].line).Good? then [evaluate(rs[0].line).rec] else []) + GoodOnes(evaluate, rs[1..])
  }

  function WithinOnes(start: Option<Oid>, stop: Option<Oid>, recs: seq<Rec>): seq<Rec> {
    if recs == [] then []
    else (if IsWithin(start, stop, recs[0].oid) then [recs[0]] else []) + WithinOnes(start, stop, recs[1..])
  }

  /** How many lines hold a broken record, and how many come behind comments or blank lines. */
  function BadOnes(evaluate: Bytes -> Evaluated, rs: seq<ReadLine>): nat {
    if rs == [] then 0 else (if evaluate(rs[0].line).Bad? then 1 else 0) + BadOnes(evaluate, rs[1..])
  }

  function CommentedOnes(rs: seq<ReadLine>): nat {
    if rs == [] then 0 else (if rs[0].lines == 1 then 0 else 1) + CommentedOnes(rs[1..])
  }

  lemma FiltersTheRest(options: Options, oid: Oid)
    ensures options.Filters(oid) <==> !IsWithin(options.startOid, options.stopOid, oid)
  {
    hide Less;
    if options.startOid.Some? {
      LessTotal(oid, options.startOid.value);
      LessIrreflexive(oid);
      if Less(oid, options.startOid.value) {
        LessAsymmetric(oid, options.startOid.value);
      }
    }
    if options.stopOid.Some? {
      LessTotal(oid, options.stopOid.value);
      LessIrreflexive(oid);
      if Less(options.stopOid.value, oid) {
        LessAsymmetric(options.stopOid.value, oid);
      }
    }
  }

  lemma WithinUnfolds(evaluate: Bytes -> Evaluated, start: Option<Oid>, stop: Option<Oid>, rs: seq<ReadLine>)
    requires rs != []
    ensures var e := evaluate(rs[0].line);
            var (good, rest) := (GoodOnes(evaluate, rs), GoodOnes(evaluate, rs[1..]));
            && |good| == |rest| + (if e.Good? then 1 else 0)
            && WithinOnes(start, stop, good) ==
               (if e.Good? && IsWithin(start, stop, e.rec.oid) then [e.rec] else []) + WithinOnes(start, stop, rest)
  {
    hide IsWithin;
    var rest := GoodOnes(evaluate, rs[1..]);
    assert [] + rest == rest && [] + WithinOnes(start, stop, rest) == WithinOnes(start, stop, rest);
    if evaluate(rs[0].line).Good? {
      assert ([evaluate(rs[0].line).rec] + rest)[1..] == rest;
    }
  }

  lemma NoneWithin(evaluate: Bytes -> Evaluated, start: Option<Oid>, stop: Option<Oid>)
    ensures GoodOnes(evaluate, []) == [] && WithinOnes(start, stop, []) == []
  {}

  lemma {:induction false} GathersWithin(evaluate: Bytes -> Evaluated, options: Options, g: Gathered, rs: seq<ReadLine>)
    ensures var h := TakeAll(evaluate, options, g, rs);
            var good := GoodOnes(evaluate, rs);
            var within := WithinOnes(options.startOid, options.stopOid, good);
            h.stop.None? ==> h.records == g.records + within && h.skipped + |within| == g.skipped + |good|
    decreases |rs|
  {
    hide IsWithin, GoodOnes, WithinOnes, Options.Filters;
    NoneWithin(evaluate, options.startOid, options.stopOid);
    if rs != [] && g.stop.None? {
      WithinUnfolds(evaluate, options.startOid, options.stopOid, rs);
      GathersWithin(evaluate, options, Take(evaluate, options, g, rs[0]), rs[1..]);
      if evaluate(rs[0].line).Good? {
        FiltersTheRest(options, evaluate(rs[0].line).rec.oid);
      }
    }
  }

  lemma {:induction false} GatheringCountsOthers(evaluate: Bytes -> Evaluated, options: Options,
                                                 g: Gathered, rs: seq<ReadLine>)
    ensures var h := TakeAll(evaluate, options, g, rs);
            h.stop.None? ==>
              h.broken == g.broken + BadOnes(evaluate, rs) && h.lostComments == g.lostComments + CommentedOnes(rs)
    decreases |rs|
  {
    hide Options.Filters;
    if rs != [] && g.stop.None? {
      GatheringCountsOthers(evaluate, options, Take(evaluate, options, g, rs[0]), rs[1..]);
    }
  }

  /** When the tool finishes, the records it kept are those within the limits, in reading order, and
      its counts are those of the others, of the broken records and of the comments lost. */
  lemma KeptIsWithin(files: seq<Bytes>, evaluate: Bytes -> Evaluated, format: Rec -> Option<Bytes>, options: Options)
    ensures var o := Expected(files, evaluate, format, options);
            var good := GoodOnes(evaluate, AllLines(files));
            var within := WithinOnes(options.startOid, options.stopOid, good);
            o.Done? ==>
              && Kept(files, evaluate, options) == within && o.skipped == |good| - |within|
              && o.broken == BadOnes(evaluate, AllLines(files)) && o.lostComments == CommentedOnes(AllLines(files))
  {
    hide TakeAll, WriteAll, AllLines, GoodOnes, WithinOnes, BadOnes, CommentedOnes;
    GathersWithin(evaluate, options, NOTHING_YET, AllLines(files));
    GatheringCountsOthers(evaluate, options, NOTHING_YET, AllLines(files));
    var within := WithinOnes(options.startOid, options.stopOid, GoodOnes(evaluate, AllLines(files)));
    assert [] + within == within;
  }

  /** A record is within limits just when it is among those kept. */
  lemma {:induction false} WithinOnesAre(start: Option<Oid>, stop: Option<Oid>, recs: seq<Rec>)
    ensures forall r :: r in WithinOnes(start, stop, recs) <==> r in recs && IsWithin(start, stop, r.oid)
  {
    hide IsWithin;
    if recs != [] {
      WithinOnesAre(start, stop, recs[1..]);
    }
  }

  /** Without sorting and de-duplicating the output is the records kept, as they were read. */
  lemma UnsortedIsWritten(files: seq<Bytes>, evaluate: Bytes -> Evaluated,
                          format: Rec -> Option<Bytes>, options: Options)
    requires !options.sortRecords && !options.deduplicate
    requires forall r :: r in Kept(files, evaluate, options) ==> format(r).Some?
    ensures var o := Expected(files, evaluate, format, options);
            var kept := Kept(files, evaluate, options);
            o.Done? ==> o.output == TextOf(format, kept) && o.written == |kept| && o.duplicates == 0
  {
    hide TakeAll, WriteAll, SortByOid, AllLines, Unique, TextOf;
    var kept := Kept(files, evaluate, options);
    WritesAll(format, false, kept, {}, [], 0, 0);
    assert [] + TextOf(format, kept) == TextOf(format, kept);
  }

  /** Every record read is accounted for when each one can be written: written, filtered out,
      de-duplicated or broken. */
  lemma CountsAddUp(files: seq<Bytes>, evaluate: Bytes -> Evaluated, format: Rec -> Option<Bytes>, options: Options)
    requires forall r :: r in Kept(files, evaluate, options) ==> format(r).Some?
    ensures var o := Expected(files, evaluate, format, options);
            o.Done? ==> |AllLines(files)| == o.written + o.skipped + o.duplicates + o.broken
  {
    hide TakeAll, WriteAll, SortByOid, AllLines, Unique, TextOf;
    var g := TakeAll(evaluate, options, NOTHING_YET, AllLines(files));
    GatheringCounts(evaluate, options, NOTHING_YET, AllLines(files));
    SortIsStable(g.records);
    WritesAll(format, options.deduplicate, Arrange(options, g.records), {}, [], 0, 0);
  }

  /** The output after sorting and de-duplicating. */
  lemma MergedIsWritten(files: seq<Bytes>, evaluate: Bytes -> Evaluated, format: Rec -> Option<Bytes>, options: Options)
    requires options.sortRecords && options.deduplicate
    requires forall r :: r in Kept(files, evaluate, options) ==> format(r).Some?
    ensures var o := Expected(files, evaluate, format, options);
            o.Done? ==> o.output == TextOf(format, Merged(Kept(files, evaluate, options)))
  {
    hide TakeAll, WriteAll, SortByOid, AllLines, Unique, TextOf;
    var g := TakeAll(evaluate, options, NOTHING_YET, AllLines(files));
    SortIsStable(g.records);
    WritesAll(format, true, SortByOid(g.records), {}, [], 0, 0);
    assert [] + TextOf(format, Unique(SortByOid(g.records), {})) == TextOf(format, Unique(SortByOid(g.records), {}));
  }

  /** A line that reads back as a record of the OID, in canonical text. */
  ghost predicate ReadsBack(parser: TextParser, line: Bytes, oid: Oid) {
    && IsRecordLine(line)
    && parser.Evaluate(line) == Some(oid)
    && parser.parse(line).value.oid == OidText(oid) && parser.parse(line).value.tag != []
  }

  lemma {:induction false} LineEndBehind(line: Bytes, rest: Bytes, p: nat)
    requires p <= |rest|
    ensures LineEnd(line + rest, |line| + p) == |line| + LineEnd(rest, p)
    decreases |rest| - p
  {
    if p < |rest| {
      assert (line + rest)[|line| + p] == rest[p];
      if rest[p] != EOL {
        LineEndBehind(line, rest, p + 1);
      }
    }
  }

  lemma {:induction false} LineEndInFirst(line: Bytes, rest: Bytes, p: nat)
    requires p < |line| && IsWholeLine(line)
    ensures LineEnd(line + rest, p) == |line|
    decreases |line| - p
  {
    assert (line + rest)[p] == line[p];
    if p < |line| - 1 {
      assert line[p] == line[..|line| - 1][p];
      LineEndInFirst(line, rest, p + 1);
    }
  }

  /** The records of a line followed by a text: the line, and those of the text further on. */
  lemma RecordsOfTwo(line: Bytes, rest: Bytes, s: nat)
    requires IsWholeLine(line) && IsRecord(line + rest, s)
    ensures if s == 0 then Line(line + rest, s) == line
            else |line| <= s && IsRecord(rest, s - |line|) && Line(line + rest, s) == Line(rest, s - |line|)
  {
    hide IsNoise, LineEnd;
    var c := line + rest;
    if s == 0 {
      LineEndInFirst(line, rest, 0);
    } else {
      assert c[s - 1] == EOL && forall i :: 0 <= i < |line| - 1 ==> c[i] == line[..|line| - 1][i] != EOL;
      LineEndBehind(line, rest, s - |line|);
      if s > |line| {
        assert c[s - 1] == rest[s - |line| - 1];
      }
      assert c[s..LineEnd(c, s)] == rest[s - |line|..LineEnd(rest, s - |line|)];
    }
  }

  /** And the other way around. */
  lemma RecordsBehind(line: Bytes, rest: Bytes)
    requires IsWholeLine(line)
    ensures Line(line + rest, 0) == line
    ensures forall t: nat :: IsRecord(rest, t) ==>
              IsRecord(line + rest, |line| + t) && Line(line + rest, |line| + t) == Line(rest, t)
  {
    hide IsNoise, LineEnd;
    var c := line + rest;
    LineEndInFirst(line, rest, 0);
    assert c[0..|line|] == line;
    forall t: nat | IsRecord(rest, t)
      ensures IsRecord(c, |line| + t) && Line(c, |line| + t) == Line(rest, t)
    {
      LineEndBehind(line, rest, t);
      assert c[|line| + t..LineEnd(c, |line| + t)] == rest[t..LineEnd(rest, t)];
      if t > 0 {
        assert c[|line| + t - 1] == rest[t - 1];
      }
    }
  }

  lemma RecordsOfTwoBack(line: Bytes, rest: Bytes)
    requires IsRecordLine(line)
    ensures IsRecord(line + rest, 0) && Line(line + rest, 0) == line
    ensures forall t: nat :: IsRecord(rest, t) ==>
              IsRecord(line + rest, |line| + t) && Line(line + rest, |line| + t) == Line(rest, t)
  {
    hide IsNoise, LineEnd, Line;
    RecordsBehind(line, rest);
  }

  /** Every record written is found in the text. */
  lemma {:induction false} TextHoldsAll(parser: TextParser, format: Rec -> Option<Bytes>, rs: seq<Rec>, r: Rec)
    returns (s: nat)
    requires forall r :: r in rs ==> format(r).Some? && ReadsBack(parser, format(r).value, r.oid)
    requires r in rs
    ensures IsRecord(TextOf(format, rs), s) && Line(TextOf(format, rs), s) == format(r).value
  {
    hide IsNoise, LineEnd, IsRecord, Line;
    var line, more := format(rs[0]).value, TextOf(format, rs[1..]);
    assert rs[0] in rs;
    RecordsOfTwoBack(line, more);
    if r == rs[0] {
      s := 0;
    } else {
      assert r in rs[1..];
      var t := TextHoldsAll(parser, format, rs[1..], r);
      s := |line| + t;
    }
  }

  lemma NoRecords(parser: TextParser)
    ensures Sorted(parser, []) && forall s: nat :: !IsRecord([], s)
  {}

  lemma AscendingHead(rs: seq<Rec>)
    requires rs != [] && IsAscending(rs)
    ensures IsAscending(rs[1..]) && forall x :: x in rs[1..] ==> Less(rs[0].oid, x.oid)
  {
    hide Less;
  }

  lemma EndsOnce(parser: TextParser, line: Bytes, oid: Oid)
    requires ReadsBack(parser, line, oid)
    ensures IsRecordLine(line) && IsWholeLine(line)
  {}

  lemma TextSplits(format: Rec -> Option<Bytes>, rs: seq<Rec>)
    requires rs != [] && format(rs[0]).Some?
    ensures TextOf(format, rs) == format(rs[0]).value + TextOf(format, rs[1..])
  {}

  lemma OidOfLine(parser: TextParser, c: Bytes, s: nat, line: Bytes, oid: Oid)
    requires Line(c, s) == line && ReadsBack(parser, line, oid)
    ensures OidAt(parser, c, s) == oid
  {}

  lemma SortedElsewhere(parser: TextParser, c: Bytes, s: nat, t: nat, d: Bytes, s': nat, t': nat)
    requires Sorted(parser, d) && IsRecord(d, s') && IsRecord(d, t') && s' < t'
    requires Line(c, s) == Line(d, s') && Line(c, t) == Line(d, t')
    ensures Less(OidAt(parser, c, s), OidAt(parser, c, t))
  {}

  lemma SortedMeans(parser: TextParser, c: Bytes)
    requires forall s: nat, t: nat :: IsRecord(c, s) && IsRecord(c, t) && s < t ==>
               Less(OidAt(parser, c, s), OidAt(parser, c, t))
    ensures Sorted(parser, c)
  {}

  /** The records of a text of lines that read back are these lines. */
  lemma RecordsAreLines(parser: TextParser, format: Rec -> Option<Bytes>, rs: seq<Rec>, s: nat)
    requires rs != [] && forall r :: r in rs ==> format(r).Some? && ReadsBack(parser, format(r).value, r.oid)
    requires IsRecord(TextOf(format, rs), s)
    requires forall t: nat :: IsRecord(TextOf(format, rs[1..]), t) ==>
               exists r :: r in rs[1..] && Line(TextOf(format, rs[1..]), t) == format(r).value
    ensures var line, c, more := format(rs[0]).value, TextOf(format, rs), TextOf(format, rs[1..]);
            if s == 0 then Line(c, s) == line && OidAt(parser, c, s) == rs[0].oid
            else |line| <= s && IsRecord(more, s - |line|) && Line(c, s) == Line(more, s - |line|)
                 && exists r :: r in rs[1..] && Line(c, s) == format(r).value && OidAt(parser, c, s) == r.oid
  {
    hide LineEnd, IsRecord, Line, OidAt, ReadsBack, TextOf, IsRecordLine, IsWholeLine;
    var line, c, more := format(rs[0]).value, TextOf(format, rs), TextOf(format, rs[1..]);
    assert rs[0] in rs;
    TextSplits(format, rs);
    EndsOnce(parser, line, rs[0].oid);
    RecordsOfTwo(line, more, s);
    if s == 0 {
      OidOfLine(parser, c, 0, line, rs[0].oid);
    } else {
      var r :| r in rs[1..] && Line(more, s - |line|) == format(r).value;
      assert r in rs;
      OidOfLine(parser, c, s, format(r).value, r.oid);
    }
  }

  lemma NoText(format: Rec -> Option<Bytes>)
    ensures TextOf(format, []) == []
  {}

  /** Lines that read back, one after the other, make a recording that can be indexed and searched. */
  lemma {:induction false} TextIsRecording(parser: TextParser, format: Rec -> Option<Bytes>, rs: seq<Rec>)
    requires forall r :: r in rs ==> format(r).Some? && ReadsBack(parser, format(r).value, r.oid)
    requires IsAscending(rs)
    ensures var c := TextOf(format, rs);
            && (forall s: nat :: IsRecord(c, s) ==> exists r :: r in rs && Line(c, s) == format(r).value)
            && Sorted(parser, c)
  {
    hide Less, IsNoise, LineEnd, IsRecord, Line, OidAt, IsAscending, ReadsBack, Sorted, TextOf;
    var c := TextOf(format, rs);
    if rs == [] {
      assert c == [] by { NoText(format); }
      NoRecords(parser);
    } else {
      var rest := rs[1..];
      var line, more := format(rs[0]).value, TextOf(format, rest);
      AscendingHead(rs);
      TextIsRecording(parser, format, rest);
      forall s: nat | IsRecord(c, s)
        ensures exists r :: r in rs && Line(c, s) == format(r).value
      {
        RecordsAreLines(parser, format, rs, s);
      }
      forall s: nat, t: nat | IsRecord(c, s) && IsRecord(c, t) && s < t
        ensures Less(OidAt(parser, c, s), OidAt(parser, c, t))
      {
        RecordsAreLines(parser, format, rs, s);
        RecordsAreLines(parser, format, rs, t);
        if s > 0 {
          SortedElsewhere(parser, c, s, t, more, s - |line|, t - |line|);
        }
      }
      SortedMeans(parser, c);
    }
  }

  lemma OneLineIsRecord(line: Bytes)
    requires IsRecordLine(line)
    ensures LastLineIsRecord(line)
  {
    hide IsNoise, LineEnd;
    LineEndInFirst(line, [], 0);
    assert line + [] == line;
    forall q: nat | 0 < q <= |line| - 1
      ensures !IsLineStart(line, q)
    {
      assert line[q - 1] == line[..|line| - 1][q - 1];
    }
    assert LineStart(line, |line| - 1) == 0;
  }

  lemma {:induction false} StartsBehind(line: Bytes, rest: Bytes, p: nat)
    requires line != [] && line[|line| - 1] == EOL && p < |rest|
    ensures LineStart(line + rest, |line| + p) == |line| + LineStart(rest, p)
  {
    if p > 0 && !IsLineStart(rest, p) {
      assert (line + rest)[|line| + p - 1] == rest[p - 1];
      StartsBehind(line, rest, p - 1);
    } else if p > 0 {
      assert (line + rest)[|line| + p - 1] == rest[p - 1];
    }
  }

  lemma LastLineBehind(line: Bytes, more: Bytes)
    requires line != [] && line[|line| - 1] == EOL && more != [] && LastLineIsRecord(more)
    ensures LastLineIsRecord(line + more)
  {
    hide IsNoise, LineEnd, LineStart;
    var c := line + more;
    var last := LineStart(more, |more| - 1);
    StartsBehind(line, more, |more| - 1);
    LineEndBehind(line, more, last);
    assert Line(c, |line| + last) == c[|line| + last..LineEnd(c, |line| + last)] == more[last..LineEnd(more, last)];
    assert IsLineStart(c, |line| + last);
  }

  lemma NothingIsFine()
    ensures LastLineIsRecord([])
  {}

  /** The last line of such a text is a record. */
  lemma {:induction false} LastLineStays(parser: TextParser, format: Rec -> Option<Bytes>, rs: seq<Rec>)
    requires forall r :: r in rs ==> format(r).Some? && ReadsBack(parser, format(r).value, r.oid)
    ensures LastLineIsRecord(TextOf(format, rs))
  {
    hide IsNoise, LineEnd, LastLineIsRecord;
    if rs != [] {
      var line, more := format(rs[0]).value, TextOf(format, rs[1..]);
      assert rs[0] in rs;
      LastLineStays(parser, format, rs[1..]);
      if more == [] {
        assert line + more == line;
        OneLineIsRecord(line);
      } else {
        LastLineBehind(line, more);
      }
    } else {
      assert LastLineIsRecord([]) by { NothingIsFine(); }
    }
  }

  /** What the search and the index ask of a recording holds of everything sorted, de-duplicated and written
      in a format that reads back. */
  lemma ManagedRecordingIsServable(parser: TextParser, files: seq<Bytes>, evaluate: Bytes -> Evaluated,
                                   format: Rec -> Option<Bytes>, options: Options)
    requires options.sortRecords && options.deduplicate
    requires forall r :: r in Kept(files, evaluate, options) ==>
               format(r).Some? && ReadsBack(parser, format(r).value, r.oid)
    ensures var o := Expected(files, evaluate, format, options);
            o.Done? ==> Sorted(parser, o.output) && Readable(parser, o.output) && Canonical(parser, o.output)
                        && LastLineIsRecord(o.output)
  {
    hide Expected, Kept, Merged, TextOf, TakeAll, IsAscending, LastLineIsRecord, IsRecord, AllLines;
    var kept := Kept(files, evaluate, options);
    var rs := Merged(kept);
    var c := TextOf(format, rs);
    MergedIsWritten(files, evaluate, format, options);
    MergedIsSorted(kept);
    TextIsRecording(parser, format, rs);
    LastLineStays(parser, format, rs);
    forall s: nat | IsRecord(c, s)
      ensures exists r :: r in rs && Line(c, s) == format(r).value
    {}
  }
}
