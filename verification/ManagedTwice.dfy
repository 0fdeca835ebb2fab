/** Managing a recording that was managed before changes nothing. */
module ManagedTwice {
  import opened Wrappers
  import opened Oids
  import opened Texts
  import opened TextFiles
  import opened Recordings
  import opened ManageRecords
  import opened ManagedRecordings
  import opened SnmprecRecordings

  lemma ReadingUnfolds(c: Bytes, p: nat)
    ensures RecordAt(c, p) == if p >= |c| || !IsNoise(Line(c, p)) then p else RecordAt(c, LineEnd(c, p))
    ensures LinesRead(c, p) ==
            if p >= |c| then 0 else if IsNoise(Line(c, p)) then 1 + LinesRead(c, LineEnd(c, p)) else 1
    ensures p < |c| ==> p < LineEnd(c, p) <= |c|
  {
    hide IsNoise, Line, LineEnd;
  }

  lemma LineBehind(line: Bytes, rest: Bytes, p: nat)
    requires p <= |rest|
    ensures Line(line + rest, |line| + p) == Line(rest, p)
  {
    hide LineEnd;
    LineEndBehind(line, rest, p);
    if p < |rest| {
      var c := line + rest;
      assert c[|line| + p..LineEnd(c, |line| + p)] == rest[p..LineEnd(rest, p)];
    }
  }

  lemma {:induction false} RecordAtBehind(line: Bytes, rest: Bytes, p: nat)
    requires p <= |rest|
    ensures RecordAt(line + rest, |line| + p) == |line| + RecordAt(rest, p)
    ensures LinesRead(line + rest, |line| + p) == LinesRead(rest, p)
    decreases |rest| - p
  {
    hide IsNoise, LineEnd, Line, RecordAt, LinesRead;
    ReadingUnfolds(rest, p);
    ReadingUnfolds(line + rest, |line| + p);
    if p < |rest| {
      LineEndBehind(line, rest, p);
      LineBehind(line, rest, p);
      if IsNoise(Line(rest, p)) {
        RecordAtBehind(line, rest, LineEnd(rest, p));
      }
    }
  }

  lemma {:induction false} RecordLinesBehind(line: Bytes, rest: Bytes, p: nat)
    requires p <= |rest|
    ensures RecordLines(line + rest, |line| + p) == RecordLines(rest, p)
    decreases |rest| - p
  {
    hide RecordAt, LinesRead, LineEnd, Line, RecordLines;
    var s := RecordAt(rest, p);
    RecordLinesUnfold(rest, p);
    RecordLinesUnfold(line + rest, |line| + p);
    RecordAtBehind(line, rest, p);
    if s < |rest| {
      LineBehind(line, rest, s);
      LineEndBehind(line, rest, s);
      RecordLinesBehind(line, rest, LineEnd(rest, s));
    }
  }

  lemma FirstLineRead(line: Bytes, more: Bytes)
    requires IsRecordLine(line)
    ensures var c := line + more;
            RecordAt(c, 0) == 0 < |c| && LinesRead(c, 0) == 1 && Line(c, 0) == line && LineEnd(c, 0) == |line| + 0
  {
    hide IsNoise, LineEnd;
    RecordsBehind(line, more);
    LineEndInFirst(line, more, 0);
  }

  /** What is read of the text of records that read back: just these lines. */
  lemma {:induction false} LinesOfText(parser: TextParser, format: Rec -> Option<Bytes>, rs: seq<Rec>)
    requires forall r :: r in rs ==> format(r).Some? && ReadsBack(parser, format(r).value, r.oid)
    ensures var lines := RecordLines(TextOf(format, rs), 0);
            |lines| == |rs| && forall i :: 0 <= i < |rs| ==> lines[i] == ReadLine(format(rs[i]).value, 1)
  {
    hide IsNoise, LineEnd, ReadsBack, Line, RecordAt, LinesRead;
    if rs == [] {
      NoText(format);
    } else {
      var line, more := format(rs[0]).value, TextOf(format, rs[1..]);
      assert rs[0] in rs;
      EndsOnce(parser, line, rs[0].oid);
      LinesOfText(parser, format, rs[1..]);
      TextSplits(format, rs);
      FirstLineRead(line, more);
      RecordLinesBehind(line, more, 0);
      RecordLinesUnfold(line + more, 0);
    }
  }

  /** Reading lines that all are good records keeps these. */
  lemma {:induction false} GathersGood(evaluate: Bytes -> Evaluated, options: Options, g: Gathered,
                                       lines: seq<ReadLine>, rs: seq<Rec>)
    requires g.stop.None? && |lines| == |rs| && options.startOid.None? && options.stopOid.None?
    requires forall i :: 0 <= i < |rs| ==> evaluate(lines[i].line) == Good(rs[i])
    ensures var h := TakeAll(evaluate, options, g, lines);
            h.stop.None? && h.records == g.records + rs
    decreases |rs|
  {
    if rs != [] {
      var g' := Take(evaluate, options, g, lines[0]);
      assert g'.records == g.records + [rs[0]];
      GathersGood(evaluate, options, g', lines[1..], rs[1..]);
      assert g.records + [rs[0]] + rs[1..] == g.records + rs;
    } else {
      assert g.records + rs == g.records;
    }
  }

  lemma {:induction false} SortKeepsAscending(rs: seq<Rec>)
    requires IsAscending(rs)
    ensures SortByOid(rs) == rs
  {
    hide Less;
    if rs != [] {
      AscendingHead(rs);
      SortKeepsAscending(rs[1..]);
      if |rs| > 1 {
        LessAsymmetric(rs[0].oid, rs[1].oid);
      }
      assert rs == [rs[0]] + rs[1..];
    }
  }

  lemma {:induction false} UniqueKeepsAscending(rs: seq<Rec>, seen: set<Oid>)
    requires IsAscending(rs) && forall r :: r in rs ==> r.oid !in seen
    ensures Unique(rs, seen) == rs
  {
    hide Less;
    if rs != [] {
      AscendingHead(rs);
      forall r | r in rs[1..]
        ensures r.oid !in seen + {rs[0].oid}
      {
        LessIrreflexive(r.oid);
      }
      UniqueKeepsAscending(rs[1..], seen + {rs[0].oid});
      assert rs == [rs[0]] + rs[1..];
    }
  }

  lemma TextAgain(others: OtherTypes, nohex: bool, again: Options, rs: seq<Rec>)
    requires again.sortRecords && again.deduplicate && again.startOid.None? && again.stopOid.None?
    requires IsAscending(rs)
    requires forall r :: r in rs ==> Format(nohex)(r).Some? && EvaluateLine(others)(Format(nohex)(r).value) == Good(r)
    requires var lines := RecordLines(TextOf(Format(nohex), rs), 0);
             |lines| == |rs| && forall i :: 0 <= i < |rs| ==> lines[i] == ReadLine(Format(nohex)(rs[i]).value, 1)
    ensures var text := TextOf(Format(nohex), rs);
            var twice := Expected([text], EvaluateLine(others), Format(nohex), again);
            twice.Done? && twice.output == text
  {
    hide TextOf, Format, TakeAll, IsAscending, RecordLines, SortByOid, Unique, EvaluateLine, WriteAll;
    var text := TextOf(Format(nohex), rs);
    var lines := RecordLines(text, 0);
    var files: seq<Bytes> := [text];
    AllLinesUnfold(files);
    AllLinesUnfold(files[1..]);
    assert lines + [] == lines;
    GathersGood(EvaluateLine(others), again, NOTHING_YET, lines, rs);
    assert [] + rs == rs;
    SortKeepsAscending(rs);
    UniqueKeepsAscending(rs, {});
    WritesAll(Format(nohex), true, rs, {}, [], 0, 0);
    assert [] + text == text;
  }

  /** A recording of octet strings that was sorted, de-duplicated and written comes out unchanged when
      it is managed again. */
  lemma ManagedTwice(files: seq<Bytes>, evaluate: Bytes -> Evaluated, others: OtherTypes, nohex: bool,
                     options: Options, again: Options)
    requires options.sortRecords && options.deduplicate && AreOctetStrings(Kept(files, evaluate, options))
    requires again.sortRecords && again.deduplicate && again.startOid.None? && again.stopOid.None?
    ensures var o := Expected(files, evaluate, Format(nohex), options);
            o.Done? ==>
              var twice := Expected([o.output], EvaluateLine(others), Format(nohex), again);
              twice.Done? && twice.output == o.output
  {
    hide Expected, Kept, Merged, TextOf, Format, AllLines, TakeAll, IsAscending, RecordLines, OfOid, SortByOid, Unique,
      EvaluateLine, ReadsBack;
    var o := Expected(files, evaluate, Format(nohex), options);
    if o.Done? {
      var rs := Merged(Kept(files, evaluate, options));
      var format := Format(nohex);
      forall r | r in Kept(files, evaluate, options)
        ensures format(r).Some? && ReadsBack(PARSER, format(r).value, r.oid)
        ensures EvaluateLine(others)(format(r).value) == Good(r)
      {
        RecordReadsBack(r, nohex);
        ToolReadsBack(others, r, nohex);
      }
      MergedIsWritten(files, evaluate, format, options);
      MergedIsSorted(Kept(files, evaluate, options));
      LinesOfText(PARSER, format, rs);
      TextAgain(others, nohex, again, rs);
    }
  }
}
