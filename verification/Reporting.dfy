/** Activity counters that are gathered in memory and dumped into files named by the second. */
module Reporting {
  import opened Wrappers

  datatype Counters = Counters(total: int, failures: int) {
    function Plus(c: Counters): Counters {
      Counters(total + c.total, failures + c.failures)
    }
  }

  const NONE := Counters(0, 0)

  /** The counts of one activity update; counts that are not passed are zero. */
  datatype Counts = Counts(transports: Counters, dataFiles: Counters) {
    function Plus(c: Counts): Counts {
      Counts(transports.Plus(c.transports), dataFiles.Plus(c.dataFiles))
    }
  }

  const NOTHING := Counts(NONE, NONE)

  /** The metrics document: each entry is there or not; `labelled` stands for format, version and producer. */
  datatype Metrics = Metrics(firstUpdate: Option<int>, lastUpdate: Option<int>, transports: Option<Counters>,
                             dataFiles: Option<Counters>, labelled: bool) {
    function Totals(): Counts {
      Counts(if transports.Some? then transports.value else NONE, if dataFiles.Some? then dataFiles.value else NONE)
    }
  }

  const EMPTY := Metrics(None, None, None, None, false)

  /** A report's file name: the second of its dump. */
  datatype FileName = Json(second: int)

  /** A reporter's memory, the time of its next dump, and the reports in its directory. */
  datatype State = State(metrics: Metrics, nextDump: real, files: map<FileName, Metrics>)

  datatype Event = Updated(counts: Counts, time: real) | Flushed(time: real, succeeds: bool)

  function UpdateStep(s: State, counts: Counts, now: int): State {
    var m := s.metrics;
    s.(metrics := Metrics(if m.firstUpdate.None? then Some(now) else m.firstUpdate, Some(now),
                          Some(m.Totals().Plus(counts).transports), Some(m.Totals().Plus(counts).dataFiles),
                          m.labelled))
  }

  function FlushStep(s: State, period: int, now: int, succeeds: bool): State {
    if s.metrics == EMPTY || s.nextDump > now as real then s
    else
      var m := s.metrics.(labelled := true);
      State(if succeeds then EMPTY else m, (now + period) as real,
            if succeeds then s.files[Json(now) := m] else s.files)
  }

  function Step(s: State, period: int, e: Event): State {
    match e
    case Updated(counts, time) => UpdateStep(s, counts, time.Floor)
    case Flushed(time, succeeds) => FlushStep(s, period, time.Floor, succeeds)
  }

  class MinimalJsonReporter {
    const period: int
    var metrics: Metrics
    var nextDump: real
    var files: map<FileName, Metrics>

    ghost function Abs(): State
      reads this
    {
      State(metrics, nextDump, files)
    }

    constructor (period: int, time: real, files: map<FileName, Metrics>)
      ensures this.period == period && Abs() == State(EMPTY, time + period as real, files)
    {
      this.period := period;
      metrics, nextDump := EMPTY, time + period as real;
      this.files := files;
    }

    method UpdateMetrics(counts: Counts, time: real)
      modifies this
      ensures Abs() == Step(old(Abs()), period, Updated(counts, time))
    {
      var now := time.Floor;
      if metrics.firstUpdate.None? {
        metrics := metrics.(firstUpdate := Some(now));
      }
      metrics := metrics.(lastUpdate := Some(now));
      var section := if metrics.transports.Some? then metrics.transports.value else NONE;
      section := section.(total := section.total + counts.transports.total);
      section := section.(failures := section.failures + counts.transports.failures);
      metrics := metrics.(transports := Some(section));
      section := if metrics.dataFiles.Some? then metrics.dataFiles.value else NONE;
      section := section.(total := section.total + counts.dataFiles.total);
      section := section.(failures := section.failures + counts.dataFiles.failures);
      metrics := metrics.(dataFiles := Some(section));
    }

    /** Dumps the metrics when they are due; `succeeds` says whether the report can be written and renamed. */
    method Flush(time: real, succeeds: bool)
      modifies this
      ensures Abs() == Step(old(Abs()), period, Flushed(time, succeeds))
    {
      if metrics == EMPTY {
        return;
      }
      var now := time.Floor;
      if nextDump > now as real {
        return;
      }
      nextDump := (now + period) as real;
      metrics := metrics.(labelled := true);
      if !succeeds {
        return;
      }
      files := files[Json(now) := metrics];
      metrics := EMPTY;
    }
  }

  /** The totals of the reports written at the given times. */
  ghost function SumOver(files: map<FileName, Metrics>, times: set<FileName>): Counts
    requires times <= files.Keys
  {
    if times == {} then NOTHING
    else
      var k :| k in times;
      files[k].Totals().Plus(SumOver(files, times - {k}))
  }

  /** The totals of all reports in a directory. */
  ghost function Reported(files: map<FileName, Metrics>): Counts {
    SumOver(files, files.Keys)
  }

  lemma SumOverUnfolds(files: map<FileName, Metrics>, times: set<FileName>) returns (k: FileName)
    requires times <= files.Keys && times != {}
    ensures k in times && SumOver(files, times) == files[k].Totals().Plus(SumOver(files, times - {k}))
  {
    k :| k in times && SumOver(files, times) == files[k].Totals().Plus(SumOver(files, times - {k}));
  }

  lemma PlusSwaps(a: Counts, b: Counts, c: Counts)
    ensures a.Plus(b.Plus(c)) == b.Plus(a.Plus(c))
  {}

  lemma {:induction false} SumOverWithout(files: map<FileName, Metrics>, times: set<FileName>, k: FileName)
    requires times <= files.Keys && k in times
    ensures SumOver(files, times) == files[k].Totals().Plus(SumOver(files, times - {k}))
  {
    hide *;
    var j := SumOverUnfolds(files, times);
    if j != k {
      SumOverWithout(files, times - {j}, k);
      SumOverWithout(files, times - {k}, j);
      assert times - {j} - {k} == times - {k} - {j};
      PlusSwaps(files[j].Totals(), files[k].Totals(), SumOver(files, times - {j} - {k}));
    }
  }

  lemma SumOverNone(f: map<FileName, Metrics>, g: map<FileName, Metrics>)
    ensures SumOver(f, {}) == SumOver(g, {}) == NOTHING
  {}

  lemma {:induction false} SumOverSame(f: map<FileName, Metrics>, g: map<FileName, Metrics>, times: set<FileName>)
    requires times <= f.Keys && times <= g.Keys && forall k :: k in times ==> f[k] == g[k]
    ensures SumOver(f, times) == SumOver(g, times)
  {
    hide *;
    if times != {} {
      var k := SumOverUnfolds(f, times);
      SumOverWithout(g, times, k);
      SumOverSame(f, g, times - {k});
    } else {
      SumOverNone(f, g);
    }
  }

  lemma ReportedWith(files: map<FileName, Metrics>, k: FileName, m: Metrics)
    requires k !in files
    ensures Reported(files[k := m]) == m.Totals().Plus(Reported(files))
  {
    hide SumOver, Counts.Plus, Metrics.Totals;
    var more := files[k := m];
    SumOverWithout(more, more.Keys, k);
    assert more.Keys - {k} == files.Keys;
    SumOverSame(more, files, files.Keys);
  }

  /** Everything counted: what the reports say and what is still in memory. */
  ghost function Accounted(s: State): Counts {
    Reported(s.files).Plus(s.metrics.Totals())
  }

  function Counted(es: seq<Event>): Counts {
    if es == [] then NOTHING
    else (if es[0].Updated? then es[0].counts else NOTHING).Plus(Counted(es[1..]))
  }

  function Run(s: State, period: int, es: seq<Event>): State
    decreases |es|
  {
    if es == [] then s else Run(Step(s, period, es[0]), period, es[1..])
  }

  /** The clock never steps back. */
  predicate IsTimely(es: seq<Event>) {
    forall i, j :: 0 <= i < j < |es| ==> es[i].time <= es[j].time
  }

  /** Every report was written before the next one is due. */
  ghost predicate NoneAhead(s: State) {
    forall k :: k in s.files ==> k.second as real < s.nextDump
  }

  lemma ReportedNothing()
    ensures EMPTY.Totals() == NOTHING
  {}

  lemma StepConserves(s: State, period: int, e: Event)
    requires NoneAhead(s) && period >= 1
    ensures NoneAhead(Step(s, period, e))
    ensures Accounted(Step(s, period, e)) == Accounted(s).Plus(if e.Updated? then e.counts else NOTHING)
    ensures forall k :: k in s.files ==> k in Step(s, period, e).files && Step(s, period, e).files[k] == s.files[k]
  {
    hide Reported;
    if e.Flushed? && s.metrics != EMPTY && s.nextDump <= e.time.Floor as real {
      assert Json(e.time.Floor) !in s.files;
      ReportedWith(s.files, Json(e.time.Floor), s.metrics.(labelled := true));
      assert Step(s, period, e).nextDump > e.time.Floor as real;
      ReportedNothing();
    }
  }

  lemma RunUnfolds(s: State, period: int, e: Event, es: seq<Event>)
    ensures Run(s, period, [e] + es) == Run(Step(s, period, e), period, es)
    ensures Run(s, period, []) == s && Counted([]) == NOTHING
    ensures Counted([e] + es) == (if e.Updated? then e.counts else NOTHING).Plus(Counted(es))
  {
    assert ([e] + es)[1..] == es;
  }

  lemma PlusAssociates(a: Counts, b: Counts, c: Counts)
    ensures a.Plus(b).Plus(c) == a.Plus(b.Plus(c)) && a.Plus(NOTHING) == a && NOTHING.Plus(a) == a
  {}

  /** With a period of at least a second no count is lost or doubled over any run, whatever dumps
      fail, and no report is ever overwritten. */
  lemma {:induction false} RunConserves(s: State, period: int, es: seq<Event>)
    requires NoneAhead(s) && period >= 1
    ensures Accounted(Run(s, period, es)) == Accounted(s).Plus(Counted(es))
    ensures forall k :: k in s.files ==> k in Run(s, period, es).files && Run(s, period, es).files[k] == s.files[k]
    decreases |es|
  {
    hide *;
    if es == [] {
      RunUnfolds(s, period, Flushed(0.0, true), []);
      PlusAssociates(Accounted(s), NOTHING, NOTHING);
    } else {
      var e, rest := es[0], es[1..];
      assert es == [e] + rest;
      RunUnfolds(s, period, e, rest);
      StepConserves(s, period, e);
      RunConserves(Step(s, period, e), period, rest);
      PlusAssociates(Accounted(s), if e.Updated? then e.counts else NOTHING, Counted(rest));
    }
  }

  /** A run from the start of a reporter, at whatever time, in an empty directory. */
  ghost predicate RunIsConserved(period: int, time: real, es: seq<Event>) {
    IsTimely(es) && (es != [] ==> time <= es[0].time) ==>
      Accounted(Run(State(EMPTY, time + period as real, map[]), period, es)) == Counted(es)
  }

  ghost predicate Conserves(period: int) {
    forall time: real, es: seq<Event> :: RunIsConserved(period, time, es)
  }

  lemma ReportedOfNone()
    ensures Reported(map[]) == NOTHING
  {
    var none: map<FileName, Metrics> := map[];
    assert none.Keys == {};
    SumOverNone(none, none);
  }

  lemma StartsFromNothing(period: int, time: real)
    ensures var s := State(EMPTY, time + period as real, map[]); NoneAhead(s) && Accounted(s) == NOTHING
  {
    ReportedOfNone();
  }

  lemma AllAtOnceIsTimely(es: seq<Event>)
    requires forall i :: 0 <= i < |es| ==> es[i].time == 0.0
    ensures IsTimely(es)
  {}

  lemma ReportedOne(m: Metrics)
    ensures Reported(map[Json(0) := m]) == m.Totals()
  {
    hide Reported;
    ReportedWith(map[], Json(0), m);
    assert map[][Json(0) := m] == map[Json(0) := m];
    StartsFromNothing(0, 0.0);
    ReportedOfNone();
  }

  lemma TwiceIsNotOnce(s: State, m: Metrics, one: Counts)
    requires s.metrics == EMPTY && s.files == map[Json(0) := m] && one == Counts(Counters(1, 0), NONE)
    requires m == Metrics(Some(0), Some(0), Some(Counters(1, 0)), Some(NONE), true)
    ensures Accounted(s) == one != one.Plus(one)
  {
    ReportedOne(m);
  }

  lemma UpdatesOnce(nextDump: real, files: map<FileName, Metrics>)
    ensures UpdateStep(State(EMPTY, nextDump, files), Counts(Counters(1, 0), NONE), 0)
            == State(Metrics(Some(0), Some(0), Some(Counters(1, 0)), Some(NONE), false), nextDump, files)
  {}

  lemma FlushesOnce(period: int, nextDump: real, files: map<FileName, Metrics>, m: Metrics)
    requires nextDump <= 0.0 && m != EMPTY
    ensures FlushStep(State(m, nextDump, files), period, 0, true)
            == State(EMPTY, period as real, files[Json(0) := m.(labelled := true)])
  {}

  lemma StepsAtZero(s: State, period: int, counts: Counts, succeeds: bool)
    ensures Step(s, period, Updated(counts, 0.0)) == UpdateStep(s, counts, 0)
    ensures Step(s, period, Flushed(0.0, succeeds)) == FlushStep(s, period, 0, succeeds)
  {
    hide UpdateStep, FlushStep;
    assert (0.0).Floor == 0;
  }

  lemma DumpsAtOnce(period: int, nextDump: real, files: map<FileName, Metrics>)
    requires nextDump <= 0.0
    ensures var updated := Step(State(EMPTY, nextDump, files), period, Updated(Counts(Counters(1, 0), NONE), 0.0));
            Step(updated, period, Flushed(0.0, true))
            == State(EMPTY, period as real,
              files[Json(0) := Metrics(Some(0), Some(0), Some(Counters(1, 0)), Some(NONE), true)])
  {
    hide Step, UpdateStep, FlushStep;
    var one, s := Counts(Counters(1, 0), NONE), State(EMPTY, nextDump, files);
    UpdatesOnce(nextDump, files);
    StepsAtZero(s, period, one, true);
    StepsAtZero(UpdateStep(s, one, 0), period, one, true);
    FlushesOnce(period, nextDump, files, UpdateStep(s, one, 0).metrics);
  }

  lemma DumpTwiceSteps(period: int, s0: State, s2: State)
    requires period <= 0 && s0 == State(EMPTY, 0.0 + period as real, map[])
    requires s2 == State(EMPTY, period as real,
                     map[Json(0) := Metrics(Some(0), Some(0), Some(Counters(1, 0)), Some(NONE), true)])
    ensures var one := Counts(Counters(1, 0), NONE);
            && Step(Step(s0, period, Updated(one, 0.0)), period, Flushed(0.0, true)) == s2
            && Step(Step(s2, period, Updated(one, 0.0)), period, Flushed(0.0, true)) == s2
  {
    hide Step;
    var m := Metrics(Some(0), Some(0), Some(Counters(1, 0)), Some(NONE), true);
    assert period as real <= 0.0;
    DumpsAtOnce(period, s0.nextDump, s0.files);
    DumpsAtOnce(period, s2.nextDump, s2.files);
    assert s0.files[Json(0) := m] == s2.files && s2.files[Json(0) := m] == s2.files;
  }

  lemma RunsTo(s: State, period: int, e: Event, es: seq<Event>, s': State, counted: Counts, end: State)
    requires s' == Step(s, period, e) && Counted(es) == counted && Run(s', period, es) == end
    ensures Run(s, period, [e] + es) == end
    ensures Counted([e] + es) == (if e.Updated? then e.counts else NOTHING).Plus(counted)
  {
    hide *;
    RunUnfolds(s, period, e, es);
  }

  /** An update and a dump, twice within the second 0. */
  lemma TwoDumpsInOneSecond(period: int) returns (es: seq<Event>)
    requires period <= 0
    ensures IsTimely(es) && es != [] && es[0].time == 0.0
    ensures Accounted(Run(State(EMPTY, 0.0 + period as real, map[]), period, es)) != Counted(es)
  {
    var one := Counts(Counters(1, 0), NONE);
    var update, dump := Updated(one, 0.0), Flushed(0.0, true);
    var s0 := State(EMPTY, 0.0 + period as real, map[]);
    var m := Metrics(Some(0), Some(0), Some(Counters(1, 0)), Some(NONE), true);
    var s2 := State(EMPTY, period as real, map[Json(0) := m]);
    hide *;
    DumpTwiceSteps(period, s0, s2);
    es := [update] + ([dump] + ([update] + ([dump] + [])));
    AllAtOnceIsTimely(es);
    RunUnfolds(s2, period, dump, []);
    PlusAssociates(NOTHING, NOTHING, NOTHING);
    PlusAssociates(one, NOTHING, NOTHING);
    var s1, s3 := Step(s0, period, update), Step(s2, period, update);
    RunsTo(s3, period, dump, [], s2, NOTHING, s2);
    RunsTo(s2, period, update, [dump] + [], s3, NOTHING, s2);
    RunsTo(s1, period, dump, [update] + ([dump] + []), s2, one, s2);
    RunsTo(s0, period, update, [dump] + ([update] + ([dump] + [])), s1, one, s2);
    TwiceIsNotOnce(s2, m, one);
  }

  /** One second is the exact limit: with a period of zero or less, two dumps within one second share a file. */
  lemma ConservesIffPeriodIsPositive(period: int)
    ensures Conserves(period) <==> period >= 1
  {
    hide Run, Accounted, Counted, IsTimely, NoneAhead;
    if period >= 1 {
      forall time: real, es: seq<Event>
        ensures RunIsConserved(period, time, es)
      {
        StartsFromNothing(period, time);
        RunConserves(State(EMPTY, time + period as real, map[]), period, es);
        PlusAssociates(Counted(es), NOTHING, NOTHING);
      }
    } else {
      var es := TwoDumpsInOneSecond(period);
      assert !RunIsConserved(period, 0.0, es);
    }
  }

  /** The updates of a run of nothing else, one after the other. */
  function UpdateAll(s: State, us: seq<(Counts, real)>): State
    decreases |us|
  {
    if us == [] then s else UpdateAll(Step(s, 1, Updated(us[0].0, us[0].1)), us[1..])
  }

  /** From the first update on the document holds the second of the first and of the last one. */
  lemma {:induction false} UpdatesAreStamped(s: State, us: seq<(Counts, real)>)
    requires us != []
    ensures var m := UpdateAll(s, us).metrics;
            && m.firstUpdate == (if s.metrics.firstUpdate.Some? then s.metrics.firstUpdate else Some(us[0].1.Floor))
            && m.lastUpdate == Some(us[|us| - 1].1.Floor)
            && m.transports.Some? && m.dataFiles.Some?
    decreases |us|
  {
    var t := Step(s, 1, Updated(us[0].0, us[0].1));
    if |us| > 1 {
      UpdatesAreStamped(t, us[1..]);
    } else {
      assert UpdateAll(t, us[1..]) == t;
    }
  }

  /** A due dump that fails keeps the counts, leaves no report and is tried again a period later. */
  lemma FailedDumpsKeep(s: State, period: int, time: real)
    requires s.metrics != EMPTY && s.nextDump <= time.Floor as real
    ensures var t := Step(s, period, Flushed(time, false));
            && t.files == s.files && t.metrics.Totals() == s.metrics.Totals()
            && t.metrics.firstUpdate == s.metrics.firstUpdate && t.nextDump == (time.Floor + period) as real
  {}

  /** A dump that is due and succeeds leaves a report named by its second, with the counts and times
      gathered, starts anew, and sets the next dump a period later; one that is not due or has
      nothing to report changes nothing. */
  lemma DueDumpsReport(s: State, period: int, time: real)
    ensures var t := Step(s, period, Flushed(time, true));
            var due := s.metrics != EMPTY && s.nextDump <= time.Floor as real;
            && (!due ==> t == s)
            && (due ==>
                  && t.nextDump == (time.Floor + period) as real && t.metrics.Totals() == NOTHING
                  && t.metrics.firstUpdate == None
                  && t.files.Keys == s.files.Keys + {Json(time.Floor)}
                  && var report := t.files[Json(time.Floor)];
                     && report.Totals() == s.metrics.Totals() && report.labelled
                     && report.firstUpdate == s.metrics.firstUpdate && report.lastUpdate == s.metrics.lastUpdate)
  {}
}
