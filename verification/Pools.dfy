/** The queue of open data files over any run of requests and file modifications, whether opening
    succeeds or not. */
module Pools {
  import opened Wrappers
  import opened Recordings
  import opened Indexing
  import opened RecordIndexes
  import opened Freshness

  const MAX_QUEUE_ENTRIES := 31

  /** The queue of data files taken for open, and the state of every data file there is. */
  datatype Pool<!F(==)> = Pool(queue: seq<F>, states: map<F, State>) {
    predicate IsOpen(f: F) {
      f in states && states[f].handles.Some?
    }

    function Open(): set<F> {
      set f | f in states && IsOpen(f)
    }

    /** The next data file to open would need room that the oldest one, not being open, cannot make. */
    predicate IsStuck() {
      |queue| > MAX_QUEUE_ENTRIES && !IsOpen(queue[0])
    }

    predicate CloseFails(f: F) {
      !IsOpen(f) && IsStuck()
    }

    /** Entries of the queue no open data file accounts for. */
    function Stale(): int {
      |queue| - |Open()|
    }
  }

  /** What holds whether opening succeeds or not. */
  ghost predicate WellKept<F>(p: Pool<F>) {
    && |p.queue| <= MAX_QUEUE_ENTRIES + 1
    && (forall f :: f in p.queue ==> f in p.states)
    && (forall f :: f in p.Open() ==> f in p.queue)
  }

  ghost predicate NoneTwice<F>(queue: seq<F>) {
    forall i, j :: 0 <= i < j < |queue| ==> queue[i] != queue[j]
  }

  /** The queue holds just the open data files, each once. */
  ghost predicate Tracks<F>(p: Pool<F>) {
    && NoneTwice(p.queue)
    && (forall f :: f in p.queue ==> p.IsOpen(f))
    && (forall f :: f in p.Open() ==> f in p.queue)
  }

  /** Whether the data file is open and up to date, or its index can be reused or made. */
  ghost predicate CanOpen(parser: TextParser, s: State, recognised: bool) {
    (s.handles.Some? && s.seenTime == s.disk.textTime) || IsReusable(s.disk, recognised) || Tagged(parser, s.disk.text)
  }

  function Reopen<F>(parsers: F -> TextParser, p: Pool<F>, f: F, recognised: bool, now: int): (Pool<F>, Fault)
    requires f in p.states
  {
    var (s, fault) := OpenStep(parsers(f), p.states[f], recognised, now);
    (p.(states := p.states[f := s]), fault)
  }

  /** The queue with the data file added, after the oldest one has made room if need be. */
  function Enqueue<F>(p: Pool<F>, f: F): Pool<F>
    requires !p.IsStuck()
  {
    if |p.queue| > MAX_QUEUE_ENTRIES then
      Pool(p.queue[1..] + [f], p.states[p.queue[0] := p.states[p.queue[0]].(handles := None)])
    else p.(queue := p.queue + [f])
  }

  /** `DataFile.get_handles`: the file asked for is queued, and room made for it, before it is opened. */
  function Ask<F>(parsers: F -> TextParser, p: Pool<F>, f: F, recognised: bool, now: int): (r: (Pool<F>, Fault))
    requires f in p.states
    ensures r.0.states.Keys == p.states.Keys
  {
    if p.IsOpen(f) then Reopen(parsers, p, f, recognised, now)
    else if p.IsStuck() then (p, CloseFailed)
    else Reopen(parsers, Enqueue(p, f), f, recognised, now)
  }

  lemma QueueIsKnown<F>(p: Pool<F>)
    requires WellKept(p)
    ensures forall f :: f in p.queue ==> f in p.states
  {}

  lemma AskUnfolds<F>(parsers: F -> TextParser, p: Pool<F>, f: F, recognised: bool, now: int)
    requires f in p.states
    ensures Ask(parsers, p, f, recognised, now) ==
            if p.IsOpen(f) then Reopen(parsers, p, f, recognised, now)
            else if p.IsStuck() then (p, CloseFailed)
            else Reopen(parsers, Enqueue(p, f), f, recognised, now)
  {}

  lemma ReopenUnfolds<F>(parsers: F -> TextParser, p: Pool<F>, f: F, recognised: bool, now: int)
    requires f in p.states
    ensures var (s, fault) := OpenStep(parsers(f), p.states[f], recognised, now);
            Reopen(parsers, p, f, recognised, now) == (Pool(p.queue, p.states[f := s]), fault)
  {}

  lemma OpensIff(parser: TextParser, s: State, recognised: bool, now: int)
    ensures var (after, fault) := OpenStep(parser, s, recognised, now);
            && (after.handles.Some? <==> CanOpen(parser, s, recognised))
            && (fault.NoFault? <==> CanOpen(parser, s, recognised))
            && fault != CloseFailed
  {
    hide PassFrom, Tagged;
    IndexedIffTagged(parser, s.disk.text);
  }

  lemma ReopenOpens<F>(parsers: F -> TextParser, p: Pool<F>, f: F, recognised: bool, now: int)
    requires f in p.states
    ensures var (after, fault) := Reopen(parsers, p, f, recognised, now);
            && after.queue == p.queue && after.states.Keys == p.states.Keys
            && after.Open() == (if CanOpen(parsers(f), p.states[f], recognised) then p.Open() + {f} else p.Open() - {f})
            && after.Stale() == p.Stale() + (if p.IsOpen(f) then 1 else 0) - (if after.IsOpen(f) then 1 else 0)
            && fault != CloseFailed && (fault.NoFault? <==> CanOpen(parsers(f), p.states[f], recognised))
  {
    hide OpenStep, CanOpen;
    OpensIff(parsers(f), p.states[f], recognised, now);
    var after := Reopen(parsers, p, f, recognised, now).0;
    var others := p.Open() - {f};
    assert after.Open() == if after.IsOpen(f) then others + {f} else others;
    assert p.Open() == if p.IsOpen(f) then others + {f} else others;
  }

  lemma EnqueueMakesRoom<F>(p: Pool<F>, f: F)
    requires WellKept(p) && f in p.states && !p.IsOpen(f) && !p.IsStuck()
    ensures var q := Enqueue(p, f);
            && q.states.Keys == p.states.Keys && q.states[f] == p.states[f]
            && q.Stale() == p.Stale() + 1 && q.queue[|q.queue| - 1] == f && |q.queue| <= MAX_QUEUE_ENTRIES + 1
            && (forall g :: g in q.queue ==> g in p.states)
            && (forall g :: g in q.Open() ==> p.IsOpen(g) && g in q.queue)
  {
    var q := Enqueue(p, f);
    if |p.queue| > MAX_QUEUE_ENTRIES {
      var oldest := p.queue[0];
      assert q.Open() == p.Open() - {oldest};
      assert p.queue == [oldest] + p.queue[1..];
    } else {
      assert q.Open() == p.Open();
    }
  }

  /** What one request does to the queue: no entry is ever lost, and a failed opening leaves one too many. */
  lemma AskKeeps<F>(parsers: F -> TextParser, p: Pool<F>, f: F, recognised: bool, now: int)
    requires WellKept(p) && f in p.states
    ensures var (after, fault) := Ask(parsers, p, f, recognised, now);
            && WellKept(after) && after.states.Keys == p.states.Keys
            && (fault == CloseFailed <==> p.CloseFails(f))
            && (p.CloseFails(f) ==> after == p)
            && (after.IsOpen(f) <==> fault.NoFault?)
            && (fault.NoFault? <==> !p.CloseFails(f) && CanOpen(parsers(f), p.states[f], recognised))
            && after.Stale() == p.Stale() + (if fault.NoFault? || fault == CloseFailed then 0 else 1)
  {
    hide CanOpen;
    if p.IsOpen(f) {
      ReopenOpens(parsers, p, f, recognised, now);
    } else if !p.IsStuck() {
      var q := Enqueue(p, f);
      EnqueueMakesRoom(p, f);
      ReopenOpens(parsers, q, f, recognised, now);
    }
  }

  lemma AskStaysKept<F>(parsers: F -> TextParser, p: Pool<F>, f: F, recognised: bool, now: int)
    requires WellKept(p) && f in p.states
    ensures WellKept(Ask(parsers, p, f, recognised, now).0)
  {
    hide Reopen, WellKept;
    AskKeeps(parsers, p, f, recognised, now);
  }

  /** Something that happens to a data file: a request, a modification or a re-indexing. */
  datatype Happening<F> = Happening(file: F, event: Event)

  /** Closing is left to the queue. */
  ghost predicate IsAbout<F>(p: Pool<F>, hs: seq<Happening<F>>) {
    forall h :: h in hs ==> h.file in p.states && !h.event.Evicted?
  }

  function Happens<F>(parsers: F -> TextParser, p: Pool<F>, h: Happening<F>): (q: Pool<F>)
    requires h.file in p.states
    ensures q.states.Keys == p.states.Keys
  {
    match h.event
    case Requested(recognised, time) => Ask(parsers, p, h.file, recognised, time).0
    case _ => p.(states := p.states[h.file := Step(parsers(h.file), p.states[h.file], h.event)])
  }

  /** Whether it is a request whose data file cannot be opened. */
  predicate Fails<F>(parsers: F -> TextParser, p: Pool<F>, h: Happening<F>)
    requires h.file in p.states
  {
    h.event.Requested? &&
    var fault := Ask(parsers, p, h.file, h.event.recognised, h.event.time).1;
    fault == SnmpsimError || fault == TagFailed
  }

  function RunAll<F>(parsers: F -> TextParser, p: Pool<F>, hs: seq<Happening<F>>): Pool<F>
    requires IsAbout(p, hs)
    decreases |hs|
  {
    if hs == [] then p else RunAll(parsers, Happens(parsers, p, hs[0]), hs[1..])
  }

  /** The number of openings that fail in a run. */
  function Failures<F>(parsers: F -> TextParser, p: Pool<F>, hs: seq<Happening<F>>): nat
    requires IsAbout(p, hs)
    decreases |hs|
  {
    if hs == [] then 0
    else (if Fails(parsers, p, hs[0]) then 1 else 0) + Failures(parsers, Happens(parsers, p, hs[0]), hs[1..])
  }

  lemma HeadIsOpen<F>(p: Pool<F>)
    ensures p.queue != [] ==> (p.IsOpen(p.queue[0]) <==> p.queue[0] in p.Open())
  {}

  lemma AskWhenStuck<F>(parsers: F -> TextParser, p: Pool<F>, f: F, recognised: bool, now: int)
    requires f in p.states && p.IsStuck()
    ensures var q := Ask(parsers, p, f, recognised, now).0;
            q.IsStuck() && q.queue == p.queue && q.Open() <= p.Open()
  {
    hide CanOpen, Reopen;
    if p.IsOpen(f) {
      ReopenOpens(parsers, p, f, recognised, now);
      HeadIsOpen(p);
      HeadIsOpen(Reopen(parsers, p, f, recognised, now).0);
    }
  }

  lemma ModificationKeeps<F>(parsers: F -> TextParser, p: Pool<F>, h: Happening<F>)
    requires WellKept(p) && h.file in p.states && !h.event.Evicted? && !h.event.Requested?
    ensures var q := Happens(parsers, p, h);
            WellKept(q) && q.queue == p.queue && q.Open() == p.Open()
  {
    hide CreateOn;
    var q := Happens(parsers, p, h);
    assert forall f :: f in p.states ==> (q.IsOpen(f) <==> p.IsOpen(f));
  }

  lemma HappeningKeeps<F>(parsers: F -> TextParser, p: Pool<F>, h: Happening<F>)
    requires WellKept(p) && h.file in p.states && !h.event.Evicted?
    ensures var q := Happens(parsers, p, h);
            && WellKept(q) && q.Stale() == p.Stale() + (if Fails(parsers, p, h) then 1 else 0)
            && (p.IsStuck() ==> q.IsStuck() && q.queue == p.queue && q.Open() <= p.Open())
  {
    hide CanOpen, Ask, Step, WellKept, Pool.Open;
    if h.event.Requested? {
      AskKeeps(parsers, p, h.file, h.event.recognised, h.event.time);
      if p.IsStuck() {
        AskWhenStuck(parsers, p, h.file, h.event.recognised, h.event.time);
      }
    } else {
      ModificationKeeps(parsers, p, h);
      HeadIsOpen(p);
      HeadIsOpen(Happens(parsers, p, h));
    }
  }

  /** Over any run the queue has an entry for every open data file, and one for every opening that failed. */
  lemma {:induction false} RunKeeps<F>(parsers: F -> TextParser, p: Pool<F>, hs: seq<Happening<F>>)
    requires WellKept(p) && IsAbout(p, hs)
    ensures var q := RunAll(parsers, p, hs);
            WellKept(q) && q.Stale() == p.Stale() + Failures(parsers, p, hs)
    decreases |hs|
  {
    hide Happens, Fails, WellKept;
    if hs != [] {
      HappeningKeeps(parsers, p, hs[0]);
      RunKeeps(parsers, Happens(parsers, p, hs[0]), hs[1..]);
    }
  }

  /** Once the oldest entry of a full queue is not open, no closed data file is ever opened again. */
  lemma {:induction false} StaysStuck<F>(parsers: F -> TextParser, p: Pool<F>, hs: seq<Happening<F>>)
    requires WellKept(p) && IsAbout(p, hs) && p.IsStuck()
    ensures var q := RunAll(parsers, p, hs);
            q.IsStuck() && q.queue == p.queue && q.Open() <= p.Open()
    decreases |hs|
  {
    hide Happens, Fails, WellKept;
    if hs != [] {
      HappeningKeeps(parsers, p, hs[0]);
      StaysStuck(parsers, Happens(parsers, p, hs[0]), hs[1..]);
    }
  }

  function Entries<F(==)>(queue: seq<F>): set<F> {
    set f | f in queue
  }

  lemma NothingTwice<F>(queue: seq<F>)
    requires queue == []
    ensures NoneTwice(queue)
  {}

  lemma NoneTwiceButLast<F>(queue: seq<F>)
    requires queue != []
    ensures var rest, last := queue[..|queue| - 1], queue[|queue| - 1];
            NoneTwice(queue) <==> NoneTwice(rest) && last !in rest
  {}

  lemma {:induction false} EntriesCount<F>(queue: seq<F>)
    ensures |Entries(queue)| <= |queue|
    ensures |Entries(queue)| == |queue| <==> NoneTwice(queue)
    decreases |queue|
  {
    hide NoneTwice;
    if queue != [] {
      var rest, last := queue[..|queue| - 1], queue[|queue| - 1];
      EntriesCount(rest);
      NoneTwiceButLast(queue);
      assert Entries(queue) == Entries(rest) + {last};
    } else {
      assert NoneTwice(queue) by { NothingTwice(queue); }
    }
  }

  /** The queue holds just the open data files if and only if it has no more entries than they are. */
  lemma TracksIffNoneStale<F>(p: Pool<F>)
    requires WellKept(p)
    ensures p.Stale() >= 0 && (Tracks(p) <==> p.Stale() == 0)
  {
    var entries := Entries(p.queue);
    EntriesCount(p.queue);
    assert entries == p.Open() + (entries - p.Open());
    assert |entries| == |p.Open()| + |entries - p.Open()|;
    if Tracks(p) {
      assert entries == p.Open();
    }
    if p.Stale() == 0 {
      assert entries - p.Open() == {};
      forall f | f in p.queue
        ensures p.IsOpen(f)
      {
        assert f in entries;
      }
    }
  }

  lemma QueueIsBounded<F>(p: Pool<F>)
    requires WellKept(p)
    ensures |p.queue| <= MAX_QUEUE_ENTRIES + 1 && p.Open() <= Entries(p.queue)
  {
  }

  /** So in every run the queue tracks the open data files exactly until an opening fails, and it
      never holds more than 32; that many failures are the most there can be. */
  lemma TracksUntilAFailure<F>(parsers: F -> TextParser, p: Pool<F>, hs: seq<Happening<F>>)
    requires WellKept(p) && Tracks(p) && IsAbout(p, hs)
    ensures var q := RunAll(parsers, p, hs);
            && |q.queue| == |q.Open()| + Failures(parsers, p, hs) <= MAX_QUEUE_ENTRIES + 1
            && (Tracks(q) <==> Failures(parsers, p, hs) == 0)
            && (Failures(parsers, p, hs) > MAX_QUEUE_ENTRIES ==> q.Open() == {} && q.IsStuck())
  {
    hide RunAll, Failures, WellKept, Tracks;
    var q := RunAll(parsers, p, hs);
    TracksIffNoneStale(p);
    RunKeeps(parsers, p, hs);
    TracksIffNoneStale(q);
    QueueIsBounded(q);
    if q.Open() == {} && |q.queue| > MAX_QUEUE_ENTRIES {
      assert q.queue[0] !in q.Open();
    }
  }

  /** For one request: the queue goes on tracking the open data files if and only if the data file
      can be opened, which its state tells beforehand. */
  lemma AskTracksIff<F>(parsers: F -> TextParser, p: Pool<F>, f: F, recognised: bool, now: int)
    requires WellKept(p) && Tracks(p) && f in p.states
    ensures var (q, fault) := Ask(parsers, p, f, recognised, now);
            && fault != CloseFailed && (Tracks(q) <==> CanOpen(parsers(f), p.states[f], recognised))
            && (q.IsOpen(f) <==> CanOpen(parsers(f), p.states[f], recognised))
  {
    hide CanOpen, OpenStep;
    TracksIffNoneStale(p);
    AskKeeps(parsers, p, f, recognised, now);
    TracksIffNoneStale(Ask(parsers, p, f, recognised, now).0);
  }

  /** The queue holds 32 entries: only then does the oldest one make room for the file asked for. */
  lemma ThirtyTwoEntries<F>(parsers: F -> TextParser, p: Pool<F>, f: F, recognised: bool, now: int)
    requires WellKept(p) && f in p.states
    ensures |p.queue| <= 32
    ensures var q := Ask(parsers, p, f, recognised, now).0;
            && (p.IsOpen(f) ==> q.queue == p.queue)
            && (!p.IsOpen(f) && |p.queue| < 32 ==>
                  q.queue == p.queue + [f] && forall g :: g in p.states && g != f ==> (q.IsOpen(g) <==> p.IsOpen(g)))
            && (!p.IsOpen(f) && |p.queue| == 32 && p.IsOpen(p.queue[0]) ==>
                  q.queue == p.queue[1..] + [f]
                  && forall g :: g in p.states && g != f ==> (q.IsOpen(g) <==> p.IsOpen(g) && g != p.queue[0]))
  {
    hide OpenStep, Tracks;
  }

  /** A data file refused twice is queued twice. */
  lemma RefusedTwiceQueuedTwice<F>(parsers: F -> TextParser, p: Pool<F>, f: F, t1: int, t2: int)
    requires f in p.states && !p.IsOpen(f) && |p.queue| < MAX_QUEUE_ENTRIES
    requires var disk := p.states[f].disk; StopsAt(parsers(f), disk.text, 0, false) && !IsReusable(disk, true)
    ensures var q := Ask(parsers, p, f, true, t1).0;
            Ask(parsers, q, f, true, t2).0.queue == p.queue + [f, f]
  {
    hide PassFrom, IndexPass, StopsAt;
    IndexedIffTagged(parsers(f), p.states[f].disk.text);
    assert p.queue + [f] + [f] == p.queue + [f, f];
  }

  /** A closed data file at the head of the queue stays there as long as it is not asked for again. */
  lemma {:induction false} ClosedHeadStays<F>(parsers: F -> TextParser, p: Pool<F>, hs: seq<Happening<F>>)
    requires WellKept(p) && IsAbout(p, hs)
    requires p.queue != [] && !p.IsOpen(p.queue[0]) && forall h :: h in hs ==> h.file != p.queue[0]
    ensures var q := RunAll(parsers, p, hs);
            q.queue != [] && q.queue[0] == p.queue[0] && !q.IsOpen(q.queue[0])
    decreases |hs|
  {
    hide WellKept, OpenStep, CreateOn;
    if hs != [] {
      HappeningKeeps(parsers, p, hs[0]);
      ClosedHeadStays(parsers, Happens(parsers, p, hs[0]), hs[1..]);
    }
  }

  /** One data file that is refused first is enough: when 31 others have been opened without it
      being asked for again, no closed data file can be. */
  lemma OneRefusalSuffices<F>(parsers: F -> TextParser, p: Pool<F>, h: Happening<F>, hs: seq<Happening<F>>)
    requires p.queue == [] && p.Open() == {} && IsAbout(p, [h] + hs)
    requires Fails(parsers, p, h) && forall g :: g in hs ==> g.file != h.file
    requires |RunAll(parsers, p, [h] + hs).Open()| >= MAX_QUEUE_ENTRIES
    ensures RunAll(parsers, p, [h] + hs).IsStuck()
  {
    hide OpenStep, CreateOn;
    var all := [h] + hs;
    assert all[0] == h && all[1..] == hs;
    var q := Happens(parsers, p, h);
    AskKeeps(parsers, p, h.file, h.event.recognised, h.event.time);
    assert q.queue == [h.file];
    TracksUntilAFailure(parsers, p, all);
    assert forall g :: g in hs ==> g in all;
    ClosedHeadStays(parsers, q, hs);
  }

  ghost predicate AllCurrent<F>(parsers: F -> TextParser, p: Pool<F>) {
    forall f :: f in p.states ==> Inv(parsers(f), p.states[f])
  }

  /** A run in which every modification can be noticed. */
  ghost predicate IsNoticed<F>(parsers: F -> TextParser, p: Pool<F>, hs: seq<Happening<F>>)
    requires IsAbout(p, hs)
    decreases |hs|
  {
    hs != [] ==>
      var s := p.states[hs[0].file];
      && IsPossible(s, hs[0].event) && IsNoticeable(s, hs[0].event)
      && IsNoticed(parsers, Happens(parsers, p, hs[0]), hs[1..])
  }

  lemma InvWhenClosed(parser: TextParser, s: State)
    requires Inv(parser, s)
    ensures Inv(parser, s.(handles := None))
  {}

  lemma HappeningKeepsCurrent<F>(parsers: F -> TextParser, p: Pool<F>, h: Happening<F>)
    requires AllCurrent(parsers, p) && h.file in p.states && !h.event.Evicted?
    requires IsPossible(p.states[h.file], h.event) && IsNoticeable(p.states[h.file], h.event)
    ensures AllCurrent(parsers, Happens(parsers, p, h))
  {
    hide Inv, IsNoticeable, OpenStep, CreateOn;
    var q := Happens(parsers, p, h);
    StepKeepsInv(parsers(h.file), p.states[h.file], h.event);
    forall f | f in p.states
      ensures Inv(parsers(f), q.states[f])
    {
      InvWhenClosed(parsers(f), p.states[f]);
    }
  }

  /** What a request gets when every index is current: the index of the current text, or the error
      that text gives rise to, unless no data file can be closed to make room. */
  lemma AskGetsTheCurrentIndex<F>(parsers: F -> TextParser, p: Pool<F>, f: F, recognised: bool, now: int)
    requires AllCurrent(parsers, p) && f in p.states
    ensures var (q, fault) := Ask(parsers, p, f, recognised, now);
            var text := p.states[f].disk.text;
            AllCurrent(parsers, q) &&
            if p.CloseFails(f) then fault == CloseFailed
            else
              match IndexPass(parsers(f), text)
              case Indexed(db) => fault == NoFault && q.states[f].handles == Some(Handles(text, db))
              case DataError(_) => fault == SnmpsimError && q.states[f].handles == None
              case BlankTag(db) => if fault == NoFault then q.states[f].handles == Some(Handles(text, db))
                                   else fault == TagFailed && q.states[f].handles == None
  {
    hide Inv, OpenStep, IndexPass;
    HappeningKeepsCurrent(parsers, p, Happening(f, Requested(recognised, now)));
    RequestsGetTheCurrentIndex(parsers(f), p.states[f], [], recognised, now);
  }

  /** So it is after any run in which modifications can be noticed. */
  lemma {:induction false} RunKeepsCurrent<F>(parsers: F -> TextParser, p: Pool<F>, hs: seq<Happening<F>>)
    requires AllCurrent(parsers, p) && IsAbout(p, hs) && IsNoticed(parsers, p, hs)
    ensures AllCurrent(parsers, RunAll(parsers, p, hs))
    decreases |hs|
  {
    hide AllCurrent, Happens, IsPossible, IsNoticeable;
    if hs != [] {
      HappeningKeepsCurrent(parsers, p, hs[0]);
      RunKeepsCurrent(parsers, Happens(parsers, p, hs[0]), hs[1..]);
    }
  }

  /** Before the first request nothing is queued or open, and with index files no newer than their
      texts every index is current. */
  lemma PoolAtFirst<F>(parsers: F -> TextParser, p: Pool<F>)
    requires p.queue == [] && forall f :: f in p.states ==> p.states[f].handles.None?
    ensures WellKept(p) && Tracks(p) && p.Open() == {} && !p.IsStuck()
    ensures (forall f :: f in p.states ==>
               var d := p.states[f].disk; d.stored.Some? ==> d.stored.value.time <= d.textTime) ==>
              AllCurrent(parsers, p)
  {}
}
