/** Data files: the bounded queue of open ones, and requests against them. */
module DataFiles {
  import opened Wrappers
  import opened Oids
  import opened Texts
  import opened TextFiles
  import opened Recordings
  import opened Indexing
  import opened RecordIndexes
  import opened Freshness
  import opened Plans
  import opened Pools
  import opened Requests
  import opened Serving
  import opened Walks

  class DataFile {
    const index: RecordIndex

    constructor (index: RecordIndex)
      ensures this.index == index
    {
      this.index := index;
    }
  }

  /** The variable bindings of a whole request, answered one after the other; None when an exception ends it. */
  datatype Replies = Replies(binds: Option<seq<VarBind>>, calls: seq<Call>, errors: nat)

  function QueryAt(binds: seq<VarBind>, i: nat, nextFlag: bool, setFlag: bool): Query
    requires i < |binds|
  {
    Query(binds[i].oid, binds[i].value, nextFlag, setFlag, |binds|, |binds| - i - 1)
  }

  /** The answers to the variable bindings from the `i`th on, behind those done. */
  ghost function ResolveFrom(parser: TextParser, c: Bytes, eval: Evaluator, binds: seq<VarBind>,
                             nextFlag: bool, setFlag: bool, patience: nat, i: nat,
                             done: seq<VarBind>, calls: seq<Call>, errors: nat): Replies
    requires i <= |binds|
    decreases |binds| - i
  {
    if i == |binds| then Replies(Some(done), calls, errors)
    else
      var q := QueryAt(binds, i, nextFlag, setFlag);
      var r := Resolve(c, q, eval, Due(parser, c, q, patience), 0, calls, 0);
      if r.bind.None? then Replies(None, r.calls, errors + r.errors)
      else ResolveFrom(parser, c, eval, binds, nextFlag, setFlag, patience, i + 1, done + [r.bind.value], r.calls,
        errors + r.errors)
  }

  /** Every one of them is answered. */
  ghost predicate AreSettled(parser: TextParser, c: Bytes, eval: Evaluator, binds: seq<VarBind>,
                             nextFlag: bool, setFlag: bool, patience: nat, i: nat, calls: seq<Call>)
    requires i <= |binds|
    decreases |binds| - i
  {
    i < |binds| ==>
      var q := QueryAt(binds, i, nextFlag, setFlag);
      && IsSettled(parser, c, q, eval, patience, calls)
      && AreSettled(parser, c, eval, binds, nextFlag, setFlag, patience, i + 1,
                    Resolve(c, q, eval, Due(parser, c, q, patience), 0, calls, 0).calls)
  }

  /** They are on GETNEXT, and by an evaluator that says endOfMib on nothing else. */
  lemma {:induction false} AreSettledWhen(parser: TextParser, c: Bytes, eval: Evaluator, binds: seq<VarBind>,
                                          nextFlag: bool, setFlag: bool, patience: nat, i: nat, calls: seq<Call>)
    requires i <= |binds| && (nextFlag || Honest(eval))
    ensures AreSettled(parser, c, eval, binds, nextFlag, setFlag, patience, i, calls)
    decreases |binds| - i
  {
    hide Resolve, Due, Honest;
    if i < |binds| {
      var q := QueryAt(binds, i, nextFlag, setFlag);
      if !nextFlag {
        HonestSettles(parser, c, q, eval, patience, calls);
      }
      AreSettledWhen(parser, c, eval, binds, nextFlag, setFlag, patience, i + 1,
                     Resolve(c, q, eval, Due(parser, c, q, patience), 0, calls, 0).calls);
    }
  }

  /** Answers from a recording that is only read are independent: each one is that to its OID alone. */
  lemma {:induction false} StaticAnswersAreSeparate(parser: TextParser, contents: Contents, c: Bytes,
                                                    binds: seq<VarBind>, nextFlag: bool, setFlag: bool,
                                                    i: nat, done: seq<VarBind>, calls: seq<Call>, errors: nat)
    requires i <= |binds|
    ensures ResolveFrom(parser, c, Static(parser, contents), binds, nextFlag, setFlag, 0, i, done, calls, errors).binds
            == Some(done + seq(|binds| - i, k requires 0 <= k < |binds| - i =>
                 AnswerTo(parser, contents, c, QueryAt(binds, i + k, nextFlag, setFlag))))
    decreases |binds| - i
  {
    hide Resolve, Plan, Due;
    var all := done + seq(|binds| - i, k requires 0 <= k < |binds| - i =>
      AnswerTo(parser, contents, c, QueryAt(binds, i + k, nextFlag, setFlag)));
    if i < |binds| {
      var q := QueryAt(binds, i, nextFlag, setFlag);
      var due := Plan(parser, c, q.oid, nextFlag);
      DueAtOnce(parser, c, q);
      StaticForgets(parser, contents, c, q, due, 0, calls, 0);
      var r := Resolve(c, q, Static(parser, contents), due, 0, calls, 0);
      assert r.bind.value == AnswerTo(parser, contents, c, q);
      StaticAnswersAreSeparate(parser, contents, c, binds, nextFlag, setFlag, i + 1, done + [r.bind.value], r.calls,
        errors + r.errors);
      assert all == done + [r.bind.value] + seq(|binds| - (i + 1), k requires 0 <= k < |binds| - (i + 1) =>
        AnswerTo(parser, contents, c, QueryAt(binds, i + 1 + k, nextFlag, setFlag)));
    } else {
      assert all == done;
    }
  }

  /** So a GETNEXT request reads next, OID by OID, just as GETBULK takes for granted. */
  lemma GetNextReadsEach(parser: TextParser, contents: Contents, c: Bytes, binds: seq<VarBind>, calls: seq<Call>)
    ensures ResolveFrom(parser, c, Static(parser, contents), binds, true, false, 0, 0, [], calls, 0).binds
            == Some(ReadNext(o => GetNext(parser, contents, c, o), binds))
  {
    hide ResolveFrom, Plan, Resolve;
    StaticAnswersAreSeparate(parser, contents, c, binds, true, false, 0, [], calls, 0);
    var answers := seq(|binds|,
      k requires 0 <= k < |binds| => AnswerTo(parser, contents, c, QueryAt(binds, 0 + k, true, false)));
    var next := o => GetNext(parser, contents, c, o);
    forall k | 0 <= k < |binds|
      ensures answers[k] == ReadNext(next, binds)[k]
    {
      var q, q' := QueryAt(binds, k, true, false), Query(binds[k].oid, NoSuchInstance, true, false, 1, 0);
      AnsweredAlike(parser, contents, c, q, q', Plan(parser, c, q.oid, true), 0, [], [], 0, 0);
    }
    assert [] + answers == answers == ReadNext(next, binds);
  }

  lemma {:induction false} FailedJoins(eval: Evaluator, before: seq<Call>, a: seq<Call>, b: seq<Call>)
    ensures Failed(eval, before, a + b) == Failed(eval, before, a) + Failed(eval, before + a, b)
    decreases |a|
  {
    if a == [] {
      assert a + b == b && before + a == before;
    } else {
      FailedJoins(eval, before + [a[0]], a[1..], b);
      assert (a + b)[1..] == a[1..] + b && before + [a[0]] + a[1..] == before + a;
    }
  }

  /** The calls are made for the variable bindings from the `i`th on, in order, each with the OID and
      value of its own, the flags of the request, the number of variable bindings and of those to come. */
  ghost predicate CarryTheRequest(binds: seq<VarBind>, nextFlag: bool, setFlag: bool, i: nat, made: seq<Call>) {
    && (forall x :: 0 <= x < |made| ==>
          var q := made[x].query;
          var j := |binds| - 1 - q.varsRemaining;
          i <= j < |binds| && q == Query(binds[j].oid, binds[j].value, nextFlag, setFlag, |binds|, |binds| - 1 - j))
    && (forall x, y :: 0 <= x < y < |made| ==> made[x].query.varsRemaining >= made[y].query.varsRemaining)
  }

  lemma CarryJoins(binds: seq<VarBind>, nextFlag: bool, setFlag: bool, i: nat, a: seq<Call>, b: seq<Call>)
    requires i < |binds| && CarryTheRequest(binds, nextFlag, setFlag, i + 1, b)
    requires forall x :: 0 <= x < |a| ==>
               a[x].query == Query(binds[i].oid, binds[i].value, nextFlag, setFlag, |binds|, |binds| - 1 - i)
    ensures CarryTheRequest(binds, nextFlag, setFlag, i, a + b)
  {}

  lemma NothingCarried(eval: Evaluator, calls: seq<Call>, binds: seq<VarBind>, nextFlag: bool, setFlag: bool, i: nat)
    ensures CarryTheRequest(binds, nextFlag, setFlag, i, []) && Failed(eval, calls, []) == 0
  {}

  /** Every call made for a request carries it, and the errors counted are the failed calls. */
  lemma {:induction false} CallsCarryTheRequest(parser: TextParser, c: Bytes, eval: Evaluator,
                                                binds: seq<VarBind>, nextFlag: bool, setFlag: bool, patience: nat,
                                                i: nat, done: seq<VarBind>, calls: seq<Call>, errors: nat)
    requires i <= |binds|
    ensures var r := ResolveFrom(parser, c, eval, binds, nextFlag, setFlag, patience, i, done, calls, errors);
            && calls <= r.calls && CarryTheRequest(binds, nextFlag, setFlag, i, r.calls[|calls|..])
            && r.errors == errors + Failed(eval, calls, r.calls[|calls|..])
    decreases |binds| - i
  {
    hide Resolve, Due, CarryTheRequest, Failed;
    var r := ResolveFrom(parser, c, eval, binds, nextFlag, setFlag, patience, i, done, calls, errors);
    NothingCarried(eval, calls, binds, nextFlag, setFlag, i);
    NothingCarried(eval, calls, binds, nextFlag, setFlag, i + 1);
    if i == |binds| {
      assert r.calls[|calls|..] == [];
    } else {
      var q := QueryAt(binds, i, nextFlag, setFlag);
      var due := Due(parser, c, q, patience);
      var one := Resolve(c, q, eval, due, 0, calls, 0);
      ErrorsAreFailures(c, q, eval, due, 0, calls, 0);
      var a := one.calls[|calls|..];
      if one.bind.Some? {
        CallsCarryTheRequest(parser, c, eval, binds, nextFlag, setFlag, patience, i + 1, done + [one.bind.value],
                             one.calls, errors + one.errors);
        var b := r.calls[|one.calls|..];
        assert calls + a == one.calls && r.calls[..|one.calls|] == one.calls && r.calls[|calls|..] == a + b;
        FailedJoins(eval, calls, a, b);
        CarryJoins(binds, nextFlag, setFlag, i, a, b);
      } else {
        assert a + [] == a;
        CarryJoins(binds, nextFlag, setFlag, i, a, []);
      }
    }
  }

  lemma NothingRaises(eval: Evaluator, calls: seq<Call>)
    ensures !Raises(eval, calls, [])
  {}

  /** A request is ended by an exception if and only if a call of the evaluator raises one; otherwise
      every variable binding is answered. */
  lemma {:induction false} AbandonedIffRaised(parser: TextParser, c: Bytes, eval: Evaluator, binds: seq<VarBind>,
                                              nextFlag: bool, setFlag: bool, patience: nat, i: nat,
                                              done: seq<VarBind>, calls: seq<Call>, errors: nat)
    requires i <= |binds|
    ensures var r := ResolveFrom(parser, c, eval, binds, nextFlag, setFlag, patience, i, done, calls, errors);
            && calls <= r.calls && (r.binds.None? <==> Raises(eval, calls, r.calls[|calls|..]))
            && (r.binds.Some? ==> done <= r.binds.value && |r.binds.value| == |done| + |binds| - i)
    decreases |binds| - i
  {
    hide Resolve, Due, Raises, IsVerdict;
    var r := ResolveFrom(parser, c, eval, binds, nextFlag, setFlag, patience, i, done, calls, errors);
    if i == |binds| {
      assert r.calls[|calls|..] == [] && !Raises(eval, calls, []) by { NothingRaises(eval, calls); }
    } else {
      var q := QueryAt(binds, i, nextFlag, setFlag);
      var due := Due(parser, c, q, patience);
      var one := Resolve(c, q, eval, due, 0, calls, 0);
      LastCallDecides(c, q, eval, due, 0, calls, 0);
      var a := one.calls[|calls|..];
      VerdictRaises(eval, q, calls, a, one.bind);
      if one.bind.Some? {
        AbandonedIffRaised(parser, c, eval, binds, nextFlag, setFlag, patience, i + 1, done + [one.bind.value],
                           one.calls, errors + one.errors);
        var b := r.calls[|one.calls|..];
        assert calls + a == one.calls && r.calls[..|one.calls|] == one.calls && r.calls[|calls|..] == a + b;
        RaisesJoins(eval, calls, a, b);
      }
    }
  }

  /** A SET of a recording that is only read is answered noSuchInstance under every requested OID, and
      a GET with the stored value or noSuchInstance. */
  lemma StaticRequestsReadTheMap(parser: TextParser, contents: Contents, c: Bytes, binds: seq<VarBind>,
                                 setFlag: bool, m: map<Oid, Content>, calls: seq<Call>)
    requires Sorted(parser, c) && IsStoreOf(m, parser, contents, c)
    ensures ResolveFrom(parser, c, Static(parser, contents), binds, false, setFlag, 0, 0, [], calls, 0).binds
            == Some(seq(|binds|, k requires 0 <= k < |binds| =>
                 VarBind(binds[k].oid,
                         if !setFlag && binds[k].oid in m then Data(m[binds[k].oid]) else NoSuchInstance)))
  {
    hide ResolveFrom, AnswerTo, IsStoreOf, Sorted;
    StaticAnswersAreSeparate(parser, contents, c, binds, false, setFlag, 0, [], calls, 0);
    forall k | 0 <= k < |binds|
      ensures AnswerTo(parser, contents, c, QueryAt(binds, 0 + k, false, setFlag))
              == VarBind(binds[k].oid,
                         if !setFlag && binds[k].oid in m then Data(m[binds[k].oid]) else NoSuchInstance)
    {
      GetReadsTheMap(parser, contents, c, QueryAt(binds, k, false, setFlag), m);
    }
    var answers := seq(|binds|,
      k requires 0 <= k < |binds| => AnswerTo(parser, contents, c, QueryAt(binds, 0 + k, false, setFlag)));
    var expected := seq(|binds|, k requires 0 <= k < |binds| =>
      VarBind(binds[k].oid, if !setFlag && binds[k].oid in m then Data(m[binds[k].oid]) else NoSuchInstance));
    assert [] + answers == answers == expected;
  }

  /** Answers all variable bindings of a request from an open recording. */
  method AnswerAll(text: TextFile, db: Index, parser: TextParser, eval: Evaluator, varBinds: seq<VarBind>,
                   nextFlag: bool, setFlag: bool, calls0: seq<Call>, ghost patience: nat)
    returns (rsp: Replies)
    requires Readable(parser, text.content) && Sorted(parser, text.content) && IsIndexOf(parser, text.content, db)
    requires AreSettled(parser, text.content, eval, varBinds, nextFlag, setFlag, patience, 0, calls0)
    modifies text
    ensures rsp == ResolveFrom(parser, text.content, eval, varBinds, nextFlag, setFlag, patience, 0, [], calls0, 0)
  {
    hide Resolve, Due, Readable, Sorted, IsIndexOf, IsSettled;
    var rspVarBinds, calls, errTotal := [], calls0, 0;
    var varsRemaining := |varBinds|;
    for i := 0 to |varBinds|
      invariant varsRemaining == |varBinds| - i
      invariant AreSettled(parser, text.content, eval, varBinds, nextFlag, setFlag, patience, i, calls)
      invariant ResolveFrom(parser, text.content, eval, varBinds, nextFlag, setFlag, patience, 0, [], calls0, 0)
                == ResolveFrom(parser, text.content, eval, varBinds, nextFlag, setFlag, patience, i, rspVarBinds,
                  calls, errTotal)
    {
      varsRemaining := varsRemaining - 1;
      var q := Query(varBinds[i].oid, varBinds[i].value, nextFlag, setFlag, |varBinds|, varsRemaining);
      assert q == QueryAt(varBinds, i, nextFlag, setFlag);
      var bind, calls', errors := AnswerVarBind(text, db, parser, eval, q, calls, patience);
      calls, errTotal := calls', errTotal + errors;
      if bind.None? {
        return Replies(None, calls, errTotal);
      }
      rspVarBinds := rspVarBinds + [bind.value];
    }
    return Replies(Some(rspVarBinds), calls, errTotal);
  }

  /** Answers when the data file or its index is unusable. */
  function Refusal(varBinds: seq<VarBind>, nextFlag: bool): seq<VarBind> {
    seq(|varBinds|,
      i requires 0 <= i < |varBinds| => VarBind(varBinds[i].oid, if nextFlag then EndOfMib else NoSuchInstance))
  }

  /** A data file that cannot be used answers a GETNEXT or GET just as one without records does. */
  lemma RefusesLikeAnEmptyFile(parser: TextParser, contents: Contents,
                               binds: seq<VarBind>, nextFlag: bool, calls: seq<Call>)
    ensures ResolveFrom(parser, [], Static(parser, contents), binds, nextFlag, false, 0, 0, [], calls, 0).binds
            == Some(Refusal(binds, nextFlag))
    ensures forall k :: 0 <= k < |binds| ==> Refusal(binds, true)[k] == VarBind(binds[k].oid, EndOfMib)
    ensures forall k :: 0 <= k < |binds| ==> Refusal(binds, false)[k] == VarBind(binds[k].oid, NoSuchInstance)
  {
    hide ResolveFrom, AnswerTo;
    StaticAnswersAreSeparate(parser, contents, [], binds, nextFlag, false, 0, [], calls, 0);
    var answers := seq(|binds|,
      k requires 0 <= k < |binds| => AnswerTo(parser, contents, [], QueryAt(binds, 0 + k, nextFlag, false)));
    forall k | 0 <= k < |binds|
      ensures answers[k] == Refusal(binds, nextFlag)[k]
    {
      NothingToAnswer(parser, contents, QueryAt(binds, k, nextFlag, false));
    }
    assert [] + answers == answers == Refusal(binds, nextFlag);
  }

  ghost predicate IsServable(parser: TextParser, c: Bytes) {
    Readable(parser, c) && Sorted(parser, c) && Canonical(parser, c)
  }

  lemma ServableIsIndexed(parser: TextParser, c: Bytes)
    requires IsServable(parser, c)
    ensures Readable(parser, c) && Sorted(parser, c)
    ensures var pass := IndexPass(parser, c); pass.Indexed? && IsIndexOf(parser, c, pass.db)
  {
    IndexIsExact(parser, c, false);
  }

  function ParserOf(f: DataFile): TextParser {
    f.index.parser
  }

  /** The class-wide queue over all data files. */
  class OpenFiles {
    var openedQueue: seq<DataFile>

    constructor ()
      ensures openedQueue == []
    {
      openedQueue := [];
    }

    /** The data files there are, each with an index of its own. */
    ghost predicate Valid(files: set<DataFile>)
      reads this, set f | f in files :: f.index
    {
      && (forall f :: f in files ==> f.index.Valid())
      && (forall f, g :: f in files && g in files && f != g ==> f.index != g.index)
    }

    ghost function Abs(files: set<DataFile>): Pool<DataFile>
      requires Valid(files)
      reads this, set f | f in files :: f.index
    {
      Pool(openedQueue, map f | f in files :: f.index.Abs())
    }

    /** Queues a data file to be opened, after closing the oldest one if there are too many. */
    method QueueUp(f: DataFile, ghost files: set<DataFile>) returns (fault: Fault)
      requires Valid(files) && WellKept(Abs(files)) && f in files && !f.index.IsOpen()
      modifies this, set g | g in files :: g.index
      ensures Valid(files) && f.index.text == old(f.index.text)
      ensures fault == if old(Abs(files)).IsStuck() then CloseFailed else NoFault
      ensures Abs(files) == if fault.NoFault? then Enqueue(old(Abs(files)), f) else old(Abs(files))
    {
      hide WellKept;
      ghost var was := Abs(files);
      QueueIsKnown(was);
      if |openedQueue| > MAX_QUEUE_ENTRIES {
        assert openedQueue[0] in was.queue && was.queue == openedQueue;
        fault := openedQueue[0].index.Close();
        if fault != NoFault {
          assert Abs(files) == was;
          return;
        }
        openedQueue := openedQueue[1..];
      }
      openedQueue := openedQueue + [f];
      assert Abs(files).states == Enqueue(was, f).states;
      fault := NoFault;
    }

    /** `DataFile.get_handles`. */
    method GetHandles(f: DataFile, recognised: bool, now: int, ghost files: set<DataFile>) returns (fault: Fault)
      requires Valid(files) && WellKept(Abs(files)) && f in files
      modifies this, set g | g in files :: g.index
      ensures Valid(files) && WellKept(Abs(files))
      ensures (Abs(files), fault) == Ask(ParserOf, old(Abs(files)), f, recognised, now)
      ensures fault.NoFault? ==> f.index.IsOpen() && (f.index.text == old(f.index.text) || fresh(f.index.text))
    {
      hide OpenStep, WellKept, Enqueue, Ask, Reopen, Pool.IsStuck, Pool.Open;
      ghost var was := Abs(files);
      AskUnfolds(ParserOf, was, f, recognised, now);
      AskStaysKept(ParserOf, was, f, recognised, now);
      if !f.index.IsOpen() {
        fault := QueueUp(f, files);
        if fault != NoFault {
          return;
        }
      }
      ghost var queued := Abs(files);
      ReopenUnfolds(ParserOf, queued, f, recognised, now);
      fault := f.index.GetHandles(recognised, now);
      assert Abs(files).states == queued.states[f := f.index.Abs()];
    }

    /** `process_var_binds`: answers from the current text of the data file. When that cannot be
        indexed, every variable binding is refused, or an exception ends the request. */
    method ProcessVarBinds(f: DataFile, varBinds: seq<VarBind>, nextFlag: bool, setFlag: bool,
                           eval: Evaluator, calls: seq<Call>, recognised: bool, now: int,
                           ghost files: set<DataFile>, ghost patience: nat)
      returns (rsp: Replies)
      requires Valid(files) && WellKept(Abs(files)) && f in files
      requires AllCurrent(ParserOf, Abs(files))
      requires CanOpen(f.index.parser, f.index.Abs(), recognised) ==>
                 && IsServable(f.index.parser, f.index.disk.text)
                 && AreSettled(f.index.parser, f.index.disk.text, eval, varBinds, nextFlag, setFlag, patience, 0, calls)
      modifies this, set g | g in files :: g.index
      modifies if f.index.text == null then {} else {f.index.text}
      ensures Valid(files) && WellKept(Abs(files)) && AllCurrent(ParserOf, Abs(files))
      ensures Abs(files) == Ask(ParserOf, old(Abs(files)), f, recognised, now).0
      ensures var parser, text := f.index.parser, old(f.index.disk.text);
              if old(Abs(files)).CloseFails(f) then rsp == Replies(None, calls, 0)
              else if Tagged(parser, text) then
                rsp == ResolveFrom(parser, text, eval, varBinds, nextFlag, setFlag, patience, 0, [], calls, 0)
              else if StopsAt(parser, text, 0, false) then rsp == Replies(Some(Refusal(varBinds, nextFlag)), calls, 1)
              else rsp == Replies(None, calls, 0)
    {
      hide Ask, Inv, IsServable, Tagged, StopsAt, IndexPass, WellKept, ResolveFrom, AreSettled;
      ghost var was := Abs(files);
      ghost var text := f.index.disk.text;
      AskKeeps(ParserOf, was, f, recognised, now);
      IndexedIffTagged(f.index.parser, text);
      AskGetsTheCurrentIndex(ParserOf, was, f, recognised, now);
      var fault := GetHandles(f, recognised, now, files);
      match fault
      case SnmpsimError => return Replies(Some(Refusal(varBinds, nextFlag)), calls, 1);
      case TagFailed => return Replies(None, calls, 0);
      case CloseFailed => return Replies(None, calls, 0);
      case NoFault =>
        ServableIsIndexed(f.index.parser, text);
        rsp := AnswerAll(f.index.text, f.index.db.value, f.index.parser, eval, varBinds, nextFlag, setFlag, calls,
          patience);
    }
  }
}
