/** Answering the variable bindings of one request from a recording and its index. */
module Requests {
  import opened Wrappers
  import opened Oids
  import opened Texts
  import opened OidTexts
  import opened TextFiles
  import opened Recordings
  import opened FileSearch
  import opened Indexing

  /** The tag and the octets a record's value field stands for. */
  datatype Content = Content(tag: Bytes, octets: Bytes)

  /** Values of variable bindings: the two exceptions of RFC 3416 and everything a record can hold. */
  datatype Value = NoSuchInstance | EndOfMib | Data(content: Content)

  datatype VarBind = VarBind(oid: Oid, value: Value)

  /** One variable binding of a request, in its context. */
  datatype Query = Query(oid: Oid, value: Value, nextFlag: bool, setFlag: bool, varsTotal: nat, varsRemaining: nat) {
    function ErrorStatus(): Value {
      if nextFlag then EndOfMib else NoSuchInstance
    }

    function NoAnswer(): VarBind {
      VarBind(oid, ErrorStatus())
    }
  }

  /** A record line handed to the record evaluator. */
  datatype Call = Call(line: Bytes, query: Query, subtree: bool, exact: bool)

  /** What the evaluator makes of it; Raised stands for the two exceptions that end the request. */
  datatype Outcome = Answer(bind: VarBind) | Broken | Raised

  /** An evaluator may depend on all the calls made before: variation modules keep state. */
  type Evaluator = (seq<Call>, Call) -> Outcome

  /** The evaluator says endOfMib only where that is the error status, that is on GETNEXT. */
  ghost predicate Honest(eval: Evaluator) {
    forall calls, call :: eval(calls, call).Answer? && eval(calls, call).bind.value.EndOfMib? ==> call.query.nextFlag
  }

  const MAX_BROKEN_RECORDS := 100

  /** A record due for evaluation, with the flags the evaluator is told. */
  datatype Try = Try(at: nat, subtree: bool, exact: bool)

  /** All records from `p` on, as GETNEXT reads them one after the other. */
  function TriesFrom(parser: TextParser, c: Bytes, p: nat): (tries: seq<Try>)
    decreases |c| - p
  {
    var s := RecordAt(c, p);
    if s >= |c| then [] else [Try(s, parser.IsSubtree(Line(c, s)), true)] + TriesFrom(parser, c, LineEnd(c, s))
  }

  function Onwards(parser: TextParser, c: Bytes, next: bool, p: nat): seq<Try> {
    if next then TriesFrom(parser, c, p) else []
  }

  /** The records due when `at` has been matched, up to the first one only unless GETNEXT goes on. */
  function Pending(parser: TextParser, c: Bytes, oid: Oid, next: bool, at: nat, exact: bool, subtree: bool): seq<Try>
    requires at <= |c|
  {
    if exact then
      if next && !subtree then TriesFrom(parser, c, LineEnd(c, at))
      else [Try(at, subtree, true)] + Onwards(parser, c, next, LineEnd(c, at))
    else
      var b := BackReference(parser, c, at);
      if b >= 0 && IsPrefixOf(OidAt(parser, c, b), oid) then
        [Try(b, true, false)] + Onwards(parser, c, next, LineEnd(c, b))
      else if at < |c| then
        [Try(at, subtree, false)] + Onwards(parser, c, next, LineEnd(c, if b >= 0 then b else at))
      else []
  }

  /** The records due for an OID, in the order they are handed over. */
  ghost function Plan(parser: TextParser, c: Bytes, oid: Oid, next: bool): seq<Try> {
    var s := ScanFrom(parser, c, oid, 0);
    if s < |c| && OidAt(parser, c, s) == oid then
      Pending(parser, c, oid, next, s, true, parser.IsSubtree(Line(c, s)))
    else Pending(parser, c, oid, next, Found(parser, c, oid), false, false)
  }

  /** What becomes of one variable binding: the answer, or None when the request is abandoned;
      the calls made, and the number of broken records met. */
  datatype Reply = Reply(bind: Option<VarBind>, calls: seq<Call>, errors: nat)

  /** Evaluates the records due one by one: endOfMib passes on to the next, and so does a broken
      record of a GETNEXT as long as fewer than a hundred have been stepped over. */
  function Resolve(c: Bytes, q: Query, eval: Evaluator, due: seq<Try>,
                   broken: nat, calls: seq<Call>, errors: nat): Reply
  {
    if due == [] then Reply(Some(q.NoAnswer()), calls, errors)
    else
      var call := Call(Line(c, due[0].at), q, due[0].subtree, due[0].exact);
      match eval(calls, call)
      case Raised => Reply(None, calls + [call], errors)
      case Answer(bind) =>
        if bind.value.EndOfMib? then Resolve(c, q, eval, due[1..], broken, calls + [call], errors)
        else Reply(Some(bind), calls + [call], errors)
      case Broken =>
        if q.nextFlag && broken < MAX_BROKEN_RECORDS then
          Resolve(c, q, eval, due[1..], broken + 1, calls + [call], errors + 1)
        else Reply(Some(q.NoAnswer()), calls + [call], errors + 1)
  }

  /** Without GETNEXT an endOfMib has the same record evaluated again, as an exact match. */
  function Again(at: nat, n: nat): seq<Try> {
    if n == 0 then [] else [Try(at, false, true)] + Again(at, n - 1)
  }

  /** The record due for a GET or SET up to `patience` times more. */
  function Extend(plan: seq<Try>, next: bool, patience: nat): seq<Try> {
    if next || plan == [] then plan else plan + Again(plan[0].at, patience)
  }

  ghost function Due(parser: TextParser, c: Bytes, q: Query, patience: nat): seq<Try> {
    Extend(Plan(parser, c, q.oid, q.nextFlag), q.nextFlag, patience)
  }

  /** The evaluator answers one of the records due with something else than endOfMib. */
  ghost predicate Settles(c: Bytes, q: Query, eval: Evaluator, due: seq<Try>, calls: seq<Call>) {
    due != [] &&
    var call := Call(Line(c, due[0].at), q, due[0].subtree, due[0].exact);
    var outcome := eval(calls, call);
    outcome.Answer? && outcome.bind.value.EndOfMib? ==> Settles(c, q, eval, due[1..], calls + [call])
  }

  /** Whether the query is answered with so much patience: a GETNEXT always is, and so is an OID
      nothing is evaluated for. */
  ghost predicate IsSettled(parser: TextParser, c: Bytes, q: Query, eval: Evaluator, patience: nat, calls: seq<Call>) {
    var due := Due(parser, c, q, patience);
    q.nextFlag || due == [] || Settles(c, q, eval, due, calls)
  }

  /** What the `k`th evaluation of one record is answered, when all before it are answered endOfMib. */
  function OutcomeAt(c: Bytes, q: Query, eval: Evaluator, t: Try, calls: seq<Call>, k: nat): Outcome
    decreases k
  {
    var call := Call(Line(c, t.at), q, t.subtree, t.exact);
    if k == 0 then eval(calls, call) else OutcomeAt(c, q, eval, Try(t.at, false, true), calls + [call], k - 1)
  }

  predicate IsEndOfMib(outcome: Outcome) {
    outcome.Answer? && outcome.bind.value.EndOfMib?
  }

  lemma SettlesUnfolds(c: Bytes, q: Query, eval: Evaluator, t: Try, calls: seq<Call>, n: nat)
    ensures var call := Call(Line(c, t.at), q, t.subtree, t.exact);
            var again := Try(t.at, false, true);
            && OutcomeAt(c, q, eval, t, calls, 0) == eval(calls, call)
            && (forall k: nat :: k > 0 ==>
                  OutcomeAt(c, q, eval, t, calls, k) == OutcomeAt(c, q, eval, again, calls + [call], k - 1))
            && (!IsEndOfMib(eval(calls, call)) ==> Settles(c, q, eval, [t] + Again(t.at, n), calls))
            && (IsEndOfMib(eval(calls, call)) && n == 0 ==> !Settles(c, q, eval, [t] + Again(t.at, n), calls))
            && (IsEndOfMib(eval(calls, call)) && n > 0 ==>
                  (Settles(c, q, eval, [t] + Again(t.at, n), calls)
                   <==> Settles(c, q, eval, [again] + Again(t.at, n - 1), calls + [call])))
  {
    assert ([t] + Again(t.at, n))[1..] == Again(t.at, n);
  }

  ghost predicate EndsAt(c: Bytes, q: Query, eval: Evaluator, t: Try, calls: seq<Call>, k: nat) {
    !IsEndOfMib(OutcomeAt(c, q, eval, t, calls, k))
  }

  /** It is settled within so many repetitions if and only if one of them is answered otherwise. */
  lemma {:induction false} SettlesWithin(c: Bytes, q: Query, eval: Evaluator, t: Try, calls: seq<Call>, n: nat)
    ensures Settles(c, q, eval, [t] + Again(t.at, n), calls)
            <==> exists k: nat :: k <= n && EndsAt(c, q, eval, t, calls, k)
    decreases n
  {
    hide Settles, Again, OutcomeAt, Line;
    var call := Call(Line(c, t.at), q, t.subtree, t.exact);
    var again := Try(t.at, false, true);
    SettlesUnfolds(c, q, eval, t, calls, n);
    assert EndsAt(c, q, eval, t, calls, 0) <==> !IsEndOfMib(eval(calls, call));
    if IsEndOfMib(eval(calls, call)) && n > 0 {
      SettlesWithin(c, q, eval, again, calls + [call], n - 1);
      assert forall k: nat :: EndsAt(c, q, eval, again, calls + [call], k) ==> EndsAt(c, q, eval, t, calls, k + 1);
      forall k: nat | k <= n && EndsAt(c, q, eval, t, calls, k)
        ensures k > 0 && EndsAt(c, q, eval, again, calls + [call], k - 1)
      {}
    }
  }

  /** Without GETNEXT at most one record is planned. */
  lemma OnePlanned(parser: TextParser, c: Bytes, oid: Oid)
    ensures |Plan(parser, c, oid, false)| <= 1
  {
    hide ScanFrom, Found, BackReference;
  }

  /** Without GETNEXT, when a record is due, the request ends if and only if one of the answers in
      the sequence that evaluating it again and again leads to is not endOfMib. */
  lemma SettlesIff(parser: TextParser, c: Bytes, q: Query, eval: Evaluator, calls: seq<Call>)
    requires !q.nextFlag && Plan(parser, c, q.oid, false) != []
    ensures (exists n: nat :: IsSettled(parser, c, q, eval, n, calls)) <==>
            exists k: nat :: EndsAt(c, q, eval, Plan(parser, c, q.oid, false)[0], calls, k)
  {
    hide Plan, Settles, Again, EndsAt;
    var t := Plan(parser, c, q.oid, false)[0];
    OnePlanned(parser, c, q.oid);
    assert Plan(parser, c, q.oid, false) == [t];
    forall n: nat
      ensures IsSettled(parser, c, q, eval, n, calls) <==> exists k: nat :: k <= n && EndsAt(c, q, eval, t, calls, k)
    {
      SettlesWithin(c, q, eval, t, calls, n);
    }
    forall k: nat | EndsAt(c, q, eval, t, calls, k)
      ensures IsSettled(parser, c, q, eval, k, calls)
    {
      assert k <= k;
    }
  }

  /** An evaluator that has nothing to say, whatever it is asked. */
  const SILENT: Evaluator := (calls: seq<Call>, call: Call) => Answer(VarBind(call.query.oid, EndOfMib))

  lemma {:induction false} SilentGoesOn(c: Bytes, q: Query, due: seq<Try>, calls: seq<Call>)
    ensures !Settles(c, q, SILENT, due, calls)
    ensures |Resolve(c, q, SILENT, due, 0, calls, 0).calls| == |calls| + |due|
    decreases |due|
  {
    if due != [] {
      SilentGoesOn(c, q, due[1..], calls + [Call(Line(c, due[0].at), q, due[0].subtree, due[0].exact)]);
    }
  }

  lemma {:induction false} AgainCount(at: nat, n: nat)
    ensures |Again(at, n)| == n && forall t :: t in Again(at, n) ==> t == Try(at, false, true)
  {
    if n > 0 {
      AgainCount(at, n - 1);
    }
  }

  /** With it a GET for which a record is due never ends: however often that has been evaluated, it is
      evaluated once more. */
  lemma SilentGetNeverEnds(parser: TextParser, c: Bytes, q: Query, calls: seq<Call>, n: nat)
    requires !q.nextFlag && Plan(parser, c, q.oid, false) != []
    ensures !IsSettled(parser, c, q, SILENT, n, calls)
    ensures |Resolve(c, q, SILENT, Due(parser, c, q, n), 0, calls, 0).calls| == |calls| + 1 + n
  {
    hide Plan, Settles, Resolve, Again;
    OnePlanned(parser, c, q.oid);
    AgainCount(Plan(parser, c, q.oid, false)[0].at, n);
    SilentGoesOn(c, q, Due(parser, c, q, n), calls);
  }

  lemma DueAtOnce(parser: TextParser, c: Bytes, q: Query)
    ensures Due(parser, c, q, 0) == Plan(parser, c, q.oid, q.nextFlag)
  {
    hide Plan;
  }

  /** An evaluator that says endOfMib only on GETNEXT settles every query at once. */
  lemma HonestSettles(parser: TextParser, c: Bytes, q: Query, eval: Evaluator, patience: nat, calls: seq<Call>)
    requires Honest(eval)
    ensures IsSettled(parser, c, q, eval, patience, calls)
  {
    hide Due;
  }

  lemma RecordFacts(c: Bytes, s: nat)
    requires s == |c| || IsRecord(c, s)
    ensures RecordAt(c, s) == s && s <= LineEnd(c, s) <= |c| && IsBoundary(c, LineEnd(c, s))
    ensures Line(c, s) == [] <==> s == |c|
    ensures IsBoundary(c, s) && s <= |c|
  {}

  /** The matched record of an OID with an index entry. */
  lemma ExactMatch(parser: TextParser, c: Bytes, db: Index, oid: Oid, next: bool)
    requires Sorted(parser, c) && IsIndexOf(parser, c, db) && OidText(oid) in db
    ensures var e := db[OidText(oid)];
            && IsRecord(c, e.offset) && RecordAt(c, e.offset) == e.offset < |c| && IsBoundary(c, e.offset)
            && e.subtree == parser.IsSubtree(Line(c, e.offset))
            && Plan(parser, c, oid, next) == Pending(parser, c, oid, next, e.offset, true, e.subtree)
  {
    hide BackReference, ScanFrom, Pending, Less, RecordAt, LineEnd, IsNoise, OidText, Line;
    IndexKeyIsRecord(parser, c, db, oid);
    var s: nat :| IsRecord(c, s) && OidAt(parser, c, s) == oid;
    assert db[KeyAt(parser, c, s)].offset == s;
    PivotHits(parser, c, s);
    ScanFindsFirst(parser, c, oid, 0);
    FirstAtLeastUnique(parser, c, oid, s, ScanFrom(parser, c, oid, 0));
    RecordFacts(c, s);
  }

  lemma NoMatch(parser: TextParser, c: Bytes, db: Index, oid: Oid, next: bool)
    requires IsIndexOf(parser, c, db) && OidText(oid) !in db
    ensures Plan(parser, c, oid, next) == Pending(parser, c, oid, next, Found(parser, c, oid), false, false)
  {
    hide BackReference, ScanFrom, Pending;
    IndexKeyIsRecord(parser, c, db, oid);
    ScanFindsFirst(parser, c, oid, 0);
  }

  /** The entry the loop finds under the OID of the line read at `at`, or under "last" when none was. */
  lemma EntryAt(parser: TextParser, c: Bytes, db: Index, at: nat)
    requires IsIndexOf(parser, c, db) && (at == |c| || IsRecord(c, at))
    ensures var key := if Line(c, at) != [] then OidText(OidOf(parser, Line(c, at))) else LAST;
            key in db && db[key].prev == BackReference(parser, c, at)
            && (at < |c| ==> Line(c, at) != [] && db[key].subtree == parser.IsSubtree(Line(c, at)))
  {
    hide BackReference;
    assert at < |c| ==> KeyAt(parser, c, at) == OidText(OidOf(parser, Line(c, at)));
  }

  lemma TriesFromUnfolds(parser: TextParser, c: Bytes, p: nat)
    requires p <= |c| && IsBoundary(c, p)
    ensures var s := RecordAt(c, p);
            && s <= |c| && (Line(c, s) == [] <==> s == |c|) && LineEnd(c, s) <= |c| && IsBoundary(c, LineEnd(c, s))
            && (s < |c| ==> IsRecord(c, s) && p < LineEnd(c, s))
            && TriesFrom(parser, c, p) == if s == |c| then [] else
                 [Try(s, parser.IsSubtree(Line(c, s)), true)] + TriesFrom(parser, c, LineEnd(c, s))
  {
    RecordAtIsFirst(c, p);
  }

  lemma FirstRecordFacts(parser: TextParser, c: Bytes, p: nat)
    requires p <= |c| && IsBoundary(c, p)
    ensures var s := RecordAt(c, p); s == |c| || IsRecord(c, s)
    ensures OidOf(parser, Line(c, p)) == OidAt(parser, c, p)
  {
    RecordAtIsFirst(c, p);
  }

  lemma PrevRecordGap(c: Bytes, at: nat)
    requires (at == |c| || IsRecord(c, at)) && PrevRecord(c, at) >= 0
    ensures LineEnd(c, PrevRecord(c, at)) <= at
  {}

  lemma AfterPrev(parser: TextParser, c: Bytes, at: nat)
    requires (at == |c| || IsRecord(c, at)) && BackReference(parser, c, at) >= 0
    ensures var b := BackReference(parser, c, at); IsRecord(c, b) && parser.IsSubtree(Line(c, b)) && After(c, b) == at
  {
    hide RecordAt, LineEnd, IsNoise, PrevRecord;
    var b := PrevRecord(c, at);
    LineAfterRecord(c, b);
    RecordAtIsFirst(c, LineEnd(c, b));
    PrevRecordGap(c, at);
  }

  lemma PendingUnfolds(parser: TextParser, c: Bytes, oid: Oid, next: bool, at: nat, exact: bool, subtree: bool)
    requires at == |c| || IsRecord(c, at)
    ensures var b := BackReference(parser, c, at);
            && (b >= 0 ==> IsRecord(c, b) && b < |c|)
            && Pending(parser, c, oid, next, at, exact, subtree) ==
               if exact then
                 if next && !subtree then TriesFrom(parser, c, LineEnd(c, at))
                 else [Try(at, subtree, true)] + Onwards(parser, c, next, LineEnd(c, at))
               else if b >= 0 && IsPrefixOf(OidAt(parser, c, b), oid) then
                 [Try(b, true, false)] + Onwards(parser, c, next, LineEnd(c, b))
               else if at < |c| then
                 [Try(at, subtree, false)] + Onwards(parser, c, next, LineEnd(c, if b >= 0 then b else at))
               else []
  {}

  lemma OnwardsUnfolds(parser: TextParser, c: Bytes, p: nat)
    ensures Onwards(parser, c, true, p) == TriesFrom(parser, c, p) && Onwards(parser, c, false, p) == []
  {}

  lemma ResolveNothing(c: Bytes, q: Query, eval: Evaluator, broken: nat, calls: seq<Call>, errors: nat)
    ensures Resolve(c, q, eval, [], broken, calls, errors) == Reply(Some(q.NoAnswer()), calls, errors)
  {}

  lemma ResolveStep(c: Bytes, q: Query, eval: Evaluator, t: Try,
                    rest: seq<Try>, broken: nat, calls: seq<Call>, errors: nat)
    ensures var call := Call(Line(c, t.at), q, t.subtree, t.exact);
            Resolve(c, q, eval, [t] + rest, broken, calls, errors) ==
            match eval(calls, call)
            case Raised => Reply(None, calls + [call], errors)
            case Answer(bind) =>
              if bind.value.EndOfMib? then Resolve(c, q, eval, rest, broken, calls + [call], errors)
              else Reply(Some(bind), calls + [call], errors)
            case Broken =>
              if q.nextFlag && broken < MAX_BROKEN_RECORDS then
                Resolve(c, q, eval, rest, broken + 1, calls + [call], errors + 1)
              else Reply(Some(q.NoAnswer()), calls + [call], errors + 1)
  {
    assert ([t] + rest)[1..] == rest;
  }

  lemma SettlesStep(c: Bytes, q: Query, eval: Evaluator, t: Try, rest: seq<Try>, calls: seq<Call>)
    requires Settles(c, q, eval, [t] + rest, calls)
    ensures var call := Call(Line(c, t.at), q, t.subtree, t.exact);
            eval(calls, call).Answer? && eval(calls, call).bind.value.EndOfMib? ==>
              Settles(c, q, eval, rest, calls + [call])
  {
    assert ([t] + rest)[1..] == rest;
  }

  lemma AgainUnfolds(c: Bytes, q: Query, eval: Evaluator, at: nat, n: nat, calls: seq<Call>)
    requires Settles(c, q, eval, Again(at, n), calls)
    ensures n > 0 && Again(at, n) == [Try(at, false, true)] + Again(at, n - 1)
  {}

  lemma DueUnfolds(parser: TextParser, c: Bytes, q: Query, patience: nat)
    ensures Due(parser, c, q, patience) == Extend(Plan(parser, c, q.oid, q.nextFlag), q.nextFlag, patience)
  {}

  lemma ExtendUnfolds(t: Try, rest: seq<Try>, next: bool, patience: nat)
    requires next || rest == []
    ensures Extend([], next, patience) == []
    ensures Extend([t] + rest, next, patience) == [t] + if next then rest else Again(t.at, patience)
  {
    hide Again;
  }

  /** Reads on to the next record after an exact match, or after one that was passed over. */
  method ReadOn(text: TextFile, db: Index, parser: TextParser) returns (line: Bytes, subtree: bool, ghost at: nat)
    requires Readable(parser, text.content) && IsIndexOf(parser, text.content, db)
    requires text.pos <= |text.content| && IsBoundary(text.content, text.pos)
    modifies text
    ensures text.pos <= |text.content| && IsBoundary(text.content, text.pos) && at <= |text.content|
    ensures line == Line(text.content, at)
    ensures TriesFrom(parser, text.content, old(text.pos))
            == if line == [] then [] else [Try(at, subtree, true)] + TriesFrom(parser, text.content, text.pos)
    ensures line != [] ==> old(text.pos) < text.pos
  {
    hide *;
    ghost var c := text.content;
    TriesFromUnfolds(parser, c, text.pos);
    at := RecordAt(c, text.pos);
    EntryAt(parser, c, db, at);
    subtree := false;
    var nextLine, _, _ := GetRecord(text);
    if nextLine != [] {
      var nextOid := OidOf(parser, nextLine);
      if OidText(nextOid) !in db {
        assert false;  // "index broken": never reached
        line := [];
      } else {
        subtree := db[OidText(nextOid)].subtree;
        line := nextLine;
      }
    } else {
      line := nextLine;
    }
  }

  /** After a search that rounded up to the record at `at0`: falls back to the record before it
      when that one serves a subtree the OID is in. The file position stays behind the record read last. */
  method FallBack(text: TextFile, db: Index, parser: TextParser, oid: Oid,
                  ghost next: bool, line0: Bytes, ghost at0: nat)
    returns (line: Bytes, subtree: bool, ghost at: nat)
    requires Readable(parser, text.content) && IsIndexOf(parser, text.content, db)
    requires (at0 == |text.content| || IsRecord(text.content, at0)) && line0 == Line(text.content, at0)
    requires text.pos == LineEnd(text.content, at0)
    modifies text
    ensures text.pos <= |text.content| && IsBoundary(text.content, text.pos) && at <= |text.content|
    ensures line == Line(text.content, at)
    ensures Pending(parser, text.content, oid, next, at0, false, false)
            == if line == [] then [] else [Try(at, subtree, false)] + Onwards(parser, text.content, next, text.pos)
  {
    hide *;
    ghost var c := text.content;
    RecordFacts(c, at0);
    PendingUnfolds(parser, c, oid, next, at0, false, false);
    EntryAt(parser, c, db, at0);
    line, subtree, at := line0, false, at0;
    var key := if line0 != [] then OidText(OidOf(parser, line0)) else LAST;
    if key !in db {
      assert false;  // "index broken": never reached
      line := [];
    } else {
      var prev := db[key].prev;
      if prev >= 0 {
        text.Seek(prev);
        RecordFacts(c, prev);
        FirstRecordFacts(parser, c, prev);
        var prevLine, _, _ := GetRecord(text);
        var prevOid := OidOf(parser, prevLine);
        if IsPrefixOf(prevOid, oid) {
          line, subtree, at := prevLine, true, prev;
        }
      }
    }
  }

  lemma IsSettledUnfolds(parser: TextParser, c: Bytes, q: Query, eval: Evaluator, patience: nat, calls: seq<Call>)
    requires IsSettled(parser, c, q, eval, patience, calls)
    ensures var due := Due(parser, c, q, patience); q.nextFlag || due == [] || Settles(c, q, eval, due, calls)
  {
    hide Due, Settles;
  }

  /** Answers one variable binding: the loop over a file position of `process_var_binds`. It ends
      for every evaluator on GETNEXT; otherwise just when one of the answers is not endOfMib. */
  method AnswerVarBind(text: TextFile, db: Index, parser: TextParser, eval: Evaluator,
                       q: Query, calls0: seq<Call>, ghost patience: nat)
    returns (bind: Option<VarBind>, calls: seq<Call>, errors: nat)
    requires Readable(parser, text.content) && Sorted(parser, text.content) && IsIndexOf(parser, text.content, db)
    requires IsSettled(parser, text.content, q, eval, patience, calls0)
    modifies text
    ensures Reply(bind, calls, errors)
            == Resolve(text.content, q, eval, Due(parser, text.content, q, patience), 0, calls0, 0)
  {
    hide *;
    ghost var c := text.content;
    var offset: nat, subtree, exact;
    if OidText(q.oid) in db {
      offset, subtree, exact := db[OidText(q.oid)].offset, db[OidText(q.oid)].subtree, true;
      ExactMatch(parser, c, db, q.oid, q.nextFlag);
    } else {
      offset := SearchRecordByOid(q.oid, text, parser);
      subtree, exact := false, false;
      NoMatch(parser, c, db, q.oid, q.nextFlag);
    }
    text.Seek(offset);
    var line, _, _ := GetRecord(text);
    ghost var at: nat, first := RecordAt(c, offset), true;
    FirstRecordFacts(parser, c, offset);
    RecordFacts(c, at);
    var broken := 0;
    calls, errors := calls0, 0;
    ghost var plan := Plan(parser, c, q.oid, q.nextFlag);
    ghost var due, left := Due(parser, c, q, patience), patience;
    ghost var goal := Resolve(c, q, eval, due, 0, calls0, 0);
    DueUnfolds(parser, c, q, patience);
    IsSettledUnfolds(parser, c, q, eval, patience, calls0);
    while true
      invariant text.pos <= |c| && IsBoundary(c, text.pos)
      invariant first ==> line == Line(c, at) && (at == |c| || IsRecord(c, at)) && text.pos == LineEnd(c, at)
      invariant first ==> if exact then line != [] else !subtree
      invariant first ==> plan == Pending(parser, c, q.oid, q.nextFlag, at, exact, subtree)
      invariant first ==> due == Extend(plan, q.nextFlag, left)
      invariant !first ==> exact && !subtree
      invariant !first && q.nextFlag ==> due == TriesFrom(parser, c, text.pos)
      invariant !first && !q.nextFlag ==> line != [] && line == Line(c, at) && due == Again(at, left)
      invariant q.nextFlag || (first && due == []) || Settles(c, q, eval, due, calls)
      invariant goal == Resolve(c, q, eval, due, broken, calls, errors)
      decreases first, |c| - text.pos, left
    {
      if first {
        PendingUnfolds(parser, c, q.oid, q.nextFlag, at, exact, subtree);
      } else if !q.nextFlag {
        AgainUnfolds(c, q, eval, at, left, calls);
      }
      if exact {
        if q.nextFlag && !subtree {
          line, subtree, at := ReadOn(text, db, parser);
        }
      } else {
        line, subtree, at := FallBack(text, db, parser, q.oid, q.nextFlag, line, at);
      }
      if line == [] {
        ExtendUnfolds(Try(at, subtree, exact), [], q.nextFlag, left);
        ResolveNothing(c, q, eval, broken, calls, errors);
        return Some(q.NoAnswer()), calls, errors;
      }
      OnwardsUnfolds(parser, c, text.pos);
      ExtendUnfolds(Try(at, subtree, exact), Onwards(parser, c, q.nextFlag, text.pos), q.nextFlag, left);
      if !q.nextFlag && !first {
        left := left - 1;
      }
      ghost var rest := if q.nextFlag then TriesFrom(parser, c, text.pos) else Again(at, left);
      assert due == [Try(at, subtree, exact)] + rest;
      ResolveStep(c, q, eval, Try(at, subtree, exact), rest, broken, calls, errors);
      if !q.nextFlag {
        SettlesStep(c, q, eval, Try(at, subtree, exact), rest, calls);
      }
      var call := Call(line, q, subtree, exact);
      var outcome := eval(calls, call);
      calls, due, first := calls + [call], rest, false;
      match outcome
      case Raised =>
        return None, calls, errors;
      case Answer(b) =>
        if !b.value.EndOfMib? {
          return Some(b), calls, errors;
        }
        exact, subtree := true, false;
      case Broken =>
        errors := errors + 1;
        if q.nextFlag && broken < MAX_BROKEN_RECORDS {
          broken := broken + 1;
          exact, subtree := true, false;
        } else {
          return Some(q.NoAnswer()), calls, errors;
        }
    }
  }
}
