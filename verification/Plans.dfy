/** Which records a request evaluates, and in what order, whatever the evaluator answers. */
module Plans {
  import opened Wrappers
  import opened Oids
  import opened Texts
  import opened TextFiles
  import opened Recordings
  import opened FileSearch
  import opened Indexing
  import opened Requests
  import opened Serving

  /** The record with the greatest OID below `oid`. */
  ghost predicate IsJustBelow(parser: TextParser, c: Bytes, oid: Oid, b: nat) {
    && IsRecord(c, b) && Less(OidAt(parser, c, b), oid)
    && forall s: nat :: IsRecord(c, s) && Less(OidAt(parser, c, s), oid) ==> s <= b
  }

  /** The OID falls into the subtree that the record just below it serves. */
  ghost predicate FallsInto(parser: TextParser, c: Bytes, oid: Oid, b: nat) {
    IsJustBelow(parser, c, oid, b) && parser.IsSubtree(Line(c, b)) && IsPrefixOf(OidAt(parser, c, b), oid)
  }

  lemma BelowIsBefore(parser: TextParser, c: Bytes, oid: Oid, at: nat)
    requires Sorted(parser, c) && IsFirstAtLeast(parser, c, oid, at)
    ensures forall s: nat :: IsRecord(c, s) ==> (s < at <==> Less(OidAt(parser, c, s), oid))
  {
    hide Less;
    forall s: nat | IsRecord(c, s) && at <= s && Less(OidAt(parser, c, s), oid)
      ensures false
    {
      if at < s {
        LessTransitive(OidAt(parser, c, at), OidAt(parser, c, s), oid);
      }
    }
  }

  lemma BackReferenceIsJustBelow(parser: TextParser, c: Bytes, oid: Oid, at: nat)
    requires Sorted(parser, c) && IsFirstAtLeast(parser, c, oid, at)
    ensures var b := BackReference(parser, c, at);
            && (b >= 0 ==> IsJustBelow(parser, c, oid, b) && parser.IsSubtree(Line(c, b)))
            && (forall d: nat :: FallsInto(parser, c, oid, d) ==> b == d)
  {
    hide Less, RecordAt, LineEnd, IsNoise, PrevRecord, OidAt;
    var b := PrevRecord(c, at);
    BelowIsBefore(parser, c, oid, at);
    if b >= 0 {
      assert IsJustBelow(parser, c, oid, b);
    }
    forall d: nat | IsJustBelow(parser, c, oid, d)
      ensures d == b
    {
      assert d < at;
    }
  }

  /** For an OID that is no record's own: when it falls into the subtree of the record just below,
      that record is evaluated first, and on GETNEXT those behind it in the file follow; otherwise
      the first is the record just above, and nothing is due when there is none. */
  lemma SubtreeTakesPrecedence(parser: TextParser, c: Bytes, oid: Oid, next: bool)
    requires Sorted(parser, c) && !Overshoots(parser, c, oid)
    requires forall s: nat :: IsRecord(c, s) ==> OidAt(parser, c, s) != oid
    ensures forall b: nat :: FallsInto(parser, c, oid, b) ==>
              Plan(parser, c, oid, next) == [Try(b, true, false)] + Onwards(parser, c, next, LineEnd(c, b))
    ensures (forall b: nat :: !FallsInto(parser, c, oid, b)) ==>
              var plan := Plan(parser, c, oid, next);
              var above := Cut(parser, c, oid);
              if above < |c| then plan != [] && plan[0] == Try(above, false, false) else plan == []
  {
    hide ScanFrom, Less, RecordAt, LineEnd, OvershootsFrom, TriesFrom, IsNoise, PrevRecord, IsJustBelow,
      BackReference, Onwards;
    var at := ScanFrom(parser, c, oid, 0);
    ScanFindsFirst(parser, c, oid, 0);
    BackReferenceIsJustBelow(parser, c, oid, at);
    PendingUnfolds(parser, c, oid, next, at, false, false);
  }

  /** When the subtree answers a GETNEXT with endOfMib, the records right behind it in the file are next. */
  lemma SubtreeEndPassesOn(parser: TextParser, c: Bytes, q: Query, eval: Evaluator, calls: seq<Call>, b: nat)
    requires Sorted(parser, c) && !Overshoots(parser, c, q.oid) && q.nextFlag
    requires forall s: nat :: IsRecord(c, s) ==> OidAt(parser, c, s) != q.oid
    requires FallsInto(parser, c, q.oid, b)
    requires eval(calls, Call(Line(c, b), q, true, false)).Answer?
    requires eval(calls, Call(Line(c, b), q, true, false)).bind.value.EndOfMib?
    ensures Resolve(c, q, eval, Plan(parser, c, q.oid, true), 0, calls, 0)
            == Resolve(c, q, eval, TriesFrom(parser, c, LineEnd(c, b)), 0,
                       calls + [Call(Line(c, b), q, true, false)], 0)
  {
    hide ScanFrom, Less, RecordAt, LineEnd, OvershootsFrom, TriesFrom, Resolve, Plan, FallsInto, Sorted;
    SubtreeTakesPrecedence(parser, c, q.oid, true);
    ResolveStep(c, q, eval, Try(b, true, false), TriesFrom(parser, c, LineEnd(c, b)), 0, calls, 0);
  }

  /** From the second record on a GETNEXT follows the file, skipping none, to its end. The first
      is followed by the record behind it as well, or by itself again when a subtree record before
      it, not a prefix of the OID, made the file position step back. */
  ghost predicate InFileOrder(c: Bytes, plan: seq<Try>) {
    && (forall i, j :: 1 <= i < |plan| && 1 <= j < |plan| && j == i + 1 ==> plan[j].at == After(c, plan[i].at))
    && (plan != [] ==> After(c, plan[|plan| - 1].at) >= |c|)
  }

  lemma TriesFromSplits(parser: TextParser, c: Bytes, p: nat)
    requires p <= |c|
    ensures var s := RecordAt(c, p);
            && s <= |c| && LineEnd(c, s) <= |c| && (s < |c| ==> p < LineEnd(c, s))
            && TriesFrom(parser, c, p) == if s == |c| then [] else
                 [Try(s, parser.IsSubtree(Line(c, s)), true)] + TriesFrom(parser, c, LineEnd(c, s))
  {}

  /** Each record is the one right behind the record before it, and the last of them the last there is. */
  ghost predicate IsChainedFrom(c: Bytes, p: nat, tries: seq<Try>) {
    && (if tries == [] then RecordAt(c, p) == |c|
        else tries[0].at == RecordAt(c, p) && After(c, tries[|tries| - 1].at) == |c|)
    && (forall i, j :: 0 <= i < |tries| && 0 <= j < |tries| && j == i + 1 ==> tries[j].at == After(c, tries[i].at))
  }

  lemma ChainOneMore(c: Bytes, p: nat, t: Try, rest: seq<Try>)
    requires t.at == RecordAt(c, p) && IsChainedFrom(c, LineEnd(c, t.at), rest)
    ensures IsChainedFrom(c, p, [t] + rest)
  {
    hide RecordAt, LineEnd;
    var tries := [t] + rest;
    forall i, j | 0 <= i < |tries| && 0 <= j < |tries| && j == i + 1
      ensures tries[j].at == After(c, tries[i].at)
    {
      if i > 0 {
        assert tries[i] == rest[i - 1] && tries[j] == rest[j - 1];
      }
    }
  }

  lemma NothingChained(c: Bytes, p: nat)
    requires RecordAt(c, p) == |c|
    ensures IsChainedFrom(c, p, [])
  {}

  lemma {:induction false} TriesFollowTheFile(parser: TextParser, c: Bytes, p: nat)
    requires p <= |c|
    ensures IsChainedFrom(c, p, TriesFrom(parser, c, p))
    decreases |c| - p
  {
    hide RecordAt, LineEnd, Line, TriesFrom, IsChainedFrom;
    var s := RecordAt(c, p);
    TriesFromSplits(parser, c, p);
    if s < |c| {
      TriesFollowTheFile(parser, c, LineEnd(c, s));
      ChainOneMore(c, p, Try(s, parser.IsSubtree(Line(c, s)), true), TriesFrom(parser, c, LineEnd(c, s)));
    } else {
      NothingChained(c, p);
    }
  }

  /** A subtree record before `s` that the OID does not fall into. */
  ghost predicate StepsBackTo(parser: TextParser, c: Bytes, oid: Oid, s: nat) {
    exists b: nat :: IsRecord(c, b) && parser.IsSubtree(Line(c, b)) && After(c, b) == s
      && !IsPrefixOf(OidAt(parser, c, b), oid)
  }

  /** The second record due: the one behind the first, or the first again. */
  ghost predicate SecondFollows(parser: TextParser, c: Bytes, oid: Oid, plan: seq<Try>) {
    |plan| >= 2 ==>
      || plan[1].at == After(c, plan[0].at)
      || (plan[1].at == plan[0].at && StepsBackTo(parser, c, oid, plan[0].at))
  }

  lemma NothingInOrder(parser: TextParser, c: Bytes, oid: Oid)
    ensures InFileOrder(c, []) && SecondFollows(parser, c, oid, [])
  {}

  lemma TriesInOrder(parser: TextParser, c: Bytes, oid: Oid, p: nat)
    requires p <= |c|
    ensures InFileOrder(c, TriesFrom(parser, c, p)) && SecondFollows(parser, c, oid, TriesFrom(parser, c, p))
  {
    TriesFollowTheFile(parser, c, p);
  }

  lemma ChainInOrder(c: Bytes, p: nat, t: Try, tries: seq<Try>)
    requires IsChainedFrom(c, p, tries)
    ensures tries == [] ==> RecordAt(c, p) == |c|
    ensures tries != [] ==> ([t] + tries)[1].at == RecordAt(c, p)
    ensures tries != [] || After(c, t.at) == |c| ==> InFileOrder(c, [t] + tries)
  {
    hide RecordAt, LineEnd, After;
    var plan := [t] + tries;
    forall i, j | 1 <= i < |plan| && 1 <= j < |plan| && j == i + 1
      ensures plan[j].at == After(c, plan[i].at)
    {
      assert plan[i] == tries[i - 1] && plan[j] == tries[j - 1];
    }
  }

  /** A first record, then those behind `from`: the record itself, or one it directly follows. */
  lemma PrependInOrder(parser: TextParser, c: Bytes, oid: Oid, t: Try, from: nat)
    requires LineEnd(c, from) <= |c|
    requires t.at == from || (t.at == After(c, from) && IsRecord(c, from) && parser.IsSubtree(Line(c, from))
                              && !IsPrefixOf(OidAt(parser, c, from), oid))
    ensures t.at < |c| || t.at == from ==>
              var plan := [t] + Onwards(parser, c, true, LineEnd(c, from));
              InFileOrder(c, plan) && SecondFollows(parser, c, oid, plan)
  {
    hide RecordAt, LineEnd, TriesFrom, IsNoise, IsRecord, OidAt, IsChainedFrom, InFileOrder;
    var tries := TriesFrom(parser, c, LineEnd(c, from));
    TriesFollowTheFile(parser, c, LineEnd(c, from));
    ChainInOrder(c, LineEnd(c, from), t, tries);
    if t.at < |c| || t.at == from {
      assert tries == [] ==> After(c, t.at) == |c|;
    }
  }

  lemma PendingFollows(parser: TextParser, c: Bytes, oid: Oid, at: nat, exact: bool, subtree: bool)
    requires at == |c| || IsRecord(c, at)
    ensures var plan := Pending(parser, c, oid, true, at, exact, subtree);
            InFileOrder(c, plan) && SecondFollows(parser, c, oid, plan)
  {
    hide RecordAt, LineEnd, TriesFrom, IsNoise, BackReference, After, IsRecord, OidAt, InFileOrder, SecondFollows,
      Pending;
    RecordFacts(c, at);
    PendingUnfolds(parser, c, oid, true, at, exact, subtree);
    var b := BackReference(parser, c, at);
    if exact && !subtree {
      TriesInOrder(parser, c, oid, LineEnd(c, at));
    } else if !exact && b >= 0 {
      AfterPrev(parser, c, at);
      RecordFacts(c, b);
      PrependInOrder(parser, c, oid, Try(b, true, false), b);
      if !IsPrefixOf(OidAt(parser, c, b), oid) {
        PrependInOrder(parser, c, oid, Try(at, subtree, false), b);
      }
    } else {
      PrependInOrder(parser, c, oid, Try(at, subtree, exact), at);
    }
    NothingInOrder(parser, c, oid);
  }

  /** A GETNEXT hands the records over in file order. */
  lemma PlanFollowsTheFile(parser: TextParser, c: Bytes, oid: Oid)
    ensures InFileOrder(c, Plan(parser, c, oid, true)) && SecondFollows(parser, c, oid, Plan(parser, c, oid, true))
  {
    hide ScanFrom, Less, RecordAt, LineEnd, OvershootsFrom, TriesFrom, IsNoise, PrevRecord, BackReference, Pending;
    var s := ScanFrom(parser, c, oid, 0);
    ScanFindsFirst(parser, c, oid, 0);
    if s < |c| && OidAt(parser, c, s) == oid {
      PendingFollows(parser, c, oid, s, true, parser.IsSubtree(Line(c, s)));
    } else {
      PendingFollows(parser, c, oid, Found(parser, c, oid), false, false);
    }
  }

  function CallsFor(c: Bytes, q: Query, due: seq<Try>): seq<Call> {
    if due == [] then [] else [Call(Line(c, due[0].at), q, due[0].subtree, due[0].exact)] + CallsFor(c, q, due[1..])
  }

  /** Whatever the evaluator answers, the calls it gets are for the records due, from the first on. */
  lemma {:induction false} CallsFollowThePlan(c: Bytes, q: Query, eval: Evaluator, due: seq<Try>,
                                              broken: nat, calls: seq<Call>, errors: nat)
    ensures calls <= Resolve(c, q, eval, due, broken, calls, errors).calls <= calls + CallsFor(c, q, due)
  {
    if due != [] {
      var call := Call(Line(c, due[0].at), q, due[0].subtree, due[0].exact);
      var all := calls + CallsFor(c, q, due);
      assert all == (calls + [call]) + CallsFor(c, q, due[1..]);
      assert calls + [call] <= all;
      CallsFollowThePlan(c, q, eval, due[1..], broken, calls + [call], errors);
      CallsFollowThePlan(c, q, eval, due[1..], broken + 1, calls + [call], errors + 1);
    }
  }

  /** The evaluator fails on the first `k` of the records due. */
  predicate FailsOn(c: Bytes, q: Query, eval: Evaluator, due: seq<Try>, k: nat, calls: seq<Call>)
    decreases k
  {
    k == 0 ||
    (due != [] &&
     var call := Call(Line(c, due[0].at), q, due[0].subtree, due[0].exact);
     eval(calls, call).Broken? && FailsOn(c, q, eval, due[1..], k - 1, calls + [call]))
  }

  lemma {:induction false} FailsOnNoMore(c: Bytes, q: Query, eval: Evaluator, due: seq<Try>, k: nat, calls: seq<Call>)
    requires FailsOn(c, q, eval, due, k, calls)
    ensures k <= |due|
    decreases k
  {
    if k > 0 {
      FailsOnNoMore(c, q, eval, due[1..], k - 1,
                    calls + [Call(Line(c, due[0].at), q, due[0].subtree, due[0].exact)]);
    }
  }

  lemma {:induction false} PassesOverFailures(c: Bytes, q: Query, eval: Evaluator, due: seq<Try>,
                                              k: nat, broken: nat, calls: seq<Call>, errors: nat)
    requires q.nextFlag && broken <= 100 && FailsOn(c, q, eval, due, k, calls)
    ensures k <= |due|
    ensures var r := Resolve(c, q, eval, due, broken, calls, errors);
            if broken + k <= 100 then
              r == Resolve(c, q, eval, due[k..], broken + k, calls + CallsFor(c, q, due[..k]), errors + k)
            else r.bind == Some(VarBind(q.oid, EndOfMib)) && r.errors == errors + 101 - broken
    decreases k
  {
    hide Line;
    FailsOnNoMore(c, q, eval, due, k, calls);
    if k == 0 {
      assert due[0..] == due && calls + [] == calls && due[..0] == [];
    } else {
      var call := Call(Line(c, due[0].at), q, due[0].subtree, due[0].exact);
      var rest := due[1..];
      if broken < 100 {
        PassesOverFailures(c, q, eval, rest, k - 1, broken + 1, calls + [call], errors + 1);
        assert rest[k - 1..] == due[k..] && due[..k] == [due[0]] + rest[..k - 1];
        assert due[..k][1..] == rest[..k - 1];
        assert calls + [call] + CallsFor(c, q, rest[..k - 1]) == calls + CallsFor(c, q, due[..k]);
      }
    }
  }

  /** Whatever the evaluator: a GETNEXT answers with the record behind up to a hundred it has failed
      on, and with endOfMib under the requested OID when it has failed on more. */
  lemma AHundredFailures(c: Bytes, q: Query, eval: Evaluator, due: seq<Try>, k: nat, calls: seq<Call>)
    requires q.nextFlag && FailsOn(c, q, eval, due, k, calls)
    ensures k <= |due|
    ensures k > 100 ==> Resolve(c, q, eval, due, 0, calls, 0).bind == Some(VarBind(q.oid, EndOfMib))
    ensures k < |due| && k <= 100 ==>
              var t, made := due[k], calls + CallsFor(c, q, due[..k]);
              var outcome := eval(made, Call(Line(c, t.at), q, t.subtree, t.exact));
              outcome.Answer? && !outcome.bind.value.EndOfMib? ==>
                Resolve(c, q, eval, due, 0, calls, 0).bind == Some(outcome.bind)
  {
    hide Line, CallsFor;
    PassesOverFailures(c, q, eval, due, k, 0, calls, 0);
    if k < |due| && k <= 100 {
      ResolveStep(c, q, eval, due[k], due[k + 1..], k, calls + CallsFor(c, q, due[..k]), k);
      assert [due[k]] + due[k + 1..] == due[k..];
    }
  }

  /** These records are told as exact matches, with the subtree flag of their own line. */
  ghost predicate TellOwnFlags(parser: TextParser, c: Bytes, tries: seq<Try>) {
    forall t :: t in tries ==> t.exact && t.subtree == parser.IsSubtree(Line(c, t.at))
  }

  lemma {:induction false} TriesTellOwnFlags(parser: TextParser, c: Bytes, p: nat)
    requires p <= |c|
    ensures TellOwnFlags(parser, c, TriesFrom(parser, c, p))
    decreases |c| - p
  {
    hide RecordAt, LineEnd, Line, TriesFrom;
    TriesFromSplits(parser, c, p);
    if RecordAt(c, p) < |c| {
      TriesTellOwnFlags(parser, c, LineEnd(c, RecordAt(c, p)));
    }
  }

  /** The first record due is an exact match just for its own OID; else it is told to serve a subtree
      just when it is the one the OID falls into, and is otherwise the record above. */
  ghost predicate TellsFirst(parser: TextParser, c: Bytes, oid: Oid, t: Try) {
    if IsOidOfRecord(parser, c, oid) then t.exact && t.subtree == parser.IsSubtree(Line(c, t.at))
    else
      && !t.exact
      && if t.subtree then parser.IsSubtree(Line(c, t.at)) && IsPrefixOf(OidAt(parser, c, t.at), oid)
         else Less(oid, OidAt(parser, c, t.at))
  }

  lemma OwnIff(parser: TextParser, c: Bytes, oid: Oid, s: nat)
    requires Sorted(parser, c) && IsFirstAtLeast(parser, c, oid, s)
    ensures IsOidOfRecord(parser, c, oid) <==> s < |c| && OidAt(parser, c, s) == oid
    ensures s < |c| && OidAt(parser, c, s) != oid ==> Less(oid, OidAt(parser, c, s))
  {
    hide Less, OidAt;
    if IsOidOfRecord(parser, c, oid) {
      var t: nat :| IsRecord(c, t) && OidAt(parser, c, t) == oid;
      PivotHits(parser, c, t);
      FirstAtLeastUnique(parser, c, oid, s, t);
    }
    if s < |c| {
      LessTotal(oid, OidAt(parser, c, s));
    }
  }

  lemma OnwardsTell(parser: TextParser, c: Bytes, next: bool, p: nat)
    requires p <= |c|
    ensures TellOwnFlags(parser, c, Onwards(parser, c, next, p))
    ensures var rest := Onwards(parser, c, next, p); forall t: Try :: ([t] + rest)[1..] == rest
    ensures next && TriesFrom(parser, c, p) != [] ==>
              var tries := TriesFrom(parser, c, p);
              tries[0].exact && tries[0].subtree == parser.IsSubtree(Line(c, tries[0].at))
              && TellOwnFlags(parser, c, tries[1..])
  {
    TriesTellOwnFlags(parser, c, p);
    if TriesFrom(parser, c, p) != [] {
      assert TriesFrom(parser, c, p)[0] in TriesFrom(parser, c, p);
    }
  }

  /** What the evaluator is told of the records due. */
  lemma FlagsAre(parser: TextParser, c: Bytes, oid: Oid, next: bool)
    requires Sorted(parser, c)
    ensures var plan := Plan(parser, c, oid, next);
            plan != [] ==> TellsFirst(parser, c, oid, plan[0]) && TellOwnFlags(parser, c, plan[1..])
  {
    hide ScanFrom, Less, RecordAt, LineEnd, OvershootsFrom, TriesFrom, IsNoise, PrevRecord, Pending, IsRecord, Line,
      OidAt, Sorted, TellOwnFlags;
    var s := ScanFrom(parser, c, oid, 0);
    ScanFindsFirst(parser, c, oid, 0);
    var own := s < |c| && OidAt(parser, c, s) == oid;
    OwnIff(parser, c, oid, s);
    var at := if own then s else Found(parser, c, oid);
    RecordFacts(c, at);
    PendingUnfolds(parser, c, oid, next, at, own, own && parser.IsSubtree(Line(c, s)));
    var b := BackReference(parser, c, at);
    if b >= 0 {
      RecordFacts(c, b);
      OnwardsTell(parser, c, next, LineEnd(c, b));
    }
    OnwardsTell(parser, c, next, LineEnd(c, at));
  }

  /** How many of the calls made after `before` the evaluator has failed on. */
  function Failed(eval: Evaluator, before: seq<Call>, made: seq<Call>): nat
    decreases |made|
  {
    if made == [] then 0
    else (if eval(before, made[0]).Broken? then 1 else 0) + Failed(eval, before + [made[0]], made[1..])
  }

  /** The errors a reply counts are the failed calls, and each call carries the query it was made for. */
  lemma {:induction false} ErrorsAreFailures(c: Bytes, q: Query, eval: Evaluator, due: seq<Try>,
                                             broken: nat, calls: seq<Call>, errors: nat)
    ensures var r := Resolve(c, q, eval, due, broken, calls, errors);
            && calls <= r.calls && r.errors == errors + Failed(eval, calls, r.calls[|calls|..])
            && (forall i :: |calls| <= i < |r.calls| ==> r.calls[i].query == q)
    decreases |due|
  {
    hide Line;
    var r := Resolve(c, q, eval, due, broken, calls, errors);
    if due == [] {
      assert r.calls[|calls|..] == [];
    } else {
      var call := Call(Line(c, due[0].at), q, due[0].subtree, due[0].exact);
      var more := calls + [call];
      ErrorsAreFailures(c, q, eval, due[1..], broken, more, errors);
      ErrorsAreFailures(c, q, eval, due[1..], broken + 1, more, errors + 1);
      assert more <= r.calls && more[..|calls|] == calls;
      assert r.calls[|calls|..] == [call] + r.calls[|more|..];
      assert r.calls[|calls|..][1..] == r.calls[|more|..];
    }
  }

  /** `bind` is up to the last of the calls made: what it answers, the end of the request when it
      raises, or the error status under the requested OID when it answers endOfMib or fails, or when
      there was none; all calls before it have answered endOfMib or failed. */
  predicate IsVerdict(eval: Evaluator, q: Query, before: seq<Call>, made: seq<Call>, bind: Option<VarBind>)
    decreases |made|
  {
    var nothing := VarBind(q.oid, if q.nextFlag then EndOfMib else NoSuchInstance);
    if made == [] then bind == Some(nothing)
    else
      var outcome := eval(before, made[0]);
      if |made| == 1 then
        bind == if outcome.Raised? then None
                else if outcome.Answer? && !IsEndOfMib(outcome) then Some(outcome.bind) else Some(nothing)
      else
        (outcome.Broken? || IsEndOfMib(outcome)) && IsVerdict(eval, q, before + [made[0]], made[1..], bind)
  }

  /** The answer to a variable binding is the verdict of the calls made for it. */
  lemma {:induction false} LastCallDecides(c: Bytes, q: Query, eval: Evaluator, due: seq<Try>, broken: nat,
                                           calls: seq<Call>, errors: nat)
    ensures var r := Resolve(c, q, eval, due, broken, calls, errors);
            calls <= r.calls && IsVerdict(eval, q, calls, r.calls[|calls|..], r.bind)
    decreases |due|
  {
    hide Line;
    var r := Resolve(c, q, eval, due, broken, calls, errors);
    if due == [] {
      assert r.calls[|calls|..] == [];
    } else {
      var call := Call(Line(c, due[0].at), q, due[0].subtree, due[0].exact);
      var more := calls + [call];
      LastCallDecides(c, q, eval, due[1..], broken, more, errors);
      LastCallDecides(c, q, eval, due[1..], broken + 1, more, errors + 1);
      var made := r.calls[|calls|..];
      assert more <= r.calls && made == [call] + r.calls[|more|..] && made[1..] == r.calls[|more|..];
    }
  }

  /** One of the calls made after `before` raises. */
  predicate Raises(eval: Evaluator, before: seq<Call>, made: seq<Call>)
    decreases |made|
  {
    made != [] && (eval(before, made[0]).Raised? || Raises(eval, before + [made[0]], made[1..]))
  }

  lemma {:induction false} VerdictRaises(eval: Evaluator, q: Query, before: seq<Call>, made: seq<Call>,
                                         bind: Option<VarBind>)
    requires IsVerdict(eval, q, before, made, bind)
    ensures bind.None? <==> Raises(eval, before, made)
    decreases |made|
  {
    if |made| > 1 {
      VerdictRaises(eval, q, before + [made[0]], made[1..], bind);
    }
  }

  lemma {:induction false} RaisesJoins(eval: Evaluator, before: seq<Call>, a: seq<Call>, b: seq<Call>)
    ensures Raises(eval, before, a + b) <==> Raises(eval, before, a) || Raises(eval, before + a, b)
    decreases |a|
  {
    if a == [] {
      assert a + b == b && before + a == before;
    } else {
      RaisesJoins(eval, before + [a[0]], a[1..], b);
      assert (a + b)[1..] == a[1..] + b && before + [a[0]] + a[1..] == before + a;
    }
  }
}
