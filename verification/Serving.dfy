/** What a manager sees of a recording that is only read: answers of an ordered map. */
module Serving {
  import opened Wrappers
  import opened Oids
  import opened Texts
  import opened TextFiles
  import opened Recordings
  import opened FileSearch
  import opened SearchTails
  import opened Indexing
  import opened Requests

  /** The content of a record line, or None when its value cannot be evaluated. */
  type Contents = Bytes -> Option<Content>

  /** A record served as it stands: only a GETNEXT or an exactly matched GET may see its value. */
  function Gate(parser: TextParser, contents: Contents, call: Call): Outcome {
    if (!call.query.nextFlag && !call.exact) || call.query.setFlag then Answer(call.query.NoAnswer())
    else
      match contents(call.line)
      case None => Broken
      case Some(v) => Answer(VarBind(OidOf(parser, call.line), Data(v)))
  }

  function Static(parser: TextParser, contents: Contents): Evaluator {
    (calls, call) => Gate(parser, contents, call)
  }

  lemma StaticIsHonest(parser: TextParser, contents: Contents)
    ensures Honest(Static(parser, contents))
  {}

  ghost function StaticReply(parser: TextParser, contents: Contents, c: Bytes, q: Query): Reply {
    Resolve(c, q, Static(parser, contents), Plan(parser, c, q.oid, q.nextFlag), 0, [], 0)
  }

  /** The answer to one variable binding; a recording that is only read never abandons a request. */
  ghost function AnswerTo(parser: TextParser, contents: Contents, c: Bytes, q: Query): VarBind {
    var r := StaticReply(parser, contents, c, q).bind;
    if r.Some? then r.value else q.NoAnswer()
  }

  /** Two queries a recording that is only read cannot tell apart. */
  predicate AskAlike(q: Query, q': Query) {
    q.oid == q'.oid && q.nextFlag == q'.nextFlag && q.setFlag == q'.setFlag
  }

  /** A static answer depends on nothing else in the request, and neither on earlier calls nor on earlier errors. */
  lemma {:induction false} AnsweredAlike(parser: TextParser, contents: Contents, c: Bytes, q: Query,
                                         q': Query, due: seq<Try>, broken: nat, calls: seq<Call>,
                                         calls': seq<Call>, errors: nat, errors': nat)
    requires AskAlike(q, q')
    ensures Resolve(c, q, Static(parser, contents), due, broken, calls, errors).bind.Some?
    ensures Resolve(c, q, Static(parser, contents), due, broken, calls, errors).bind
            == Resolve(c, q', Static(parser, contents), due, broken, calls', errors').bind
    decreases |due|
  {
    if due != [] {
      var t, rest := due[0], due[1..];
      var calls1 := calls + [Call(Line(c, t.at), q, t.subtree, t.exact)];
      var calls2 := calls' + [Call(Line(c, t.at), q', t.subtree, t.exact)];
      AnsweredAlike(parser, contents, c, q, q', rest, broken, calls1, calls2, errors, errors');
      AnsweredAlike(parser, contents, c, q, q', rest, broken + 1, calls1, calls2, errors + 1, errors' + 1);
    }
  }

  lemma StaticForgets(parser: TextParser, contents: Contents, c: Bytes, q: Query,
                      due: seq<Try>, broken: nat, calls: seq<Call>, errors: nat)
    ensures Resolve(c, q, Static(parser, contents), due, broken, calls, errors).bind.Some?
    ensures Resolve(c, q, Static(parser, contents), due, broken, calls, errors).bind
            == Resolve(c, q, Static(parser, contents), due, broken, [], 0).bind
  {
    AnsweredAlike(parser, contents, c, q, q, due, broken, calls, [], errors, 0);
  }

  /** A record whose value can be evaluated. */
  predicate Serves(contents: Contents, c: Bytes, s: nat) {
    IsRecord(c, s) && contents(Line(c, s)).Some?
  }

  /** The recording as a map from OIDs to contents. */
  ghost predicate IsStoreOf(m: map<Oid, Content>, parser: TextParser, contents: Contents, c: Bytes) {
    && (forall s: nat :: Serves(contents, c, s) ==>
          OidAt(parser, c, s) in m && m[OidAt(parser, c, s)] == contents(Line(c, s)).value)
    && (forall oid :: oid in m ==> exists s: nat :: Serves(contents, c, s) && OidAt(parser, c, s) == oid)
  }

  /** The first record from `p` on that can be served; the end of the file if none. */
  function NextServed(contents: Contents, c: Bytes, p: nat): (s: nat)
    requires p <= |c|
    ensures p <= s <= |c|
    decreases |c| - p
  {
    var s := RecordAt(c, p);
    if s >= |c| || contents(Line(c, s)).Some? then s else NextServed(contents, c, LineEnd(c, s))
  }

  /** Every sorted recording is such a map. */
  ghost function StoreFrom(parser: TextParser, contents: Contents, c: Bytes, p: nat): map<Oid, Content>
    requires p <= |c|
    decreases |c| - p
  {
    var s := NextServed(contents, c, p);
    if s < |c| && contents(Line(c, s)).Some? then
      StoreFrom(parser, contents, c, LineEnd(c, s))[OidAt(parser, c, s) := contents(Line(c, s)).value]
    else map[]
  }

  lemma {:induction false} NextServedIsFirst(contents: Contents, c: Bytes, p: nat)
    requires p <= |c| && IsBoundary(c, p)
    ensures var s := NextServed(contents, c, p); s == |c| || (Serves(contents, c, s) && IsRecord(c, s))
    ensures forall t: nat :: Serves(contents, c, t) && p <= t ==> NextServed(contents, c, p) <= t
    decreases |c| - p
  {
    hide RecordAt, LineEnd, IsNoise;
    var s := RecordAt(c, p);
    RecordAtIsFirst(c, p);
    if s < |c| && contents(Line(c, s)).None? {
      NextServedIsFirst(contents, c, LineEnd(c, s));
    }
  }

  lemma StoreFromUnfolds(parser: TextParser, contents: Contents, c: Bytes, p: nat)
    requires p <= |c| && IsBoundary(c, p)
    ensures var s := NextServed(contents, c, p);
            && (s == |c| ==> StoreFrom(parser, contents, c, p) == map[])
            && (s < |c| ==>
                  && Serves(contents, c, s) && p <= s < LineEnd(c, s) <= |c| && IsBoundary(c, LineEnd(c, s))
                  && StoreFrom(parser, contents, c, p)
                     == StoreFrom(parser, contents, c, LineEnd(c, s))
                          [OidAt(parser, c, s) := contents(Line(c, s)).value])
  {
    hide RecordAt, NextServed, IsNoise;
    NextServedIsFirst(contents, c, p);
  }

  lemma SortedPair(parser: TextParser, c: Bytes, s: nat, t: nat)
    requires Sorted(parser, c) && IsRecord(c, s) && IsRecord(c, t) && s < t
    ensures LineEnd(c, s) <= t && Less(OidAt(parser, c, s), OidAt(parser, c, t))
  {}

  lemma {:induction false} StoreFromHolds(parser: TextParser, contents: Contents, c: Bytes, p: nat, t: nat)
    requires Sorted(parser, c) && p <= |c| && IsBoundary(c, p) && Serves(contents, c, t) && p <= t
    ensures var m := StoreFrom(parser, contents, c, p);
            OidAt(parser, c, t) in m && m[OidAt(parser, c, t)] == contents(Line(c, t)).value
    decreases |c| - p
  {
    hide Less, RecordAt, LineEnd, NextServed, StoreFrom, IsNoise, Line, OidAt, Sorted;
    var s := NextServed(contents, c, p);
    NextServedIsFirst(contents, c, p);
    StoreFromUnfolds(parser, contents, c, p);
    if s < t {
      SortedPair(parser, c, s, t);
      LessIrreflexive(OidAt(parser, c, s));
      StoreFromHolds(parser, contents, c, LineEnd(c, s), t);
    }
  }

  lemma {:induction false} StoreFromOnly(parser: TextParser, contents: Contents, c: Bytes, p: nat, oid: Oid)
    returns (t: nat)
    requires p <= |c| && IsBoundary(c, p) && oid in StoreFrom(parser, contents, c, p)
    ensures Serves(contents, c, t) && OidAt(parser, c, t) == oid
    decreases |c| - p
  {
    hide RecordAt, LineEnd, NextServed, StoreFrom, IsNoise, Line, OidAt;
    t := NextServed(contents, c, p);
    StoreFromUnfolds(parser, contents, c, p);
    if OidAt(parser, c, t) != oid {
      t := StoreFromOnly(parser, contents, c, LineEnd(c, t), oid);
    }
  }

  lemma StoreExists(parser: TextParser, contents: Contents, c: Bytes)
    requires Sorted(parser, c)
    ensures IsStoreOf(StoreFrom(parser, contents, c, 0), parser, contents, c)
  {
    hide StoreFrom, OidAt, Line, Sorted, IsRecord;
    var m := StoreFrom(parser, contents, c, 0);
    forall s: nat | Serves(contents, c, s)
      ensures OidAt(parser, c, s) in m && m[OidAt(parser, c, s)] == contents(Line(c, s)).value
    {
      StoreFromHolds(parser, contents, c, 0, s);
    }
    forall oid | oid in m
      ensures exists s: nat :: Serves(contents, c, s) && OidAt(parser, c, s) == oid
    {
      var t := StoreFromOnly(parser, contents, c, 0, oid);
    }
  }

  /** With a single record due and no GETNEXT, the gate decides; a broken record counts as absent. */
  lemma GateDecides(parser: TextParser, contents: Contents, c: Bytes, q: Query, t: Try)
    requires !q.nextFlag
    ensures Resolve(c, q, Static(parser, contents), [t], 0, [], 0).bind
            == if t.exact && !q.setFlag && contents(Line(c, t.at)).Some?
               then Some(VarBind(OidAt(parser, c, t.at), Data(contents(Line(c, t.at)).value))) else Some(q.NoAnswer())
  {
    ResolveStep(c, q, Static(parser, contents), t, [], 0, [], 0);
    assert [t] + [] == [t];
  }

  /** Without GETNEXT at most one record is due: the exact one, the subtree the OID falls under, or the one found. */
  lemma OneRecordDue(parser: TextParser, c: Bytes, oid: Oid)
    ensures var s := ScanFrom(parser, c, oid, 0);
            var at := Found(parser, c, oid);
            var b := BackReference(parser, c, at);
            Plan(parser, c, oid, false) ==
            if s < |c| && OidAt(parser, c, s) == oid then [Try(s, parser.IsSubtree(Line(c, s)), true)]
            else if b >= 0 && IsPrefixOf(OidAt(parser, c, b), oid) then [Try(b, true, false)]
            else if at < |c| then [Try(at, false, false)] else []
  {
    hide ScanFrom, OvershootsFrom, RecordAt, LineEnd, BackReference, OidAt;
  }

  lemma OnlyRecordOf(parser: TextParser, contents: Contents, c: Bytes, oid: Oid, m: map<Oid, Content>, s: nat)
    requires Sorted(parser, c) && IsStoreOf(m, parser, contents, c)
    requires IsRecord(c, s) && OidAt(parser, c, s) == oid
    ensures oid in m <==> Serves(contents, c, s)
    ensures oid in m ==> m[oid] == contents(Line(c, s)).value
  {
    hide Less;
    LessIrreflexive(oid);
    if oid in m {
      var t: nat :| Serves(contents, c, t) && OidAt(parser, c, t) == oid;
      assert s == t;
    }
  }

  lemma MissedOid(parser: TextParser, contents: Contents, c: Bytes, oid: Oid, m: map<Oid, Content>, s: nat)
    requires Sorted(parser, c) && IsStoreOf(m, parser, contents, c)
    requires IsFirstAtLeast(parser, c, oid, s) && (s == |c| || OidAt(parser, c, s) != oid)
    ensures oid !in m
    ensures forall t: nat :: IsRecord(c, t) ==> OidAt(parser, c, t) != oid
  {
    hide Less;
    forall t: nat | IsRecord(c, t)
      ensures OidAt(parser, c, t) != oid
    {
      if OidAt(parser, c, t) == oid {
        PivotHits(parser, c, t);
        FirstAtLeastUnique(parser, c, oid, s, t);
      }
    }
  }

  /** GET and SET, for reading section 4.2.1 of RFC 3416: the stored value or noSuchInstance
      under the requested OID; a SET never reaches the recording. */
  lemma GetReadsTheMap(parser: TextParser, contents: Contents, c: Bytes, q: Query, m: map<Oid, Content>)
    requires Sorted(parser, c) && IsStoreOf(m, parser, contents, c) && !q.nextFlag
    ensures AnswerTo(parser, contents, c, q)
            == VarBind(q.oid, if q.oid in m && !q.setFlag then Data(m[q.oid]) else NoSuchInstance)
  {
    hide ScanFrom, OvershootsFrom, RecordAt, LineEnd, BackReference, Less, Resolve, LineStart, IsNoise, Plan, Found,
      IsStoreOf;
    OneRecordDue(parser, c, q.oid);
    var s := ScanFrom(parser, c, q.oid, 0);
    ScanFindsFirst(parser, c, q.oid, 0);
    if s < |c| && OidAt(parser, c, s) == q.oid {
      GateDecides(parser, contents, c, q, Try(s, parser.IsSubtree(Line(c, s)), true));
      OnlyRecordOf(parser, contents, c, q.oid, m, s);
    } else {
      MissedOid(parser, contents, c, q.oid, m, s);
      var at := Found(parser, c, q.oid);
      var b := BackReference(parser, c, at);
      GateDecides(parser, contents, c, q, Try(at, false, false));
      if b >= 0 {
        GateDecides(parser, contents, c, q, Try(b, true, false));
      }
      ResolveNothing(c, q, Static(parser, contents), 0, [], 0);
    }
  }

  ghost predicate NoSubtrees(parser: TextParser, c: Bytes) {
    forall s: nat :: IsRecord(c, s) ==> !parser.IsSubtree(Line(c, s))
  }

  /** The number of broken records before it. */
  function Skipped(contents: Contents, c: Bytes, p: nat): nat
    requires p <= |c|
    decreases |c| - p
  {
    var s := RecordAt(c, p);
    if s >= |c| || contents(Line(c, s)).Some? then 0 else 1 + Skipped(contents, c, LineEnd(c, s))
  }

  function BindAt(parser: TextParser, contents: Contents, c: Bytes, s: nat): VarBind
    requires contents(Line(c, s)).Some?
  {
    VarBind(OidAt(parser, c, s), Data(contents(Line(c, s)).value))
  }

  /** GETNEXT over consecutive records: up to a hundred broken ones in all are stepped over. */
  lemma {:induction false} StepsOverBroken(parser: TextParser, contents: Contents,
                                           c: Bytes, q: Query, p: nat, broken: nat)
    requires p <= |c| && IsBoundary(c, p) && q.nextFlag && !q.setFlag && broken <= MAX_BROKEN_RECORDS
    ensures Resolve(c, q, Static(parser, contents), TriesFrom(parser, c, p), broken, [], 0).bind ==
            var s := NextServed(contents, c, p);
            if s < |c| && contents(Line(c, s)).Some? && broken + Skipped(contents, c, p) <= MAX_BROKEN_RECORDS
            then Some(BindAt(parser, contents, c, s)) else Some(q.NoAnswer())
    decreases |c| - p
  {
    hide RecordAt, LineEnd, Resolve, TriesFrom, IsNoise, IsBoundary;
    var s := RecordAt(c, p);
    TriesFromUnfolds(parser, c, p);
    RecordAtIsFirst(c, p);
    if s < |c| {
      var rest := TriesFrom(parser, c, LineEnd(c, s));
      var t := Try(s, parser.IsSubtree(Line(c, s)), true);
      var call := Call(Line(c, s), q, t.subtree, true);
      ResolveStep(c, q, Static(parser, contents), t, rest, broken, [], 0);
      if contents(Line(c, s)).None? && broken < MAX_BROKEN_RECORDS {
        StaticForgets(parser, contents, c, q, rest, broken + 1, [] + [call], 1);
        StepsOverBroken(parser, contents, c, q, LineEnd(c, s), broken + 1);
      }
    } else {
      ResolveNothing(c, q, Static(parser, contents), broken, [], 0);
    }
  }

  /** The offset behind every record up to an OID. */
  ghost function Cut(parser: TextParser, c: Bytes, oid: Oid): (p: nat)
    ensures p <= |c|
  {
    var s := ScanFrom(parser, c, oid, 0);
    if s < |c| && OidAt(parser, c, s) == oid then LineEnd(c, s) else s
  }

  lemma CutSplits(parser: TextParser, c: Bytes, oid: Oid)
    requires Sorted(parser, c)
    ensures IsBoundary(c, Cut(parser, c, oid))
    ensures forall s: nat :: IsRecord(c, s) ==> (Cut(parser, c, oid) <= s <==> Less(oid, OidAt(parser, c, s)))
  {
    hide ScanFrom, Less, RecordAt, LineEnd;
    var r := ScanFrom(parser, c, oid, 0);
    ScanFindsFirst(parser, c, oid, 0);
    forall s: nat | IsRecord(c, s)
      ensures Cut(parser, c, oid) <= s <==> Less(oid, OidAt(parser, c, s))
    {
      if s < r {
        LessAsymmetric(OidAt(parser, c, s), oid);
      } else {
        LessTotal(oid, OidAt(parser, c, r));
        LessIrreflexive(oid);
        if r < s && Less(oid, OidAt(parser, c, r)) {
          LessTransitive(oid, OidAt(parser, c, r), OidAt(parser, c, s));
        }
      }
    }
  }

  ghost predicate IsOidOfRecord(parser: TextParser, c: Bytes, oid: Oid) {
    exists s: nat :: IsRecord(c, s) && OidAt(parser, c, s) == oid
  }

  /** After an exact match no search is made; otherwise it must not overshoot. */
  ghost predicate IsLocated(parser: TextParser, c: Bytes, oid: Oid) {
    IsOidOfRecord(parser, c, oid) || !Overshoots(parser, c, oid)
  }

  /** The subtree record that is evaluated before the records above an OID: its own, or the one
      just below when the OID falls into its subtree; -1 if neither. */
  ghost function Diversion(parser: TextParser, c: Bytes, oid: Oid): (d: int)
    ensures d >= 0 ==> IsRecord(c, d) && IsPrefixOf(OidAt(parser, c, d), oid)
  {
    var s := ScanFrom(parser, c, oid, 0);
    if s < |c| && OidAt(parser, c, s) == oid then
      ScanFindsFirst(parser, c, oid, 0);
      if parser.IsSubtree(Line(c, s)) then s else -1
    else
      var b := BackReference(parser, c, Found(parser, c, oid));
      if b >= 0 && IsPrefixOf(OidAt(parser, c, b), oid) then b else -1
  }

  lemma DiversionIsSubtree(parser: TextParser, c: Bytes, oid: Oid)
    ensures var d := Diversion(parser, c, oid); d >= 0 ==> parser.IsSubtree(Line(c, d))
  {
    hide ScanFrom, Found, PrevRecord;
  }

  /** That record answers in place of the records above. */
  ghost predicate IsDiverted(parser: TextParser, contents: Contents, c: Bytes, oid: Oid) {
    var d := Diversion(parser, c, oid);
    d >= 0 && contents(Line(c, d)).Some?
  }

  /** Broken records counted before those behind the cut: the subtree record the OID belongs to, or
      the first record above when it is read twice because another subtree record precedes it. */
  ghost function Extra(parser: TextParser, contents: Contents, c: Bytes, oid: Oid): nat {
    var at := Found(parser, c, oid);
    if Diversion(parser, c, oid) >= 0 then 1
    else if IsOidOfRecord(parser, c, oid) then 0
    else if BackReference(parser, c, at) >= 0 && at < |c| && contents(Line(c, at)).None? then 1 else 0
  }

  /** The first record due, when there is one, and then those of the file from some offset on. */
  lemma StaticTry(parser: TextParser, contents: Contents, c: Bytes, q: Query, t: Try, p: nat, broken: nat)
    requires q.nextFlag && !q.setFlag && broken < MAX_BROKEN_RECORDS
    ensures Resolve(c, q, Static(parser, contents), [t] + TriesFrom(parser, c, p), broken, [], 0).bind ==
            if contents(Line(c, t.at)).Some? then Some(BindAt(parser, contents, c, t.at))
            else Resolve(c, q, Static(parser, contents), TriesFrom(parser, c, p), broken + 1, [], 0).bind
  {
    hide Resolve, TriesFrom;
    var call := Call(Line(c, t.at), q, t.subtree, t.exact);
    ResolveStep(c, q, Static(parser, contents), t, TriesFrom(parser, c, p), broken, [], 0);
    StaticForgets(parser, contents, c, q, TriesFrom(parser, c, p), broken + 1, [] + [call], 1);
  }

  lemma TriesFromRecord(parser: TextParser, c: Bytes, p: nat)
    requires p <= |c|
    ensures TriesFrom(parser, c, p) == TriesFrom(parser, c, RecordAt(c, p))
    ensures RecordAt(c, RecordAt(c, p)) == RecordAt(c, p) <= |c|
  {}

  /** The records due for a GETNEXT: a subtree record the OID belongs to, and those above it, the
      first of which comes twice behind another subtree record. */
  lemma NextPlan(parser: TextParser, c: Bytes, oid: Oid)
    requires Sorted(parser, c)
    ensures var plan := Plan(parser, c, oid, true);
            var (d, at) := (Diversion(parser, c, oid), Found(parser, c, oid));
            var exact := IsOidOfRecord(parser, c, oid);
            var p := if IsLocated(parser, c, oid) then Cut(parser, c, oid) else |c|;
            if d >= 0 then plan == [Try(d, true, exact)] + TriesFrom(parser, c, p)
            else if exact then plan == TriesFrom(parser, c, p)
            else if at == |c| then plan == [] && (IsLocated(parser, c, oid) ==> p == |c|)
            else
              && IsLocated(parser, c, oid) && p == at && IsRecord(c, at)
              && plan == [Try(at, false, false)]
                         + TriesFrom(parser, c, if BackReference(parser, c, at) >= 0 then at else LineEnd(c, at))
  {
    hide ScanFrom, Less, RecordAt, LineEnd, TriesFrom, IsNoise, BackReference, OvershootsFrom, Pending;
    var s := ScanFrom(parser, c, oid, 0);
    ScanFindsFirst(parser, c, oid, 0);
    if s < |c| && OidAt(parser, c, s) == oid {
      PendingUnfolds(parser, c, oid, true, s, true, parser.IsSubtree(Line(c, s)));
      OnwardsUnfolds(parser, c, LineEnd(c, s));
    } else {
      forall t: nat | IsRecord(c, t)
        ensures OidAt(parser, c, t) != oid
      {
        if OidAt(parser, c, t) == oid {
          PivotHits(parser, c, t);
          FirstAtLeastUnique(parser, c, oid, s, t);
        }
      }
      var at := Found(parser, c, oid);
      var b := BackReference(parser, c, at);
      PendingUnfolds(parser, c, oid, true, at, false, false);
      if b >= 0 {
        AfterPrev(parser, c, at);
        RecordFacts(c, b);
        TriesFromRecord(parser, c, LineEnd(c, b));
        OnwardsUnfolds(parser, c, LineEnd(c, b));
      }
      if at < |c| {
        OnwardsUnfolds(parser, c, LineEnd(c, at));
      }
    }
  }

  lemma NoBackReference(parser: TextParser, c: Bytes, p: nat)
    requires NoSubtrees(parser, c)
    ensures BackReference(parser, c, p) == -1
  {}

  lemma LeastAboveIs(m: map<Oid, Content>, oid: Oid, k: Oid)
    requires k in m && Less(oid, k) && forall j :: j in m && Less(oid, j) ==> AtMost(k, j)
    ensures IsLeastAbove(m, oid, k)
  {}

  lemma StoreHolds(parser: TextParser, contents: Contents, c: Bytes, m: map<Oid, Content>, s: nat)
    requires IsStoreOf(m, parser, contents, c) && Serves(contents, c, s)
    ensures IsRecord(c, s) && OidAt(parser, c, s) in m && m[OidAt(parser, c, s)] == contents(Line(c, s)).value
  {}

  lemma StoredAt(parser: TextParser, contents: Contents, c: Bytes, m: map<Oid, Content>, k: Oid) returns (t: nat)
    requires IsStoreOf(m, parser, contents, c) && k in m
    ensures IsRecord(c, t) && t < |c| && Serves(contents, c, t) && OidAt(parser, c, t) == k
  {
    t :| Serves(contents, c, t) && OidAt(parser, c, t) == k;
  }

  lemma AtMostAt(parser: TextParser, c: Bytes, s: nat, t: nat)
    requires Sorted(parser, c) && IsRecord(c, t) && s <= t && (s == |c| || IsRecord(c, s))
    ensures s < |c| && AtMost(OidAt(parser, c, s), OidAt(parser, c, t))
  {}

  /** The first servable record behind the cut holds the least stored OID above. */
  lemma NextServedIsLeast(parser: TextParser, contents: Contents, c: Bytes, oid: Oid, m: map<Oid, Content>)
    requires Sorted(parser, c) && IsStoreOf(m, parser, contents, c)
    ensures var s := NextServed(contents, c, Cut(parser, c, oid));
            if s < |c| then Serves(contents, c, s) && IsLeastAbove(m, oid, OidAt(parser, c, s))
                            && m[OidAt(parser, c, s)] == contents(Line(c, s)).value
            else forall k :: k in m ==> !Less(oid, k)
  {
    hide *;
    var p := Cut(parser, c, oid);
    var s := NextServed(contents, c, p);
    CutSplits(parser, c, oid);
    NextServedIsFirst(contents, c, p);
    if s < |c| {
      StoreHolds(parser, contents, c, m, s);
    }
    forall k | k in m && Less(oid, k)
      ensures s < |c| && AtMost(OidAt(parser, c, s), k)
    {
      var t := StoredAt(parser, contents, c, m, k);
      AtMostAt(parser, c, s, t);
    }
    if s < |c| {
      LeastAboveIs(m, oid, OidAt(parser, c, s));
    }
  }

  /** Whether GETNEXT gets from an OID to the next servable record. */
  ghost predicate Reaches(parser: TextParser, contents: Contents, c: Bytes, oid: Oid) {
    && !IsDiverted(parser, contents, c, oid) && IsLocated(parser, c, oid)
    && Extra(parser, contents, c, oid) + Skipped(contents, c, Cut(parser, c, oid)) <= MAX_BROKEN_RECORDS
  }

  /** What is answered from the records above an OID, when `extra` broken ones have been counted before. */
  ghost predicate AnswersAbove(parser: TextParser, contents: Contents, c: Bytes,
                               q: Query, p: nat, extra: nat, bind: Option<VarBind>)
    requires p <= |c|
  {
    var s := NextServed(contents, c, p);
    bind == if s < |c| && contents(Line(c, s)).Some? && extra + Skipped(contents, c, p) <= MAX_BROKEN_RECORDS
            then Some(BindAt(parser, contents, c, s)) else Some(q.NoAnswer())
  }

  /** A first record that is read again if it is broken. */
  lemma FirstReadAgain(parser: TextParser, contents: Contents, c: Bytes, q: Query, at: nat, t: Try)
    requires q.nextFlag && !q.setFlag && IsRecord(c, at) && t.at == at
    ensures AnswersAbove(parser, contents, c, q, at, if contents(Line(c, at)).None? then 1 else 0,
              Resolve(c, q, Static(parser, contents), [t] + TriesFrom(parser, c, at), 0, [], 0).bind)
  {
    hide Resolve, TriesFrom, RecordAt, LineEnd, IsNoise;
    RecordFacts(c, at);
    StaticTry(parser, contents, c, q, t, at, 0);
    StepsOverBroken(parser, contents, c, q, at, 1);
  }

  /** A first record, then those behind it. */
  lemma FirstReadOnce(parser: TextParser, contents: Contents, c: Bytes, q: Query, at: nat, t: Try)
    requires q.nextFlag && !q.setFlag && IsRecord(c, at) && t.at == at
    ensures LineEnd(c, at) <= |c|
    ensures AnswersAbove(parser, contents, c, q, at, 0,
              Resolve(c, q, Static(parser, contents), [t] + TriesFrom(parser, c, LineEnd(c, at)), 0, [], 0).bind)
  {
    hide Resolve, TriesFrom, RecordAt, LineEnd, IsNoise;
    RecordFacts(c, at);
    StaticTry(parser, contents, c, q, t, LineEnd(c, at), 0);
    StepsOverBroken(parser, contents, c, q, LineEnd(c, at), 1);
  }

  lemma NothingAbove(parser: TextParser, contents: Contents, c: Bytes, q: Query, extra: nat)
    ensures AnswersAbove(parser, contents, c, q, |c|, extra, Some(q.NoAnswer()))
    ensures TriesFrom(parser, c, |c|) == []
  {}

  /** Where the records above an OID are read from: nowhere when the search overshoots. */
  ghost function From(parser: TextParser, c: Bytes, oid: Oid): (p: nat)
    ensures p <= |c|
  {
    if IsLocated(parser, c, oid) then Cut(parser, c, oid) else |c|
  }

  lemma StepsFrom(parser: TextParser, contents: Contents, c: Bytes, q: Query, extra: nat)
    requires Sorted(parser, c) && q.nextFlag && !q.setFlag && extra <= MAX_BROKEN_RECORDS
    ensures var p := From(parser, c, q.oid);
            AnswersAbove(parser, contents, c, q, p, extra,
              Resolve(c, q, Static(parser, contents), TriesFrom(parser, c, p), extra, [], 0).bind)
  {
    hide Resolve, TriesFrom, RecordAt, LineEnd, IsNoise, NextServed, Skipped, Cut, IsLocated;
    CutSplits(parser, c, q.oid);
    StepsOverBroken(parser, contents, c, q, From(parser, c, q.oid), extra);
  }

  lemma AnsweredBelow(parser: TextParser, contents: Contents, c: Bytes, q: Query)
    requires Sorted(parser, c) && q.nextFlag && !q.setFlag && Diversion(parser, c, q.oid) >= 0
    ensures var reply := StaticReply(parser, contents, c, q).bind;
            if IsDiverted(parser, contents, c, q.oid) then
              reply == Some(BindAt(parser, contents, c, Diversion(parser, c, q.oid)))
            else AnswersAbove(parser, contents, c, q, From(parser, c, q.oid), Extra(parser, contents, c, q.oid), reply)
  {
    hide AnswersAbove, Resolve, TriesFrom, ScanFrom, IsLocated, Plan, Diversion, Found, Cut, Line, OidAt, Sorted;
    NextPlan(parser, c, q.oid);
    StepsFrom(parser, contents, c, q, 1);
    StaticTry(parser, contents, c, q, Plan(parser, c, q.oid, true)[0], From(parser, c, q.oid), 0);
  }

  lemma AnsweredAbove(parser: TextParser, contents: Contents, c: Bytes, q: Query)
    requires Sorted(parser, c) && q.nextFlag && !q.setFlag && Diversion(parser, c, q.oid) < 0
    ensures AnswersAbove(parser, contents, c, q, From(parser, c, q.oid), Extra(parser, contents, c, q.oid),
                         StaticReply(parser, contents, c, q).bind)
  {
    hide AnswersAbove, Resolve, TriesFrom, ScanFrom, IsLocated, Plan, Diversion, Found, Cut, Line, OidAt,
      BackReference, IsRecord, IsOidOfRecord;
    var at := Found(parser, c, q.oid);
    NextPlan(parser, c, q.oid);
    StepsFrom(parser, contents, c, q, 0);
    NothingAbove(parser, contents, c, q, 0);
    ResolveNothing(c, q, Static(parser, contents), 0, [], 0);
    if at < |c| && IsRecord(c, at) {
      FirstReadAgain(parser, contents, c, q, at, Try(at, false, false));
      FirstReadOnce(parser, contents, c, q, at, Try(at, false, false));
    }
  }

  /** The answer to a GETNEXT, whatever else the request says: the diverting subtree record's, else
      from the records above the OID, if that can be located. */
  lemma GetNextIs(parser: TextParser, contents: Contents, c: Bytes, q: Query)
    requires Sorted(parser, c) && q.nextFlag && !q.setFlag
    ensures AnswerTo(parser, contents, c, q) ==
            var s := NextServed(contents, c, Cut(parser, c, q.oid));
            if IsDiverted(parser, contents, c, q.oid) then BindAt(parser, contents, c, Diversion(parser, c, q.oid))
            else if Reaches(parser, contents, c, q.oid) && s < |c| && contents(Line(c, s)).Some?
            then BindAt(parser, contents, c, s) else VarBind(q.oid, EndOfMib)
  {
    hide NextServed, Skipped, Cut, StaticReply, IsLocated, Diversion, Extra, Line, OidAt, Sorted;
    if Diversion(parser, c, q.oid) >= 0 {
      AnsweredBelow(parser, contents, c, q);
    } else {
      AnsweredAbove(parser, contents, c, q);
    }
    NothingAbove(parser, contents, c, q, Extra(parser, contents, c, q.oid));
  }

  lemma LeastAboveUnique(m: map<Oid, Content>, oid: Oid, k: Oid, j: Oid)
    requires IsLeastAbove(m, oid, k)
    ensures Less(oid, k) && k in m
    ensures IsLeastAbove(m, oid, j) ==> k == j
  {
    hide Less;
    if IsLeastAbove(m, oid, j) && k != j {
      LessAsymmetric(k, j);
      assert false;
    }
  }

  /** GETNEXT, section 4.2.2 of RFC 3416: the least stored OID above the requested one with its
      value, if and only if the OID can be located, no subtree record answers instead, and at most a
      hundred broken records are read in between; without all of that, and when nothing is above,
      endOfMib under the requested OID, unless a subtree record answers. */
  lemma GetNextReadsTheMap(parser: TextParser, contents: Contents, c: Bytes, q: Query, m: map<Oid, Content>)
    requires Sorted(parser, c) && IsStoreOf(m, parser, contents, c)
    requires q.nextFlag && !q.setFlag
    ensures forall k :: IsLeastAbove(m, q.oid, k) ==>
              (AnswerTo(parser, contents, c, q) == VarBind(k, Data(m[k])) <==> Reaches(parser, contents, c, q.oid))
    ensures AnswerTo(parser, contents, c, q) == VarBind(q.oid, EndOfMib) <==>
            !IsDiverted(parser, contents, c, q.oid)
            && (!Reaches(parser, contents, c, q.oid) || forall k :: k in m ==> !Less(q.oid, k))
  {
    hide NextServed, Less, Cut, IsNoise, AnswerTo, Diversion, IsStoreOf, Sorted, Line, OidAt, IsLeastAbove, Extra,
      IsLocated, Skipped;
    GetNextIs(parser, contents, c, q);
    NextServedIsLeast(parser, contents, c, q.oid, m);
    if IsDiverted(parser, contents, c, q.oid) {
      PrefixIsNotAbove(OidAt(parser, c, Diversion(parser, c, q.oid)), q.oid);
    }
    forall k | IsLeastAbove(m, q.oid, k)
      ensures !(forall j :: j in m ==> !Less(q.oid, j)) && Less(q.oid, k)
      ensures k == OidAt(parser, c, NextServed(contents, c, Cut(parser, c, q.oid)))
    {
      LeastAboveUnique(m, q.oid, k, OidAt(parser, c, NextServed(contents, c, Cut(parser, c, q.oid))));
    }
  }

  /** Nothing stands in the way when every record can be evaluated and the last line is a record,
      but for the OIDs that belong to a subtree record. */
  lemma CleanRecordingsReach(parser: TextParser, contents: Contents, c: Bytes, oid: Oid)
    requires Sorted(parser, c) && LastLineIsRecord(c)
    requires forall s: nat :: IsRecord(c, s) ==> Serves(contents, c, s)
    requires exists s: nat :: IsRecord(c, s) && Less(oid, OidAt(parser, c, s))
    ensures Reaches(parser, contents, c, oid) <==> Diversion(parser, c, oid) < 0
  {
    hide ScanFrom, Less, OvershootsFrom, RecordAt, LineEnd, LineStart, Diversion;
    var s: nat :| IsRecord(c, s) && Less(oid, OidAt(parser, c, s));
    LessAsymmetric(oid, OidAt(parser, c, s));
    LastLineRecordSuffices(parser, c, oid);
    SearchAgreesWithScan(parser, c, oid);
    CutSplits(parser, c, oid);
    RecordAtIsFirst(c, Cut(parser, c, oid));
    ScanFindsFirst(parser, c, oid, 0);
  }

  /** Only a subtree record can divert. */
  lemma NoDiversion(parser: TextParser, contents: Contents, c: Bytes, oid: Oid)
    requires NoSubtrees(parser, c)
    ensures Diversion(parser, c, oid) < 0 && Extra(parser, contents, c, oid) == 0
  {
    hide ScanFrom, Found;
    NoBackReference(parser, c, Found(parser, c, oid));
    ScanFindsFirst(parser, c, oid, 0);
  }

  /** The records from `p` on before `s`. */
  function RecordsBetween(c: Bytes, p: nat, s: nat): set<nat> {
    set r: nat | p <= r < s && IsRecord(c, r)
  }

  /** How many broken records are skipped is how many records lie before the first servable one. */
  lemma {:induction false} SkippedCounts(contents: Contents, c: Bytes, p: nat, s: nat)
    requires p <= |c| && IsBoundary(c, p) && Serves(contents, c, s) && p <= s
    requires forall r: nat :: IsRecord(c, r) && p <= r < s ==> contents(Line(c, r)).None?
    ensures NextServed(contents, c, p) == s && Skipped(contents, c, p) == |RecordsBetween(c, p, s)|
    decreases |c| - p
  {
    hide RecordAt, LineEnd, Line, IsRecord;
    var t := RecordAt(c, p);
    RecordsFrom(c, p);
    assert t <= s;
    if t < s {
      var e := LineEnd(c, t);
      SkippedCounts(contents, c, e, s);
      assert RecordsBetween(c, p, s) == RecordsBetween(c, e, s) + {t};
    } else {
      assert RecordsBetween(c, p, s) == {};
    }
  }

  /** The records before `s` that are above an OID. */
  function RecordsAbove(parser: TextParser, c: Bytes, oid: Oid, s: nat): set<nat> {
    set r: nat | r < s && IsRecord(c, r) && Less(oid, OidAt(parser, c, r))
  }

  lemma StoreHoldsOf(contents: Contents, c: Bytes, s: nat)
    requires Serves(contents, c, s)
    ensures s < |c| && IsRecord(c, s) && contents(Line(c, s)).Some?
  {}

  /** A GETNEXT gets past a hundred broken records and not past a hundred and one. */
  lemma AHundredBrokenRecords(parser: TextParser, contents: Contents, c: Bytes, q: Query, s: nat)
    requires Sorted(parser, c) && NoSubtrees(parser, c) && IsLocated(parser, c, q.oid) && q.nextFlag && !q.setFlag
    requires Serves(contents, c, s) && Less(q.oid, OidAt(parser, c, s))
    requires forall r: nat :: IsRecord(c, r) && r < s && Less(q.oid, OidAt(parser, c, r)) ==> contents(Line(c, r)).None?
    ensures AnswerTo(parser, contents, c, q) ==
            if |RecordsAbove(parser, c, q.oid, s)| <= 100 then
              VarBind(OidAt(parser, c, s), Data(contents(Line(c, s)).value))
            else VarBind(q.oid, EndOfMib)
  {
    hide RecordAt, LineEnd, Line, IsRecord, NextServed, Skipped, Cut, AnswerTo, Less, OidAt, Diversion, Extra,
      IsLocated, Sorted,
      NoSubtrees;
    var p := Cut(parser, c, q.oid);
    CutSplits(parser, c, q.oid);
    SkippedCounts(contents, c, p, s);
    assert RecordsBetween(c, p, s) == RecordsAbove(parser, c, q.oid, s);
    NoDiversion(parser, contents, c, q.oid);
    GetNextIs(parser, contents, c, q);
    StoreHoldsOf(contents, c, s);
  }

  /** A recording without records has no value for any OID. */
  lemma NothingToAnswer(parser: TextParser, contents: Contents, q: Query)
    ensures AnswerTo(parser, contents, [], q) == VarBind(q.oid, if q.nextFlag then EndOfMib else NoSuchInstance)
  {
    hide Resolve, OvershootsFrom;
    assert ScanFrom(parser, [], q.oid, 0) == 0 && Found(parser, [], q.oid) == 0;
    assert BackReference(parser, [], 0) == -1;
    assert TriesFrom(parser, [], 0) == [];
    assert Plan(parser, [], q.oid, q.nextFlag) == [];
    ResolveNothing([], q, Static(parser, contents), 0, [], 0);
  }
}
