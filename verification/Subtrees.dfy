/** What a manager sees of subtree records, which variation modules answer for. */
module Subtrees {
  import opened Wrappers
  import opened Oids
  import opened Texts
  import opened TextFiles
  import opened Recordings
  import opened FileSearch
  import opened Indexing
  import opened Requests
  import opened Serving
  import opened Walks

  /** Up to `n` GETNEXTs in a row, whatever the evaluator; `calls` are those made before. */
  ghost function WalkWith(parser: TextParser, c: Bytes, eval: Evaluator,
                          value: Value, oid: Oid, calls: seq<Call>, n: nat): seq<VarBind>
    decreases n
  {
    if n == 0 then []
    else
      var r := Resolve(c, Query(oid, value, true, false, 1, 0), eval, Plan(parser, c, oid, true), 0, calls, 0);
      if r.bind.None? || r.bind.value.value.EndOfMib? then []
      else [r.bind.value] + WalkWith(parser, c, eval, value, r.bind.value.oid, r.calls, n - 1)
  }

  /** The evaluator answers a GETNEXT to a subtree record with the record's own OID and the
      manager's value, as variation modules do that take no notice of subtrees. */
  ghost predicate AnswersItself(parser: TextParser, c: Bytes, eval: Evaluator, b: nat) {
    forall calls, call: Call :: call.line == Line(c, b) && call.query.nextFlag ==>
      eval(calls, call) == Answer(VarBind(OidAt(parser, c, b), call.query.value))
  }

  lemma AnswersItselfTo(parser: TextParser, c: Bytes, eval: Evaluator, b: nat, calls: seq<Call>, call: Call)
    requires AnswersItself(parser, c, eval, b) && call.line == Line(c, b) && call.query.nextFlag
    ensures eval(calls, call) == Answer(VarBind(OidAt(parser, c, b), call.query.value))
  {}

  lemma OwnDiversion(parser: TextParser, c: Bytes, oid: Oid, b: nat)
    requires Sorted(parser, c) && Diversion(parser, c, oid) == b
    ensures Diversion(parser, c, OidAt(parser, c, b)) == b
  {
    hide Diversion, Extra, Cut, IsLocated;
    DiversionIsSubtree(parser, c, oid);
    CutAtRecord(parser, (line: Bytes) => Option<Content>.None, c, b);
  }

  /** Then a walk never gets past the subtree: it is answered with that OID again and again. */
  lemma {:induction false} SubtreeHoldsTheWalk(parser: TextParser, c: Bytes, eval: Evaluator,
                                               value: Value, oid: Oid, b: nat, calls: seq<Call>, n: nat)
    requires Sorted(parser, c) && AnswersItself(parser, c, eval, b) && !value.EndOfMib?
    requires Diversion(parser, c, oid) == b
    ensures WalkWith(parser, c, eval, value, oid, calls, n) == seq(n, _ => VarBind(OidAt(parser, c, b), value))
    decreases n
  {
    hide Diversion, Plan, Resolve, TriesFrom, Cut, ScanFrom, IsLocated, Found, Line, OidAt, AnswersItself;
    if n > 0 {
      var q := Query(oid, value, true, false, 1, 0);
      NextPlan(parser, c, oid);
      var plan := Plan(parser, c, oid, true);
      var t, rest := plan[0], plan[1..];
      assert plan == [t] + rest;
      ResolveStep(c, q, eval, t, rest, 0, calls, 0);
      AnswersItselfTo(parser, c, eval, b, calls, Call(Line(c, b), q, t.subtree, t.exact));
      OwnDiversion(parser, c, oid, b);
      var r := Resolve(c, q, eval, plan, 0, calls, 0);
      SubtreeHoldsTheWalk(parser, c, eval, value, OidAt(parser, c, b), b, r.calls, n - 1);
    }
  }

  /** What answers for a record: its own content, or the rows a module keeps for its subtree. */
  datatype Layer = Own(content: Content) | Rows(rows: map<Oid, Content>)

  /** The layer of every record line. */
  type Layers = Bytes -> Layer

  ghost function LeastAbove(m: map<Oid, Content>, oid: Oid): (k: Option<Oid>)
    ensures k.Some? ==> IsLeastAbove(m, oid, k.value)
    ensures k.None? ==> forall j :: j in m ==> !Less(oid, j)
  {
    if j :| j in m && Less(oid, j) then
      LeastExists(m, oid, j);
      var k :| IsLeastAbove(m, oid, k);
      Some(k)
    else None
  }

  /** GETNEXT and GET of an ordered map. */
  ghost function MapAnswer(m: map<Oid, Content>, q: Query): VarBind {
    if q.nextFlag then
      var k := LeastAbove(m, q.oid);
      if k.Some? then VarBind(k.value, Data(m[k.value])) else q.NoAnswer()
    else if q.oid in m then VarBind(q.oid, Data(m[q.oid])) else q.NoAnswer()
  }

  /** A record served as it stands is gated; the rows of a subtree are read as an ordered map,
      whatever the other flags say. */
  ghost function LayerAnswer(parser: TextParser, layers: Layers, call: Call): VarBind {
    match layers(call.line)
    case Rows(rows) => MapAnswer(rows, call.query)
    case Own(content) =>
      if call.query.nextFlag || call.exact then VarBind(OidOf(parser, call.line), Data(content))
      else call.query.NoAnswer()
  }

  ghost predicate ServesLayers(parser: TextParser, layers: Layers, eval: Evaluator) {
    forall calls, call: Call :: !call.query.setFlag ==> eval(calls, call) == Answer(LayerAnswer(parser, layers, call))
  }

  function Entries(parser: TextParser, layers: Layers, c: Bytes, s: nat): map<Oid, Content> {
    match layers(Line(c, s))
    case Own(content) => map[OidAt(parser, c, s) := content]
    case Rows(rows) => rows
  }

  /** All that the layers hold together. */
  ghost predicate IsUnionOf(u: map<Oid, Content>, parser: TextParser, layers: Layers, c: Bytes) {
    && (forall s: nat, k :: IsRecord(c, s) && k in Entries(parser, layers, c, s) ==>
          k in u && u[k] == Entries(parser, layers, c, s)[k])
    && (forall k :: k in u ==> exists s: nat :: IsRecord(c, s) && k in Entries(parser, layers, c, s))
  }

  /** Just subtree records have rows. */
  ghost predicate HaveRows(parser: TextParser, layers: Layers, c: Bytes) {
    forall s: nat :: IsRecord(c, s) ==> (layers(Line(c, s)).Rows? <==> parser.IsSubtree(Line(c, s)))
  }

  /** And these lie in the subtree of their record and before the next record. */
  ghost predicate IsNested(parser: TextParser, layers: Layers, c: Bytes) {
    && HaveRows(parser, layers, c)
    && (forall s: nat, k :: IsRecord(c, s) && k in Entries(parser, layers, c, s) ==> IsPrefixOf(OidAt(parser, c, s), k))
    && (forall s: nat, t: nat, k :: IsRecord(c, s) && IsRecord(c, t) && s < t && k in Entries(parser, layers, c, s) ==>
          Less(k, OidAt(parser, c, t)))
  }

  lemma NestedHaveRows(parser: TextParser, layers: Layers, c: Bytes)
    requires IsNested(parser, layers, c)
    ensures HaveRows(parser, layers, c)
  {
    hide HaveRows;
  }

  /** The first answer of the records from `p` on. */
  ghost function FirstFrom(parser: TextParser, layers: Layers, c: Bytes, q: Query, p: nat): VarBind
    decreases |c| - p
  {
    var s := RecordAt(c, p);
    if s >= |c| then q.NoAnswer()
    else
      var layer := layers(Line(c, s));
      if layer.Own? then VarBind(OidAt(parser, c, s), Data(layer.content))
      else if LeastAbove(layer.rows, q.oid).Some? then MapAnswer(layer.rows, q)
      else FirstFrom(parser, layers, c, q, LineEnd(c, s))
  }

  lemma FirstFromUnfolds(parser: TextParser, layers: Layers, c: Bytes, q: Query, p: nat)
    ensures var s := RecordAt(c, p);
            FirstFrom(parser, layers, c, q, p) ==
            if s >= |c| then q.NoAnswer()
            else
              var layer := layers(Line(c, s));
              if layer.Own? then VarBind(OidAt(parser, c, s), Data(layer.content))
              else if LeastAbove(layer.rows, q.oid).Some? then MapAnswer(layer.rows, q)
              else FirstFrom(parser, layers, c, q, LineEnd(c, s))
  {
    hide RecordAt, LineEnd, Line, LeastAbove;
  }

  /** One record evaluated: it answers, or passes on to the rest. */
  lemma LayerTry(parser: TextParser, layers: Layers, c: Bytes, q: Query,
                 eval: Evaluator, t: Try, rest: seq<Try>, calls: seq<Call>)
    requires ServesLayers(parser, layers, eval) && q.nextFlag && !q.setFlag
    ensures var r := Resolve(c, q, eval, [t] + rest, 0, calls, 0);
            var call := Call(Line(c, t.at), q, t.subtree, t.exact);
            var layer := layers(Line(c, t.at));
            r == if layer.Own? then Reply(Some(VarBind(OidAt(parser, c, t.at), Data(layer.content))), calls + [call], 0)
                 else if LeastAbove(layer.rows, q.oid).Some? then
                   Reply(Some(MapAnswer(layer.rows, q)), calls + [call], 0)
                 else Resolve(c, q, eval, rest, 0, calls + [call], 0)
  {
    hide Resolve, Line, LeastAbove;
    ResolveStep(c, q, eval, t, rest, 0, calls, 0);
  }

  lemma {:induction false} TriesAnswer(parser: TextParser, layers: Layers, c: Bytes,
                                       q: Query, eval: Evaluator, p: nat, calls: seq<Call>)
    requires ServesLayers(parser, layers, eval) && q.nextFlag && !q.setFlag && p <= |c| && IsBoundary(c, p)
    ensures var r := Resolve(c, q, eval, TriesFrom(parser, c, p), 0, calls, 0);
            r.bind == Some(FirstFrom(parser, layers, c, q, p)) && r.errors == 0
    decreases |c| - p
  {
    hide Resolve, Line, RecordAt, LineEnd, LeastAbove, TriesFrom, FirstFrom, MapAnswer, ServesLayers, IsBoundary;
    var s := RecordAt(c, p);
    TriesFromUnfolds(parser, c, p);
    FirstFromUnfolds(parser, layers, c, q, p);
    if s < |c| {
      var t := Try(s, parser.IsSubtree(Line(c, s)), true);
      LayerTry(parser, layers, c, q, eval, t, TriesFrom(parser, c, LineEnd(c, s)), calls);
      TriesAnswer(parser, layers, c, q, eval, LineEnd(c, s), calls + [Call(Line(c, s), q, t.subtree, true)]);
    } else {
      ResolveNothing(c, q, eval, 0, calls, 0);
    }
  }

  /** `bind` answers the least entry of the records from `p` on, or nothing when these have none. */
  ghost predicate IsFirstEntry(parser: TextParser, layers: Layers, c: Bytes, q: Query, p: nat, bind: VarBind) {
    if bind.value.Data? then
      && Less(q.oid, bind.oid)
      && (exists s: nat :: IsRecord(c, s) && p <= s && bind.oid in Entries(parser, layers, c, s)
                           && Entries(parser, layers, c, s)[bind.oid] == bind.value.content)
      && (forall t: nat, j :: IsRecord(c, t) && p <= t && j in Entries(parser, layers, c, t) ==> AtMost(bind.oid, j))
    else
      bind == q.NoAnswer() && forall t: nat, j :: IsRecord(c, t) && p <= t ==> j !in Entries(parser, layers, c, t)
  }

  /** An entry of a record comes before all of the records behind it. */
  lemma EntriesAscend(parser: TextParser, layers: Layers, c: Bytes, s: nat, t: nat, k: Oid, j: Oid)
    requires IsNested(parser, layers, c) && IsRecord(c, s) && IsRecord(c, t) && s < t
    requires k in Entries(parser, layers, c, s) && j in Entries(parser, layers, c, t)
    ensures Less(k, j)
  {
    hide Less, IsRecord, OidAt, Entries;
    AboveExtends(k, OidAt(parser, c, t), j);
  }

  /** All entries of a record above an OID are above it. */
  lemma EntriesAbove(parser: TextParser, layers: Layers, c: Bytes, oid: Oid, s: nat, k: Oid)
    requires IsNested(parser, layers, c) && IsRecord(c, s) && Less(oid, OidAt(parser, c, s))
    requires k in Entries(parser, layers, c, s)
    ensures Less(oid, k)
  {
    hide Less, IsRecord, OidAt, Entries;
    AboveExtends(oid, OidAt(parser, c, s), k);
  }

  /** What one record answers is its least entry above. */
  lemma LayerIsLeast(parser: TextParser, layers: Layers, c: Bytes, q: Query, s: nat)
    requires IsNested(parser, layers, c) && IsRecord(c, s) && Less(q.oid, OidAt(parser, c, s)) && q.nextFlag
    ensures var layer, m := layers(Line(c, s)), Entries(parser, layers, c, s);
            var bind := if layer.Own? then VarBind(OidAt(parser, c, s), Data(layer.content))
                        else MapAnswer(layer.rows, q);
            if layer.Own? || LeastAbove(layer.rows, q.oid).Some? then
              && bind.value.Data? && bind.oid in m && m[bind.oid] == bind.value.content && Less(q.oid, bind.oid)
              && forall j :: j in m ==> AtMost(bind.oid, j)
            else forall j :: j !in m
  {
    hide Less, IsRecord, OidAt, Line, IsNested;
    forall j | j in Entries(parser, layers, c, s)
      ensures Less(q.oid, j)
    {
      EntriesAbove(parser, layers, c, q.oid, s, j);
    }
  }

  lemma {:induction false} FirstFromIsFirst(parser: TextParser, layers: Layers, c: Bytes, q: Query, p: nat)
    requires IsNested(parser, layers, c) && q.nextFlag && p <= |c| && IsBoundary(c, p)
    requires forall s: nat :: IsRecord(c, s) && p <= s ==> Less(q.oid, OidAt(parser, c, s))
    ensures IsFirstEntry(parser, layers, c, q, p, FirstFrom(parser, layers, c, q, p))
    decreases |c| - p
  {
    hide Less, IsRecord, OidAt, Line, IsNested, RecordAt, LineEnd, Entries, FirstFrom, LeastAbove, MapAnswer,
      IsBoundary;
    var s := RecordAt(c, p);
    var bind := FirstFrom(parser, layers, c, q, p);
    RecordsFrom(c, p);
    FirstFromUnfolds(parser, layers, c, q, p);
    if s < |c| {
      LayerIsLeast(parser, layers, c, q, s);
      if bind.value.Data? && bind.oid in Entries(parser, layers, c, s) {
        forall t: nat, j | IsRecord(c, t) && p <= t && j in Entries(parser, layers, c, t)
          ensures AtMost(bind.oid, j)
        {
          if t != s {
            EntriesAscend(parser, layers, c, s, t, bind.oid, j);
          }
        }
      } else {
        FirstFromIsFirst(parser, layers, c, q, LineEnd(c, s));
      }
    }
  }

  /** The search finds what a scan finds, for every OID. */
  ghost predicate IsSearchable(parser: TextParser, c: Bytes) {
    forall oid :: Found(parser, c, oid) == ScanFrom(parser, c, oid, 0)
  }

  lemma LaterIsNotBelow(j: Oid, u: Oid, oid: Oid)
    requires Less(j, u) && !Less(oid, u)
    ensures !Less(oid, j)
  {
    hide Less;
    if Less(oid, j) {
      LessTransitive(oid, j, u);
    }
  }

  lemma NestedPair(parser: TextParser, layers: Layers, c: Bytes, t: nat, u: nat, j: Oid)
    requires IsNested(parser, layers, c) && IsRecord(c, t) && IsRecord(c, u) && t < u
    requires j in Entries(parser, layers, c, t)
    ensures Less(j, OidAt(parser, c, u))
  {
    hide Less, IsRecord, OidAt, Entries, Line;
  }

  lemma NestedPrefix(parser: TextParser, layers: Layers, c: Bytes, t: nat, j: Oid)
    requires IsNested(parser, layers, c) && IsRecord(c, t) && j in Entries(parser, layers, c, t)
    ensures IsPrefixOf(OidAt(parser, c, t), j)
    ensures !parser.IsSubtree(Line(c, t)) ==> j == OidAt(parser, c, t)
  {
    hide Less, IsRecord, OidAt, Line;
  }

  /** The last record up to an OID decides whether it belongs to a subtree. */
  lemma LastBeforeCut(parser: TextParser, c: Bytes, oid: Oid, t: nat)
    requires Sorted(parser, c) && IsSearchable(parser, c)
    requires IsRecord(c, t) && t < Cut(parser, c, oid)
    requires forall u: nat :: IsRecord(c, u) && u < Cut(parser, c, oid) ==> u <= t
    ensures Diversion(parser, c, oid) == t
            <==> parser.IsSubtree(Line(c, t)) && IsPrefixOf(OidAt(parser, c, t), oid)
    ensures OidAt(parser, c, t) == oid ==> IsPrefixOf(OidAt(parser, c, t), oid)
  {
    hide Less, Line, RecordAt, LineEnd, ScanFrom, Found, OidAt, IsRecord, Sorted;
    var s := ScanFrom(parser, c, oid, 0);
    ScanFindsFirst(parser, c, oid, 0);
    CutSplits(parser, c, oid);
    if s < |c| && OidAt(parser, c, s) == oid {
      LineAfterRecord(c, s);
      assert s <= t;
      if s < t {
        SortedPair(parser, c, s, t);
      }
    }
  }

  /** The only record up to an OID whose entries may lie above it is the subtree record the OID belongs to. */
  lemma EarlierIsBelow(parser: TextParser, layers: Layers, c: Bytes, oid: Oid, t: nat, j: Oid)
    requires Sorted(parser, c) && IsNested(parser, layers, c) && IsSearchable(parser, c)
    requires IsRecord(c, t) && t < Cut(parser, c, oid) && j in Entries(parser, layers, c, t)
    ensures Less(oid, j) ==> Diversion(parser, c, oid) == t
  {
    hide Less, IsRecord, Line, RecordAt, LineEnd, ScanFrom, Found, IsNested, Entries, PrevRecord, OidAt, Sorted;
    CutSplits(parser, c, oid);
    if u: nat :| IsRecord(c, u) && t < u < Cut(parser, c, oid) {
      NestedPair(parser, layers, c, t, u, j);
      LaterIsNotBelow(j, OidAt(parser, c, u), oid);
    } else {
      LastBeforeCut(parser, c, oid, t);
      NestedPrefix(parser, layers, c, t, j);
      LessTotal(OidAt(parser, c, t), oid);
      if OidAt(parser, c, t) == oid {
        LessIrreflexive(oid);
      } else if Diversion(parser, c, oid) != t {
        if parser.IsSubtree(Line(c, t)) {
          BelowExtends(OidAt(parser, c, t), oid, j);
        }
        LessAsymmetric(j, oid);
      }
    }
  }

  /** When the search is right, an OID is located or above all records. */
  lemma LocatedWhenSearchable(parser: TextParser, c: Bytes, oid: Oid)
    requires Sorted(parser, c) && IsSearchable(parser, c)
    ensures !IsLocated(parser, c, oid) ==> Cut(parser, c, oid) == |c|
    ensures !IsOidOfRecord(parser, c, oid) ==> Found(parser, c, oid) == Cut(parser, c, oid)
  {
    hide ScanFrom, OvershootsFrom, Less, RecordAt, LineEnd;
    ScanFindsFirst(parser, c, oid, 0);
  }

  /** The answer to a GETNEXT: that of the subtree the OID belongs to, else of the records above. */
  lemma PlanAnswers(parser: TextParser, layers: Layers, c: Bytes, q: Query, eval: Evaluator, calls: seq<Call>)
    requires Sorted(parser, c) && HaveRows(parser, layers, c) && IsSearchable(parser, c)
    requires ServesLayers(parser, layers, eval) && q.nextFlag && !q.setFlag
    ensures var r := Resolve(c, q, eval, Plan(parser, c, q.oid, true), 0, calls, 0);
            var d := Diversion(parser, c, q.oid);
            r.errors == 0 && r.bind == Some(
              if d >= 0 && layers(Line(c, d)).Rows? && LeastAbove(layers(Line(c, d)).rows, q.oid).Some?
              then MapAnswer(layers(Line(c, d)).rows, q)
              else FirstFrom(parser, layers, c, q, Cut(parser, c, q.oid)))
    ensures var d := Diversion(parser, c, q.oid); d >= 0 ==> layers(Line(c, d)).Rows?
  {
    hide Less, Line, RecordAt, LineEnd, ScanFrom, Found, OidAt, Resolve, TriesFrom, FirstFrom, MapAnswer, LeastAbove,
      Cut, Plan,
      Diversion, BackReference, ServesLayers, Sorted, OvershootsFrom;
    var d, p := Diversion(parser, c, q.oid), Cut(parser, c, q.oid);
    var plan := Plan(parser, c, q.oid, true);
    CutSplits(parser, c, q.oid);
    NextPlan(parser, c, q.oid);
    DiversionIsSubtree(parser, c, q.oid);
    LocatedWhenSearchable(parser, c, q.oid);
    FirstFromUnfolds(parser, layers, c, q, p);
    if d >= 0 {
      var t := plan[0];
      LayerTry(parser, layers, c, q, eval, t, TriesFrom(parser, c, p), calls);
      TriesAnswer(parser, layers, c, q, eval, p, calls + [Call(Line(c, t.at), q, t.subtree, t.exact)]);
    } else if IsOidOfRecord(parser, c, q.oid) {
      TriesAnswer(parser, layers, c, q, eval, p, calls);
    } else if p < |c| {
      var t := plan[0];
      var from := if BackReference(parser, c, p) >= 0 then p else LineEnd(c, p);
      RecordFacts(c, p);
      LayerTry(parser, layers, c, q, eval, t, TriesFrom(parser, c, from), calls);
      TriesAnswer(parser, layers, c, q, eval, from, calls + [Call(Line(c, t.at), q, t.subtree, t.exact)]);
    } else {
      ResolveNothing(c, q, eval, 0, calls, 0);
    }
  }

  /** A sorted recording, the rows behind its subtree records and the search go together. */
  ghost predicate IsLayered(parser: TextParser, layers: Layers, c: Bytes) {
    Sorted(parser, c) && IsNested(parser, layers, c) && IsSearchable(parser, c)
  }

  lemma LeastAboveIsOne(u: map<Oid, Content>, oid: Oid)
    ensures forall k :: IsLeastAbove(u, oid, k) ==> LeastAbove(u, oid) == Some(k)
    ensures (forall j :: j in u ==> !Less(oid, j)) ==> LeastAbove(u, oid) == None
  {
    forall k | IsLeastAbove(u, oid, k)
      ensures LeastAbove(u, oid) == Some(k)
    {
      LeastIsOne(u, oid, k, LeastAbove(u, oid).value);
    }
  }

  /** No entry above the OID comes before the rows of the subtree that are above it. */
  lemma RowsComeFirst(parser: TextParser, layers: Layers, c: Bytes, oid: Oid, d: nat, k: Oid, t: nat, j: Oid)
    requires IsLayered(parser, layers, c) && Diversion(parser, c, oid) == d && k in Entries(parser, layers, c, d)
    requires IsRecord(c, t) && j in Entries(parser, layers, c, t) && Less(oid, j)
    ensures t == d || Less(k, j)
  {
    hide Less, IsRecord, IsNested, Sorted, Line, OidAt, Cut, Entries, Diversion, IsSearchable;
    if t != d {
      if t < Cut(parser, c, oid) {
        EarlierIsBelow(parser, layers, c, oid, t, j);
      } else {
        CutSplits(parser, c, oid);
        PrefixIsNotAbove(OidAt(parser, c, d), oid);
        EntriesAscend(parser, layers, c, d, t, k, j);
      }
    }
  }

  /** The least row of the subtree above the OID is the least entry of all. */
  lemma SubtreeIsLeast(parser: TextParser, layers: Layers, c: Bytes, oid: Oid, u: map<Oid, Content>, k: Oid)
    requires IsLayered(parser, layers, c) && IsUnionOf(u, parser, layers, c)
    requires var d := Diversion(parser, c, oid);
             d >= 0 && layers(Line(c, d)).Rows? && IsLeastAbove(layers(Line(c, d)).rows, oid, k)
    ensures IsLeastAbove(u, oid, k) && u[k] == layers(Line(c, Diversion(parser, c, oid))).rows[k]
  {
    hide Less, IsRecord, Line, Diversion, IsLayered;
    var d := Diversion(parser, c, oid);
    assert Entries(parser, layers, c, d) == layers(Line(c, d)).rows;
    forall j | j in u && Less(oid, j)
      ensures AtMost(k, j)
    {
      var t: nat :| IsRecord(c, t) && j in Entries(parser, layers, c, t);
      RowsComeFirst(parser, layers, c, oid, d, k, t, j);
    }
  }

  /** Without one, the first entry of the records above is. */
  lemma FirstIsLeast(parser: TextParser, layers: Layers, c: Bytes, q: Query, u: map<Oid, Content>, bind: VarBind)
    requires IsLayered(parser, layers, c) && IsUnionOf(u, parser, layers, c)
    requires IsFirstEntry(parser, layers, c, q, Cut(parser, c, q.oid), bind)
    requires var d := Diversion(parser, c, q.oid);
             d >= 0 ==> layers(Line(c, d)).Rows? && LeastAbove(layers(Line(c, d)).rows, q.oid).None?
    ensures if bind.value.Data? then IsLeastAbove(u, q.oid, bind.oid) && u[bind.oid] == bind.value.content
            else bind == q.NoAnswer() && forall j :: j in u ==> !Less(q.oid, j)
  {
    hide Less, IsRecord, IsNested, Sorted, Line, OidAt, Cut, Diversion;
    forall j | j in u && Less(q.oid, j)
      ensures bind.value.Data? && AtMost(bind.oid, j)
    {
      var t: nat :| IsRecord(c, t) && j in Entries(parser, layers, c, t);
      if t < Cut(parser, c, q.oid) {
        EarlierIsBelow(parser, layers, c, q.oid, t, j);
      }
    }
  }

  /** GETNEXT, section 4.2.2 of RFC 3416, over records and the rows behind subtree records together. */
  lemma GetNextReadsTheUnion(parser: TextParser, layers: Layers, c: Bytes, q: Query,
                             eval: Evaluator, u: map<Oid, Content>, calls: seq<Call>)
    requires IsLayered(parser, layers, c) && IsUnionOf(u, parser, layers, c)
    requires ServesLayers(parser, layers, eval) && q.nextFlag && !q.setFlag
    ensures var r := Resolve(c, q, eval, Plan(parser, c, q.oid, true), 0, calls, 0);
            r.errors == 0 && r.bind == Some(MapAnswer(u, q))
  {
    hide Less, Line, RecordAt, LineEnd, Resolve, FirstFrom, Cut, Plan, Diversion, ServesLayers, Sorted, IsRecord,
      Entries, IsNested, LeastAbove, OidAt, IsFirstEntry;
    var d, p := Diversion(parser, c, q.oid), Cut(parser, c, q.oid);
    NestedHaveRows(parser, layers, c);
    PlanAnswers(parser, layers, c, q, eval, calls);
    CutSplits(parser, c, q.oid);
    FirstFromIsFirst(parser, layers, c, q, p);
    if d >= 0 && LeastAbove(layers(Line(c, d)).rows, q.oid).Some? {
      SubtreeIsLeast(parser, layers, c, q.oid, u, LeastAbove(layers(Line(c, d)).rows, q.oid).value);
    } else {
      FirstIsLeast(parser, layers, c, q, u, FirstFrom(parser, layers, c, q, p));
    }
    LeastAboveIsOne(u, q.oid);
  }

  /** An entry is that of the record of its OID, or of the subtree record its OID falls into. */
  lemma EntryOwner(parser: TextParser, layers: Layers, c: Bytes, oid: Oid, t: nat)
    requires IsLayered(parser, layers, c) && IsRecord(c, t) && oid in Entries(parser, layers, c, t)
    ensures OidAt(parser, c, t) == oid || Diversion(parser, c, oid) == t
  {
    hide Less, Line, RecordAt, LineEnd, Cut, OidAt, Sorted, IsRecord, IsNested, Entries, IsSearchable, Diversion;
    NestedPrefix(parser, layers, c, t, oid);
    PrefixIsNotAbove(OidAt(parser, c, t), oid);
    CutSplits(parser, c, oid);
    forall u: nat | IsRecord(c, u) && u < Cut(parser, c, oid)
      ensures u <= t
    {
      if t < u {
        NestedPair(parser, layers, c, t, u, oid);
      }
    }
    LastBeforeCut(parser, c, oid, t);
  }

  /** What a GET is answered from the record due for it. */
  lemma GetFromDue(parser: TextParser, layers: Layers, c: Bytes, q: Query, eval: Evaluator, t: Try, calls: seq<Call>)
    requires ServesLayers(parser, layers, eval) && !q.nextFlag && !q.setFlag
    ensures var r := Resolve(c, q, eval, [t], 0, calls, 0);
            var layer := layers(Line(c, t.at));
            r.errors == 0 && r.bind == Some(
              if layer.Rows? then MapAnswer(layer.rows, q)
              else if t.exact then VarBind(OidAt(parser, c, t.at), Data(layer.content)) else q.NoAnswer())
  {
    hide Resolve, Line;
    ResolveStep(c, q, eval, t, [], 0, calls, 0);
    assert [t] + [] == [t];
  }

  lemma DueIsRecord(parser: TextParser, c: Bytes, oid: Oid)
    requires IsSearchable(parser, c)
    ensures var s, b := ScanFrom(parser, c, oid, 0), BackReference(parser, c, Found(parser, c, oid));
            && Found(parser, c, oid) == s && (s < |c| ==> IsRecord(c, s))
            && (b >= 0 ==> IsRecord(c, b) && parser.IsSubtree(Line(c, b)))
            && Diversion(parser, c, oid) ==
               if s < |c| && OidAt(parser, c, s) == oid then if parser.IsSubtree(Line(c, s)) then s else -1
               else if b >= 0 && IsPrefixOf(OidAt(parser, c, b), oid) then b else -1
  {
    hide ScanFrom, RecordAt, LineEnd, PrevRecord, Less, OvershootsFrom;
    ScanFindsFirst(parser, c, oid, 0);
  }

  lemma OnlyRecordAt(parser: TextParser, c: Bytes, oid: Oid, t: nat)
    requires Sorted(parser, c) && IsRecord(c, t)
    ensures OidAt(parser, c, t) == oid ==> ScanFrom(parser, c, oid, 0) == t < |c|
  {
    hide ScanFrom, Less, RecordAt, LineEnd;
    if OidAt(parser, c, t) == oid {
      PivotHits(parser, c, t);
      ScanFindsFirst(parser, c, oid, 0);
      FirstAtLeastUnique(parser, c, oid, t, ScanFrom(parser, c, oid, 0));
    }
  }

  /** GET, section 4.2.1 of RFC 3416, over both. */
  lemma GetReadsTheUnion(parser: TextParser, layers: Layers, c: Bytes, q: Query,
                         eval: Evaluator, u: map<Oid, Content>, calls: seq<Call>)
    requires IsLayered(parser, layers, c) && IsUnionOf(u, parser, layers, c)
    requires ServesLayers(parser, layers, eval) && !q.nextFlag && !q.setFlag
    ensures var r := Resolve(c, q, eval, Plan(parser, c, q.oid, false), 0, calls, 0);
            r.errors == 0 && r.bind == Some(MapAnswer(u, q))
  {
    hide Less, Line, RecordAt, LineEnd, ScanFrom, OidAt, Resolve, Plan, BackReference, IsRecord, ServesLayers,
      Found, Sorted, Overshoots;
    OneRecordDue(parser, c, q.oid);
    var s := ScanFrom(parser, c, q.oid, 0);
    var at := Found(parser, c, q.oid);
    var b := BackReference(parser, c, at);
    ResolveNothing(c, q, eval, 0, calls, 0);
    DueIsRecord(parser, c, q.oid);
    if q.oid in u {
      var t: nat :| IsRecord(c, t) && q.oid in Entries(parser, layers, c, t);
      EntryOwner(parser, layers, c, q.oid, t);
      OnlyRecordAt(parser, c, q.oid, t);
    }
    if s < |c| && OidAt(parser, c, s) == q.oid {
      GetFromDue(parser, layers, c, q, eval, Try(s, parser.IsSubtree(Line(c, s)), true), calls);
    } else if b >= 0 && IsPrefixOf(OidAt(parser, c, b), q.oid) {
      GetFromDue(parser, layers, c, q, eval, Try(b, true, false), calls);
    } else if at < |c| {
      GetFromDue(parser, layers, c, q, eval, Try(at, false, false), calls);
    }
  }

  /** The list of just the entries above an OID, ascending. */
  ghost predicate ListsAbove(u: map<Oid, Content>, oid: Oid, binds: seq<VarBind>) {
    && (forall i, j :: 0 <= i < j < |binds| ==> Less(binds[i].oid, binds[j].oid))
    && (forall b :: b in binds ==> Less(oid, b.oid) && b.oid in u && b.value == Data(u[b.oid]))
    && (forall k :: k in u && Less(oid, k) ==> VarBind(k, Data(u[k])) in binds)
  }

  lemma ListsOneMore(u: map<Oid, Content>, oid: Oid, k: Oid, rest: seq<VarBind>)
    requires IsLeastAbove(u, oid, k) && ListsAbove(u, k, rest)
    ensures ListsAbove(u, oid, [VarBind(k, Data(u[k]))] + rest)
  {
    hide Less;
    var binds := [VarBind(k, Data(u[k]))] + rest;
    forall j | 0 < j < |binds|
      ensures Less(k, binds[j].oid)
    {
      assert binds[j] in rest;
    }
    forall b | b in rest
      ensures Less(oid, b.oid)
    {
      LessTransitive(oid, k, b.oid);
    }
    forall j | j in u && Less(oid, j)
      ensures VarBind(j, Data(u[j])) in binds
    {}
  }

  function KeysAbove(u: map<Oid, Content>, oid: Oid): set<Oid> {
    set k | k in u && Less(oid, k)
  }

  lemma SubsetSize(a: set<Oid>, b: set<Oid>)
    requires a <= b
    ensures |a| <= |b|
  {
    assert b == a + (b - a);
  }

  lemma FewerAbove(u: map<Oid, Content>, oid: Oid, k: Oid)
    requires IsLeastAbove(u, oid, k)
    ensures |KeysAbove(u, k)| < |KeysAbove(u, oid)|
  {
    hide Less;
    LessIrreflexive(k);
    forall j | j in KeysAbove(u, k)
      ensures j in KeysAbove(u, oid) - {k}
    {
      LessTransitive(oid, k, j);
    }
    SubsetSize(KeysAbove(u, k), KeysAbove(u, oid) - {k});
  }

  lemma NothingToList(u: map<Oid, Content>, oid: Oid)
    requires forall k :: k in u ==> !Less(oid, k)
    ensures ListsAbove(u, oid, [])
  {}

  /** A GETNEXT walk lists records and rows together, each once and in order, and then ends. */
  lemma {:induction false} WalkListsTheUnion(parser: TextParser, layers: Layers, c: Bytes, eval: Evaluator,
                                             u: map<Oid, Content>, value: Value, oid: Oid, calls: seq<Call>, n: nat)
    requires IsLayered(parser, layers, c) && IsUnionOf(u, parser, layers, c) && ServesLayers(parser, layers, eval)
    requires n > |KeysAbove(u, oid)|
    ensures ListsAbove(u, oid, WalkWith(parser, c, eval, value, oid, calls, n))
    decreases n
  {
    hide Less, Plan, Resolve, IsLayered, IsUnionOf, ServesLayers, LeastAbove, KeysAbove, ListsAbove;
    var q := Query(oid, value, true, false, 1, 0);
    GetNextReadsTheUnion(parser, layers, c, q, eval, u, calls);
    var r := Resolve(c, q, eval, Plan(parser, c, oid, true), 0, calls, 0);
    var k := LeastAbove(u, oid);
    if k.Some? {
      FewerAbove(u, oid, k.value);
      WalkListsTheUnion(parser, layers, c, eval, u, value, k.value, r.calls, n - 1);
      ListsOneMore(u, oid, k.value, WalkWith(parser, c, eval, value, k.value, r.calls, n - 1));
    } else {
      NothingToList(u, oid);
    }
  }

  lemma OwnComesFirst(parser: TextParser, layers: Layers, c: Bytes, oid: Oid, u: map<Oid, Content>, t: nat, k: Oid)
    requires IsUnionOf(u, parser, layers, c) && IsRecord(c, t) && layers(Line(c, t)).Own?
    requires Less(oid, OidAt(parser, c, t)) && Less(OidAt(parser, c, t), k)
    ensures !IsLeastAbove(u, oid, k)
  {
    hide Less, IsRecord, Line, OidAt;
    LessAsymmetric(OidAt(parser, c, t), k);
    assert OidAt(parser, c, t) in Entries(parser, layers, c, t);
  }

  /** A record between the rows of a subtree is passed over: from an OID in the subtree the next row
      is answered even when the record comes first. */
  lemma RecordAmongRowsIsSkipped(parser: TextParser, layers: Layers, c: Bytes, q: Query, eval: Evaluator,
                                 calls: seq<Call>, u: map<Oid, Content>, d: nat, k: Oid, t: nat)
    requires Sorted(parser, c) && HaveRows(parser, layers, c) && IsSearchable(parser, c)
    requires ServesLayers(parser, layers, eval) && q.nextFlag && !q.setFlag && IsUnionOf(u, parser, layers, c)
    requires Diversion(parser, c, q.oid) == d && layers(Line(c, d)).Rows?
    requires IsLeastAbove(layers(Line(c, d)).rows, q.oid, k)
    requires IsRecord(c, t) && layers(Line(c, t)).Own?
    requires Less(q.oid, OidAt(parser, c, t)) && Less(OidAt(parser, c, t), k)
    ensures var r := Resolve(c, q, eval, Plan(parser, c, q.oid, true), 0, calls, 0);
            r.bind == Some(VarBind(k, Data(layers(Line(c, d)).rows[k]))) && !IsLeastAbove(u, q.oid, k)
  {
    hide Less, Line, OidAt, Resolve, Plan, Diversion, ServesLayers, Sorted, IsRecord, FirstFrom, Cut, IsSearchable,
      HaveRows, LeastAbove, IsUnionOf, IsLeastAbove;
    PlanAnswers(parser, layers, c, q, eval, calls);
    LeastAboveIsOne(layers(Line(c, d)).rows, q.oid);
    OwnComesFirst(parser, layers, c, q.oid, u, t, k);
  }
}
