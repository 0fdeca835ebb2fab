/** Walking with GETBULK: requests chained from the last OID returned. */
module BulkWalks {
  import opened Oids
  import opened Texts
  import opened Recordings
  import opened Requests
  import opened Serving
  import opened Walks
  import opened Bulk

  /** Reading next binding by binding. */
  ghost function Each(next: Next): (readNext: Reader)
    ensures KeepsLength(readNext)
  {
    binds => ReadNext(next, binds)
  }

  /** Reading binding by binding, element `k` of row `i` is GETNEXT applied `i` times to repeater `k`. */
  lemma {:induction false} RowIsRepeated(next: Next, repeaters: seq<VarBind>, i: nat)
    requires i >= 1
    ensures |Row(Each(next), repeaters, i)| == |repeaters|
    ensures forall k :: 0 <= k < |repeaters| ==> Row(Each(next), repeaters, i)[k] == Repeated(next, repeaters[k].oid, i)
  {
    if i > 1 {
      RowIsRepeated(next, repeaters, i - 1);
    }
  }

  /** What may differ from one request of a chain to the next. */
  datatype Limits = Limits(maxRepetitions: int, maxVarBinds: int, octets: int) {
    /** At least one repetition is asked for and allowed. */
    predicate Usable() {
      maxRepetitions >= 1 && maxVarBinds != 0
    }
  }

  /** Responses to GETBULKs with one repeater, the first from `start`, each later one from the last OID before. */
  ghost predicate IsChain(next: Next, size: VarBind -> Octets, start: Oid, limits: seq<Limits>, rsps: seq<seq<VarBind>>)
    decreases |rsps|
  {
    && |rsps| == |limits|
    && (rsps != [] ==>
          var m := RowCount(limits[0].maxRepetitions, limits[0].maxVarBinds, 1, limits[0].octets);
          && IsLongestFit(rsps[0], Ideal(Each(next), [VarBind(start, NoSuchInstance)], 0, m), size, limits[0].octets, 1)
          && IsChain(next, size, if rsps[0] == [] then start else rsps[0][|rsps[0]| - 1].oid, limits[1..], rsps[1..]))
  }

  function Flatten(rsps: seq<seq<VarBind>>): seq<VarBind> {
    if rsps == [] then [] else rsps[0] + Flatten(rsps[1..])
  }

  /** `n` GETNEXTs in a row, past endOfMib if need be. */
  function Steps(next: Next, oid: Oid, n: nat): (steps: seq<VarBind>)
    ensures |steps| == n
    ensures forall i :: 0 <= i < n ==> steps[i] == Repeated(next, oid, i + 1)
  {
    seq(n, i requires 0 <= i < n => Repeated(next, oid, i + 1))
  }

  /** What comes before the first endOfMib. */
  function UntilEnd(binds: seq<VarBind>): seq<VarBind> {
    if binds == [] || binds[0].value.EndOfMib? then [] else [binds[0]] + UntilEnd(binds[1..])
  }

  lemma {:induction false} RowsOfOne(next: Next, start: VarBind, m: nat)
    ensures Rows(Each(next), [start], m) == Steps(next, start.oid, m)
  {
    if m > 0 {
      RowsOfOne(next, start, m - 1);
      RowIsRepeated(next, [start], m);
    }
  }

  lemma {:induction false} RepeatedAdds(next: Next, oid: Oid, a: nat, b: nat)
    requires a >= 1 && b >= 1
    ensures Repeated(next, oid, a + b) == Repeated(next, Repeated(next, oid, a).oid, b)
  {
    if b > 1 {
      RepeatedAdds(next, oid, a, b - 1);
    }
  }

  lemma StepsJoin(next: Next, oid: Oid, a: nat, b: nat)
    requires a >= 1
    ensures Steps(next, oid, a) + Steps(next, Repeated(next, oid, a).oid, b) == Steps(next, oid, a + b)
  {
    forall i | 0 <= i < b
      ensures Steps(next, Repeated(next, oid, a).oid, b)[i] == Steps(next, oid, a + b)[a + i]
    {
      RepeatedAdds(next, oid, a, i + 1);
    }
  }

  lemma IdealIsSteps(next: Next, start: Oid, m: nat)
    ensures Ideal(Each(next), [VarBind(start, NoSuchInstance)], 0, m) == Steps(next, start, m)
  {
    hide Rows, Steps;
    var bind := VarBind(start, NoSuchInstance);
    assert [bind][0..] == [bind];
    RowsOfOne(next, bind, m);
    assert Each(next)([bind][..0]) == [];
  }

  lemma PrefixOfSteps(next: Next, start: Oid, m: nat, rsp: seq<VarBind>)
    requires rsp <= Steps(next, start, m)
    ensures rsp == Steps(next, start, |rsp|)
    ensures rsp != [] ==> rsp[|rsp| - 1].oid == Repeated(next, start, |rsp|).oid
  {}

  lemma UsableCount(l: Limits)
    requires l.Usable()
    ensures RowCount(l.maxRepetitions, l.maxVarBinds, 1, l.octets) >= 1
  {}

  lemma ResponseIsSteps(next: Next, size: VarBind -> Octets, start: Oid, l: Limits, rsp: seq<VarBind>)
    requires l.Usable()
    requires var m := RowCount(l.maxRepetitions, l.maxVarBinds, 1, l.octets);
             IsLongestFit(rsp, Ideal(Each(next), [VarBind(start, NoSuchInstance)], 0, m), size, l.octets, 1)
    ensures |rsp| >= 1 && rsp == Steps(next, start, |rsp|) && rsp[|rsp| - 1].oid == Repeated(next, start, |rsp|).oid
  {
    hide Ideal, RowCount, Size, Repeated;
    var m := RowCount(l.maxRepetitions, l.maxVarBinds, 1, l.octets);
    UsableCount(l);
    IdealIsSteps(next, start, m);
    PrefixOfSteps(next, start, m, rsp);
  }

  /** Whatever the limits are and however they change, a chain never skips or repeats a step, and
      every request makes at least one. */
  lemma {:induction false} ChainIsSteps(next: Next, size: VarBind -> Octets, start: Oid,
                                        limits: seq<Limits>, rsps: seq<seq<VarBind>>)
    requires IsChain(next, size, start, limits, rsps)
    requires forall l :: l in limits ==> l.Usable()
    ensures Flatten(rsps) == Steps(next, start, |Flatten(rsps)|)
    ensures |Flatten(rsps)| >= |rsps|
    decreases |rsps|
  {
    if rsps != [] {
      var rsp := rsps[0];
      ResponseIsSteps(next, size, start, limits[0], rsp);
      var last := rsp[|rsp| - 1].oid;
      ChainIsSteps(next, size, last, limits[1..], rsps[1..]);
      StepsJoin(next, start, |rsp|, |Flatten(rsps[1..])|);
    }
  }

  lemma StepsFromFront(next: Next, oid: Oid, n: nat)
    requires n >= 1
    ensures Steps(next, oid, n) == [next(oid)] + Steps(next, next(oid).oid, n - 1)
  {
    StepsJoin(next, oid, 1, n - 1);
    assert Steps(next, oid, 1) == [next(oid)];
  }

  lemma {:induction false} WalkIsSteps(next: Next, oid: Oid, n: nat)
    ensures Walk(next, oid, n) == UntilEnd(Steps(next, oid, n))
    decreases n
  {
    if n > 0 {
      StepsFromFront(next, oid, n);
      WalkIsSteps(next, next(oid).oid, n - 1);
      assert Steps(next, oid, n)[1..] == Steps(next, next(oid).oid, n - 1);
    }
  }

  /** A chain of GETBULKs delivers, up to the first endOfMib, exactly what a walk with as many GETNEXTs does. */
  lemma ChainIsWalk(next: Next, size: VarBind -> Octets, start: Oid, limits: seq<Limits>, rsps: seq<seq<VarBind>>)
    requires IsChain(next, size, start, limits, rsps)
    requires forall l :: l in limits ==> l.Usable()
    ensures UntilEnd(Flatten(rsps)) == Walk(next, start, |Flatten(rsps)|)
    ensures |Flatten(rsps)| >= |rsps|
  {
    ChainIsSteps(next, size, start, limits, rsps);
    WalkIsSteps(next, start, |Flatten(rsps)|);
  }

  /** A chain long enough lists the servable records above its start, once each and in order, under
      just the conditions a GETNEXT walk does. */
  lemma ChainVisitsAll(parser: TextParser, contents: Contents, c: Bytes, size: VarBind -> Octets,
                       start: Oid, limits: seq<Limits>, rsps: seq<seq<VarBind>>)
    requires Sorted(parser, c)
    requires IsChain(o => GetNext(parser, contents, c, o), size, start, limits, rsps)
    requires forall l :: l in limits ==> l.Usable()
    requires |rsps| > |ServedFrom(parser, contents, c, Cut(parser, c, start))|
    ensures UntilEnd(Flatten(rsps)) == ServedFrom(parser, contents, c, Cut(parser, c, start))
            <==> IsWalkable(parser, contents, c, start)
  {
    ChainIsWalk(o => GetNext(parser, contents, c, o), size, start, limits, rsps);
    WalkVisitsAll(parser, contents, c, start, |Flatten(rsps)|);
  }
}
