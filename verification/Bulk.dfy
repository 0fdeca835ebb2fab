/** GETBULK: repetitions of GETNEXT cut to a number of variable bindings and a response size. */
module Bulk {
  import opened Requests

  /** The octets a variable binding takes on the wire: never none. */
  type Octets = n: int | n > 0 witness 1

  /** `read_next_vars`: GETNEXT on a list of variable bindings. */
  type Reader = seq<VarBind> -> seq<VarBind>

  /** It answers each variable binding with one. */
  ghost predicate KeepsLength(readNext: Reader) {
    forall binds :: |readNext(binds)| == |binds|
  }

  /** Row `i` of the repetitions: GETNEXT applied `i` times to the repeaters. */
  ghost function Row(readNext: Reader, repeaters: seq<VarBind>, i: nat): (row: seq<VarBind>)
    requires KeepsLength(readNext) && i >= 1
    ensures |row| == |repeaters|
  {
    readNext(if i == 1 then repeaters else Row(readNext, repeaters, i - 1))
  }

  /** The first `m` rows. */
  ghost function Rows(readNext: Reader, repeaters: seq<VarBind>, m: nat): (rows: seq<VarBind>)
    requires KeepsLength(readNext)
    ensures repeaters != [] ==> |rows| >= m
  {
    if m == 0 then [] else Rows(readNext, repeaters, m - 1) + Row(readNext, repeaters, m)
  }

  /** The response of section 4.2.3 of RFC 3416 with nothing cut: each non-repeater once, then `m` rows. */
  ghost function Ideal(readNext: Reader, req: seq<VarBind>, n: nat, m: nat): seq<VarBind>
    requires KeepsLength(readNext) && n <= |req|
  {
    readNext(req[..n]) + Rows(readNext, req[n..], m)
  }

  function Size(size: VarBind -> Octets, binds: seq<VarBind>): (total: nat)
    ensures total >= |binds|
  {
    if binds == [] then 0 else Size(size, binds[..|binds| - 1]) + size(binds[|binds| - 1])
  }

  /** `rsp` is the longest prefix of `ideal` that keeps within `limit` octets, except that the
      first `kept` variable bindings stay in whatever their size. */
  ghost predicate IsLongestFit(rsp: seq<VarBind>, ideal: seq<VarBind>, size: VarBind -> Octets, limit: int, kept: nat) {
    && rsp <= ideal
    && (|rsp| <= kept || Size(size, rsp) <= limit)
    && (|rsp| < |ideal| ==> |rsp| >= kept && Size(size, ideal[..|rsp| + 1]) > limit)
  }

  lemma {:induction false} SizeGrows(size: VarBind -> Octets, binds: seq<VarBind>, i: nat, j: nat)
    requires i <= j <= |binds|
    ensures Size(size, binds[..i]) <= Size(size, binds[..j])
  {
    if i < j {
      assert binds[..j][..j - 1] == binds[..j - 1];
      SizeGrows(size, binds, i, j - 1);
    }
  }

  /** There is only one such prefix. */
  lemma LongestFitUnique(a: seq<VarBind>, b: seq<VarBind>, ideal: seq<VarBind>,
                         size: VarBind -> Octets, limit: int, kept: nat)
    requires IsLongestFit(a, ideal, size, limit, kept) && IsLongestFit(b, ideal, size, limit, kept)
    ensures a == b
  {
    assert a == ideal[..|a|] && b == ideal[..|b|];
    if |a| < |b| {
      SizeGrows(size, ideal, |a| + 1, |b|);
    } else if |b| < |a| {
      SizeGrows(size, ideal, |b| + 1, |a|);
    }
  }

  function Max(a: int, b: int): int {
    if a < b then b else a
  }

  function Min(a: int, b: int): int {
    if a < b then a else b
  }

  /** The number of non-repeaters. */
  function NonRepeaters(nonRepeaters: int, req: seq<VarBind>): (n: nat)
    ensures n <= |req|
  {
    Min(Max(nonRepeaters, 0), |req|)
  }

  /** The repetitions to go when the loop starts; negative when there is no bound. */
  function Repetitions(maxRepetitions: int, maxVarBinds: int, repeaters: nat): int {
    if repeaters > 0 then Min(Max(maxRepetitions, 0), maxVarBinds / repeaters) else Max(maxRepetitions, 0)
  }

  /** The number of rows asked for. A negative limit on variable bindings makes the count run
      away from zero and sets no bound: then as many rows as overflow any response count as asked for. */
  function RowCount(maxRepetitions: int, maxVarBinds: int, repeaters: nat, limit: int): nat {
    var m := Repetitions(maxRepetitions, maxVarBinds, repeaters);
    if m < 0 then Max(limit, 0) + 2 else m
  }

  lemma {:induction false} RowsPrefix(readNext: Reader, repeaters: seq<VarBind>, i: nat, m: nat)
    requires KeepsLength(readNext)
    requires i <= m
    ensures Rows(readNext, repeaters, i) <= Rows(readNext, repeaters, m)
  {
    if i < m {
      RowsPrefix(readNext, repeaters, i, m - 1);
    }
  }

  lemma IdealPrefix(readNext: Reader, req: seq<VarBind>, n: nat, i: nat, m: nat)
    requires KeepsLength(readNext)
    requires n <= |req| && i <= m
    ensures Ideal(readNext, req, n, i) <= Ideal(readNext, req, n, m)
    ensures |Ideal(readNext, req, n, i)| >= n
  {
    RowsPrefix(readNext, req[n..], i, m);
  }

  lemma IdealGrows(readNext: Reader, req: seq<VarBind>, n: nat, i: nat)
    requires KeepsLength(readNext)
    requires n <= |req|
    ensures Ideal(readNext, req, n, i + 1) == Ideal(readNext, req, n, i) + Row(readNext, req[n..], i + 1)
  {
    assert Rows(readNext, req[n..], i + 1) == Rows(readNext, req[n..], i) + Row(readNext, req[n..], i + 1);
  }

  /** Reading next on a row gives the next row. */
  lemma NextRow(readNext: Reader, repeaters: seq<VarBind>, i: nat)
    requires KeepsLength(readNext)
    ensures Row(readNext, repeaters, i + 1) == readNext(if i == 0 then repeaters else Row(readNext, repeaters, i))
    ensures |Row(readNext, repeaters, i + 1)| == |repeaters|
  {}

  lemma SizeAppend(size: VarBind -> Octets, binds: seq<VarBind>, b: VarBind)
    ensures Size(size, binds + [b]) == Size(size, binds) + size(b)
  {
    assert (binds + [b])[..|binds|] == binds;
  }

  lemma {:induction false} RowsOfNone(readNext: Reader, m: nat)
    requires KeepsLength(readNext)
    ensures Rows(readNext, [], m) == []
  {
    if m > 0 {
      RowsOfNone(readNext, m - 1);
    }
  }

  lemma ExtendsPrefix(a: seq<VarBind>, row: seq<VarBind>, j: nat, ideal: seq<VarBind>)
    requires a + row <= ideal && j < |row|
    ensures a + row[..j] + [row[j]] <= ideal && a + row[..j + 1] == a + row[..j] + [row[j]]
  {
    assert row[..j + 1] == row[..j] + [row[j]];
    assert a + row[..j + 1] == a + row[..j] + [row[j]];
    assert a + row[..j + 1] <= a + row;
  }

  /** A response that one more variable binding of the ideal would overfill. */
  lemma CutHere(rsp: seq<VarBind>, b: VarBind, ideal: seq<VarBind>, size: VarBind -> Octets, limit: int, kept: nat)
    requires rsp + [b] <= ideal && |rsp| >= kept
    requires |rsp| <= kept || Size(size, rsp) <= limit
    requires Size(size, rsp) + size(b) > limit
    ensures IsLongestFit(rsp, ideal, size, limit, kept)
  {
    assert ideal[..|rsp| + 1] == rsp + [b];
    SizeAppend(size, rsp, b);
  }

  /** A response cut in row `i + 1`, where one more variable binding would not fit. */
  lemma CutInRow(readNext: Reader, req: seq<VarBind>, n: nat, i: nat, j: nat, m: nat,
                 size: VarBind -> Octets, limit: int, whole: seq<VarBind>, row: seq<VarBind>, kept: nat)
    requires KeepsLength(readNext)
    requires n <= |req| && i + 1 <= m && j < |row| && row == Row(readNext, req[n..], i + 1)
    requires whole == Ideal(readNext, req, n, i) && |whole| + j >= kept
    requires |whole| + j <= kept || Size(size, whole + row[..j]) <= limit
    requires Size(size, whole + row[..j]) + size(row[j]) > limit
    ensures IsLongestFit(whole + row[..j], Ideal(readNext, req, n, m), size, limit, kept)
  {
    hide Ideal, Rows, Row, Size, IsLongestFit;
    IdealGrows(readNext, req, n, i);
    IdealPrefix(readNext, req, n, i + 1, m);
    ExtendsPrefix(whole, row, j, Ideal(readNext, req, n, m));
    CutHere(whole + row[..j], row[j], Ideal(readNext, req, n, m), size, limit, kept);
  }

  lemma CutNowhere(rsp: seq<VarBind>, size: VarBind -> Octets, limit: int, kept: nat)
    requires |rsp| <= kept || Size(size, rsp) <= limit
    ensures IsLongestFit(rsp, rsp, size, limit, kept)
  {}

  /** Appends a row of repetitions up to the first variable binding that would overfill the
      response; a response that is still empty takes one whatever its size. */
  method AppendRow(row: seq<VarBind>, rsp0: seq<VarBind>, size0: nat, limit: int, sizeOf: VarBind -> Octets)
    returns (rsp: seq<VarBind>, size: nat, full: bool)
    requires size0 == Size(sizeOf, rsp0)
    ensures |rsp0| <= |rsp| <= |rsp0| + |row| && rsp == rsp0 + row[..|rsp| - |rsp0|]
    ensures full ==> |rsp| < |rsp0| + |row| && rsp != [] && Size(sizeOf, rsp) + sizeOf(row[|rsp| - |rsp0|]) > limit
    ensures !full ==> |rsp| == |rsp0| + |row| && size == Size(sizeOf, rsp) >= size0 + |row|
    ensures rsp == rsp0 || |rsp| <= 1 || Size(sizeOf, rsp) <= limit
  {
    hide Size;
    rsp, size := rsp0, size0;
    for j := 0 to |row|
      invariant |rsp| == |rsp0| + j && rsp == rsp0 + row[..j] && size == Size(sizeOf, rsp) >= size0 + j
      invariant rsp == rsp0 || |rsp| <= 1 || size <= limit
    {
      size := size + sizeOf(row[j]);
      if size > limit && rsp != [] {
        return rsp, size, true;
      }
      SizeAppend(sizeOf, rsp, row[j]);
      assert row[..j + 1] == row[..j] + [row[j]];
      rsp := rsp + [row[j]];
    }
    full := false;
  }

  /** What the loop knows after `i` full rows, with `m` repetitions to go. */
  ghost predicate LoopState(readNext: Reader, req: seq<VarBind>, n: nat, i: nat,
                            rsp: seq<VarBind>, size: int, sizeOf: VarBind -> Octets, limit: int)
    requires KeepsLength(readNext)
    requires n <= |req|
  {
    && rsp == Ideal(readNext, req, n, i) && size == Size(sizeOf, rsp)
    && (|rsp| <= Max(n, 1) || size <= limit)
    && (n < |req| ==> |rsp| >= n + i)
  }

  lemma RowAppended(readNext: Reader, req: seq<VarBind>, n: nat, i: nat, whole: seq<VarBind>, rsp: seq<VarBind>)
    requires KeepsLength(readNext)
    requires n <= |req| && whole == Ideal(readNext, req, n, i)
    requires |rsp| == |whole| + |req| - n && rsp == whole + Row(readNext, req[n..], i + 1)[..|rsp| - |whole|]
    ensures rsp == Ideal(readNext, req, n, i + 1) && rsp[|whole|..] == Row(readNext, req[n..], i + 1)
  {
    hide Ideal, Row;
    var row := Row(readNext, req[n..], i + 1);
    assert row[..|row|] == row;
    IdealGrows(readNext, req, n, i);
  }

  lemma SizeAtLeast(size: VarBind -> Octets, binds: seq<VarBind>)
    ensures Size(size, binds) >= |binds| && Size(size, []) == 0
  {}

  /** One repetition: either the row goes in whole, or the response is cut and complete. */
  method Repeat(row: seq<VarBind>, ghost readNext: Reader, req: seq<VarBind>, n: nat, ghost i: nat,
                rsp0: seq<VarBind>, size0: nat, limit: int, sizeOf: VarBind -> Octets, ghost rows: nat)
    returns (rsp: seq<VarBind>, size: nat, full: bool)
    requires KeepsLength(readNext)
    requires n < |req| && LoopState(readNext, req, n, i, rsp0, size0, sizeOf, limit)
             && row == Row(readNext, req[n..], i + 1)
    requires i < rows || (limit + 2 <= rows && 2 <= rows)
    ensures full ==> IsLongestFit(rsp, Ideal(readNext, req, n, rows), sizeOf, limit, Max(n, 1))
    ensures !full ==> LoopState(readNext, req, n, i + 1, rsp, size, sizeOf, limit) && rsp == rsp0 + row
    ensures !full ==> size > size0 && (rsp0 == [] || size <= limit)
  {
    hide Ideal, Rows, Row, Size, IsLongestFit;
    assert |rsp0| >= n by { IdealPrefix(readNext, req, n, i, i); }
    SizeAtLeast(sizeOf, rsp0);
    rsp, size, full := AppendRow(row, rsp0, size0, limit, sizeOf);
    if full {
      CutInRow(readNext, req, n, i, |rsp| - |rsp0|, rows, sizeOf, limit, rsp0, row, Max(n, 1));
    } else {
      RowAppended(readNext, req, n, i, rsp0, rsp);
      assert row[..|row|] == row;
    }
  }

  lemma IdealOfNone(readNext: Reader, req: seq<VarBind>, n: nat)
    requires KeepsLength(readNext)
    requires n <= |req|
    ensures Ideal(readNext, req, n, 0) == readNext(req[..n]) && |Ideal(readNext, req, n, 0)| == n
    ensures n == 0 ==> Ideal(readNext, req, n, 0) == []
  {}

  lemma LoopStarts(readNext: Reader, req: seq<VarBind>, n: nat,
                   rsp: seq<VarBind>, sizeOf: VarBind -> Octets, limit: int)
    requires KeepsLength(readNext)
    requires n <= |req| && rsp == if n != 0 then readNext(req[..n]) else []
    ensures LoopState(readNext, req, n, 0, rsp, Size(sizeOf, rsp), sizeOf, limit)
  {
    IdealOfNone(readNext, req, n);
  }

  lemma IdealWithoutRepeaters(readNext: Reader, req: seq<VarBind>, m: nat)
    requires KeepsLength(readNext)
    ensures Ideal(readNext, req, |req|, m) == Ideal(readNext, req, |req|, 0)
  {
    assert req[|req|..] == [];
    RowsOfNone(readNext, m);
  }

  lemma LoopEnds(readNext: Reader, req: seq<VarBind>, n: nat, i: nat, rsp: seq<VarBind>,
                 size: int, sizeOf: VarBind -> Octets, limit: int, rows: nat)
    requires KeepsLength(readNext)
    requires n <= |req| && LoopState(readNext, req, n, i, rsp, size, sizeOf, limit)
    requires if n == |req| then i == 0 else i == rows
    ensures IsLongestFit(rsp, Ideal(readNext, req, n, rows), sizeOf, limit, Max(n, 1))
  {
    if n == |req| {
      IdealWithoutRepeaters(readNext, req, rows);
    }
    CutNowhere(rsp, sizeOf, limit, Max(n, 1));
  }

  lemma CountFacts(maxRepetitions: int, maxVarBinds: int, repeaters: nat, limit: int, n: nat)
    ensures var m := Repetitions(maxRepetitions, maxVarBinds, repeaters);
            && (repeaters == 0 ==> m >= 0)
            && RowCount(maxRepetitions, maxVarBinds, repeaters, limit) >= 0
            && (m >= 0 ==> RowCount(maxRepetitions, maxVarBinds, repeaters, limit) == m)
            && (m < 0 ==> RowCount(maxRepetitions, maxVarBinds, repeaters, limit) >= 2
                          && RowCount(maxRepetitions, maxVarBinds, repeaters, limit) >= limit + 2)
    ensures Max(n, 1) >= n && Max(n, 1) >= 1 && (Max(n, 1) == n || (n == 0 && Max(n, 1) == 1))
  {}

  /** The most rows of `r` variable bindings, up to `most`, that make up no more than `v`. */
  predicate AreMostRows(most: nat, v: int, r: nat, m: nat) {
    m <= most && m * r <= v && (m < most ==> v < (m + 1) * r)
  }

  /** What section 4.2.3 of RFC 3416 makes of the counts of a request for `size` variable bindings:
      `n` non-repeaters, none for a negative count and at most all; `m` rows, none for a negative
      count, and no more than make up the variable bindings allowed. */
  predicate AreCounts(nonRepeaters: int, maxRepetitions: int, maxVarBinds: int, size: nat, n: nat, m: nat) {
    && n <= size && (nonRepeaters <= 0 ==> n == 0) && (size <= nonRepeaters ==> n == size)
    && (0 <= nonRepeaters <= size ==> n == nonRepeaters)
    && var most := if maxRepetitions < 0 then 0 else maxRepetitions;
       if n == size then m == most else AreMostRows(most, maxVarBinds, size - n, m)
  }

  lemma TimesKeepsOrder(a: nat, b: nat, r: nat)
    ensures a <= b ==> a * r <= b * r
  {}

  lemma QuotientIs(v: nat, r: nat, m: nat)
    requires r > 0 && m * r <= v
    ensures m <= v / r
    ensures v < (m + 1) * r ==> v / r == m
  {
    var k := v / r;
    assert k * r <= v < (k + 1) * r;
    TimesKeepsOrder(k + 1, m, r);
    TimesKeepsOrder(m + 1, k, r);
  }

  lemma QuotientFits(v: nat, r: nat, m: nat)
    requires r > 0
    ensures m <= v / r ==> m * r <= v
    ensures m == v / r ==> v < (m + 1) * r
  {
    var k := v / r;
    assert k * r <= v < (k + 1) * r;
    TimesKeepsOrder(m, k, r);
  }

  lemma RowsAre(most: nat, v: nat, r: nat, m: nat)
    requires r > 0
    ensures AreMostRows(most, v, r, m) <==> m == Min(most, v / r)
  {
    QuotientFits(v, r, m);
    if m * r <= v {
      QuotientIs(v, r, m);
    }
  }

  /** With a limit on variable bindings that is not negative there are such counts, and the program finds them. */
  lemma CountsAre(nonRepeaters: int, maxRepetitions: int, maxVarBinds: int, req: seq<VarBind>,
                  limit: int, n: nat, m: nat)
    requires maxVarBinds >= 0
    ensures AreCounts(nonRepeaters, maxRepetitions, maxVarBinds, |req|, n, m)
            <==> n == NonRepeaters(nonRepeaters, req) && m == RowCount(maxRepetitions, maxVarBinds, |req| - n, limit)
  {
    hide AreMostRows;
    if n < |req| {
      RowsAre(Max(maxRepetitions, 0), maxVarBinds, |req| - n, m);
    }
  }

  /** The response for such counts: the longest fit of the non-repeaters read once and as many rows. */
  lemma ResponseIs(readNext: Reader, req: seq<VarBind>, nonRepeaters: int, maxRepetitions: int,
                   maxVarBinds: int, limit: int, size: VarBind -> Octets, rsp: seq<VarBind>)
    requires KeepsLength(readNext)
    requires var k := NonRepeaters(nonRepeaters, req);
             IsLongestFit(rsp, Ideal(readNext, req, k, RowCount(maxRepetitions, maxVarBinds, |req| - k, limit)),
                          size, limit, Max(k, 1))
    ensures maxVarBinds >= 0 ==>
              forall n: nat, m: nat | AreCounts(nonRepeaters, maxRepetitions, maxVarBinds, |req|, n, m) ::
                IsLongestFit(rsp, readNext(req[..n]) + Rows(readNext, req[n..], m), size, limit,
                             if n == 0 then 1 else n)
  {
    hide Rows, NonRepeaters, RowCount, IsLongestFit;
    forall n: nat, m: nat | AreCounts(nonRepeaters, maxRepetitions, maxVarBinds, |req|, n, m) && maxVarBinds >= 0
      ensures IsLongestFit(rsp, readNext(req[..n]) + Rows(readNext, req[n..], m), size, limit, if n == 0 then 1 else n)
    {
      CountsAre(nonRepeaters, maxRepetitions, maxVarBinds, req, limit, n, m);
    }
  }

  /** Produces the variable bindings of a GETBULK response. */
  method GetBulkVarBinds(readNext: Reader, req: seq<VarBind>, nonRepeaters: int, maxRepetitions: int,
                         maxVarBinds: int, limit: int, sizeOf: VarBind -> Octets)
    returns (rsp: seq<VarBind>)
    requires KeepsLength(readNext)
    ensures var n := NonRepeaters(nonRepeaters, req);
            var m := RowCount(maxRepetitions, maxVarBinds, |req| - n, limit);
            IsLongestFit(rsp, Ideal(readNext, req, n, m), sizeOf, limit, Max(n, 1))
    ensures maxVarBinds >= 0 ==>
              forall n: nat, m: nat | AreCounts(nonRepeaters, maxRepetitions, maxVarBinds, |req|, n, m) ::
                IsLongestFit(rsp, readNext(req[..n]) + Rows(readNext, req[n..], m), sizeOf, limit,
                             if n == 0 then 1 else n)
  {
    hide *;
    var n := NonRepeaters(nonRepeaters, req);
    var r := |req| - n;
    var m := Repetitions(maxRepetitions, maxVarBinds, r);
    ghost var rows := RowCount(maxRepetitions, maxVarBinds, r, limit);
    CountFacts(maxRepetitions, maxVarBinds, r, limit, n);
    if n != 0 {
      rsp := readNext(req[..n]);
    } else {
      rsp := [];
    }
    LoopStarts(readNext, req, n, rsp, sizeOf, limit);
    var size := Size(sizeOf, rsp);
    var binds := req[|req| - r..];
    ghost var i: nat := 0;
    while m != 0 && r != 0
      invariant m >= 0 && r != 0 ==> i + m == rows
      invariant m < 0 ==> rows >= 2 && rows >= limit + 2
      invariant LoopState(readNext, req, n, i, rsp, size, sizeOf, limit)
      invariant binds == if i == 0 then req[n..] else Row(readNext, req[n..], i)
      invariant r == 0 ==> i == 0
      decreases m >= 0, if m >= 0 then m
                else (if rsp == [] then 1 else 0) + (if limit < size then 0 else limit - size + 1)
    {
      NextRow(readNext, req[n..], i);
      var row := readNext(binds);
      var full;
      rsp, size, full := Repeat(row, readNext, req, n, i, rsp, size, limit, sizeOf, rows);
      if full {
        ResponseIs(readNext, req, nonRepeaters, maxRepetitions, maxVarBinds, limit, sizeOf, rsp);
        return;
      }
      binds := rsp[|rsp| - r..];
      m := m - 1;
      i := i + 1;
    }
    LoopEnds(readNext, req, n, i, rsp, size, sizeOf, limit, rows);
    ResponseIs(readNext, req, nonRepeaters, maxRepetitions, maxVarBinds, limit, sizeOf, rsp);
  }

  /** Of two variable bindings with the first a non-repeater and two repetitions, that is read once. */
  lemma OneNonRepeater(readNext: Reader, a: VarBind, b: VarBind, limit: int, size: VarBind -> Octets, rsp: seq<VarBind>)
    requires KeepsLength(readNext)
    requires var all := readNext([a]) + readNext([b]) + readNext(readNext([b])); Size(size, all) <= limit
    requires forall n: nat, m: nat | AreCounts(1, 2, 64, 2, n, m) ::
               IsLongestFit(rsp, readNext([a, b][..n]) + Rows(readNext, [a, b][n..], m), size, limit, 1)
    ensures rsp == readNext([a]) + readNext([b]) + readNext(readNext([b]))
  {
    hide Size;
    assert AreMostRows(2, 64, 1, 2);
    assert AreCounts(1, 2, 64, 2, 1, 2);
    assert [a, b][..1] == [a] && [a, b][1..] == [b];
    var all := readNext([a]) + readNext([b]) + readNext(readNext([b]));
    assert Rows(readNext, [b], 2) == Rows(readNext, [b], 1) + readNext(readNext([b]));
    assert Rows(readNext, [b], 1) == [] + readNext([b]);
    assert readNext([a]) + Rows(readNext, [b], 2) == all;
    CutNowhere(all, size, limit, 1);
    LongestFitUnique(rsp, all, all, size, limit, 1);
  }
}
