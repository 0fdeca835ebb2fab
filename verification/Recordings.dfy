/** Recordings: text files whose lines are records, comments or blanks, read with the
    grammar of one record type. */
module Recordings {
  import opened Wrappers
  import opened Oids
  import opened Texts
  import opened OidTexts
  import opened TextFiles

  /** What a grammar splits a record line into. */
  datatype Fields = Fields(oid: Bytes, tag: Bytes, value: Bytes)

  /** A record type: its grammar, and its reading of the OID field. */
  datatype TextParser = TextParser(parse: Bytes -> Option<Fields>, evaluateOid: Bytes -> Option<Oid>) {
    /** `evaluate(line, oidOnly=True)`; None stands for the exceptions it may raise. */
    function Evaluate(line: Bytes): Option<Oid> {
      match parse(line)
      case None => None
      case Some(f) => evaluateOid(f.oid)
    }

    /** A line that serves a subtree: its tag field starts with a colon. */
    predicate IsSubtree(line: Bytes) {
      var f := parse(line);
      f.Some? && f.value.tag != [] && f.value.tag[0] == COLON
    }
  }

  /** Comment and blank lines. */
  predicate IsNoise(line: Bytes) {
    var t := Strip(line);
    t == [] || t[0] == HASH
  }

  /** Behind its first `k` bytes, all of them white space, the line is at its end or a comment. */
  predicate IsPassedBehind(line: Bytes, k: nat) {
    && k <= |line| && (forall i :: 0 <= i < k ==> 9 <= line[i] <= 13 || line[i] == 32)
    && (k == |line| || line[k] == 35)
  }

  /** White space bytes are 9 to 13 and 32, and a comment starts with byte 35 behind any number of them. */
  lemma {:induction false} NoiseIff(line: Bytes)
    ensures IsNoise(line) <==> exists k: nat :: IsPassedBehind(line, k)
    decreases |line|
  {
    if line == [] {
      assert IsPassedBehind(line, 0);
    } else if IsSpace(line[0]) {
      NoiseIff(line[1..]);
      forall k: nat | IsPassedBehind(line[1..], k)
        ensures IsPassedBehind(line, k + 1)
      {
        assert forall i :: 0 < i < k + 1 ==> line[i] == line[1..][i - 1];
      }
      forall k: nat | IsPassedBehind(line, k)
        ensures k > 0 && IsPassedBehind(line[1..], k - 1)
      {}
    } else {
      KeepsFirst(line, IsSpace);
      assert TrimLeft(line, IsSpace) == line;
      assert line[0] == 35 ==> IsPassedBehind(line, 0);
    }
  }

  predicate IsRecordLine(line: Bytes) {
    IsWholeLine(line) && !IsNoise(line)
  }

  predicate IsRecord(c: Bytes, s: nat) {
    s < |c| && IsLineStart(c, s) && !IsNoise(Line(c, s))
  }

  /** The record before offset `p`: the greatest record start below it, or -1. */
  function PrevRecord(c: Bytes, p: nat): (q: int)
    ensures -1 <= q < p
    ensures 0 <= q ==> IsRecord(c, q)
    ensures forall s: nat :: q < s < p ==> !IsRecord(c, s)
  {
    if p == 0 then -1 else if IsRecord(c, p - 1) then p - 1 else PrevRecord(c, p - 1)
  }

  /** Where the first line at or behind `p` that is neither comment nor blank starts. */
  function RecordAt(c: Bytes, p: nat): (s: nat)
    ensures p <= s && (p <= |c| ==> s <= |c|)
    ensures s < |c| ==> !IsNoise(Line(c, s))
    decreases |c| - p
  {
    if p >= |c| || !IsNoise(Line(c, p)) then p else RecordAt(c, LineEnd(c, p))
  }

  /** Number of lines read on the way through the record found from `p`. */
  function LinesRead(c: Bytes, p: nat): nat
    decreases |c| - p
  {
    if p >= |c| then 0 else if IsNoise(Line(c, p)) then 1 + LinesRead(c, LineEnd(c, p)) else 1
  }

  function OidOf(parser: TextParser, line: Bytes): Oid {
    match parser.Evaluate(line)
    case None => []
    case Some(oid) => oid
  }

  function OidAt(parser: TextParser, c: Bytes, s: nat): Oid {
    OidOf(parser, Line(c, s))
  }

  /** Every record has an OID. */
  ghost predicate Readable(parser: TextParser, c: Bytes) {
    forall s: nat :: IsRecord(c, s) ==> parser.Evaluate(Line(c, s)).Some?
  }

  /** Every record has a tag and spells its OID in canonical dotted decimal. */
  ghost predicate Canonical(parser: TextParser, c: Bytes) {
    forall s: nat :: IsRecord(c, s) ==>
      var f := parser.parse(Line(c, s));
      f.Some? && f.value.tag != [] && f.value.oid == OidText(OidAt(parser, c, s))
  }

  /** Records are in strictly ascending OID order: sorted, and no OID twice. */
  ghost predicate Sorted(parser: TextParser, c: Bytes) {
    forall s: nat, t: nat :: IsRecord(c, s) && IsRecord(c, t) && s < t ==>
        Less(OidAt(parser, c, s), OidAt(parser, c, t))
  }

  /** `r` is the first record whose OID is not below `oid`, or the end of the file when there is none. */
  ghost predicate IsFirstAtLeast(parser: TextParser, c: Bytes, oid: Oid, r: nat) {
    && (r == |c| || (IsRecord(c, r) && !Less(OidAt(parser, c, r), oid)))
    && (forall s: nat :: IsRecord(c, s) && s < r ==> Less(OidAt(parser, c, s), oid))
  }

  /** From a boundary, sequential reading finds the first record there is. */
  lemma {:induction false} RecordAtIsFirst(c: Bytes, p: nat)
    requires IsBoundary(c, p)
    ensures IsBoundary(c, RecordAt(c, p))
    ensures RecordAt(c, p) < |c| ==> IsRecord(c, RecordAt(c, p))
    ensures forall s: nat :: IsRecord(c, s) && p <= s ==> RecordAt(c, p) <= s
    decreases |c| - p
  {
    if p < |c| && IsNoise(Line(c, p)) {
      RecordAtIsFirst(c, LineEnd(c, p));
    }
  }

  /** Sequential reading passes over a line if and only if that holds nothing but white space, or
      white space and a comment. */
  lemma ReadingPassesOver(c: Bytes, p: nat)
    requires p < |c|
    ensures RecordAt(c, p) != p <==> exists k: nat :: IsPassedBehind(c[p..LineEnd(c, p)], k)
  {
    hide IsNoise, IsPassedBehind;
    assert Line(c, p) == c[p..LineEnd(c, p)];
    NoiseIff(Line(c, p));
    assert IsNoise(Line(c, p)) ==> RecordAt(c, p) == RecordAt(c, LineEnd(c, p)) > p;
  }

  /** How many ends of line there are from one offset to another. */
  function LineEnds(c: Bytes, p: nat, q: nat): nat
    requires p <= q <= |c|
  {
    multiset(c[p..q])[10]
  }

  lemma LineEndsAdd(c: Bytes, p: nat, q: nat, r: nat)
    requires p <= q <= r <= |c|
    ensures LineEnds(c, p, r) == LineEnds(c, p, q) + LineEnds(c, q, r)
  {
    assert c[p..r] == c[p..q] + c[q..r];
  }

  lemma OneLineEnd(c: Bytes, p: nat)
    requires p < |c| && LineEnd(c, p) < |c|
    ensures LineEnds(c, p, LineEnd(c, p)) == 1
  {
    var e := LineEnd(c, p);
    assert c[p..e] == c[p..e - 1] + [c[e - 1]];
    forall i | p <= i < e - 1
      ensures c[i] != 10
    {
      assert !IsLineStart(c, i + 1);
    }
  }

  lemma NoLineEnds(c: Bytes, p: nat)
    requires p <= |c|
    ensures LineEnds(c, p, p) == 0
  {
    assert c[p..p] == [];
  }

  /** The lines read on the way to a record and with it: one for every end of line before it, and its own. */
  lemma {:induction false} LinesReadCounts(c: Bytes, p: nat)
    requires p <= |c|
    ensures RecordAt(c, p) < |c| ==> LinesRead(c, p) == LineEnds(c, p, RecordAt(c, p)) + 1
    decreases |c| - p
  {
    hide LineEnd, IsNoise, Line, LineEnds;
    if p < |c| && IsNoise(Line(c, p)) {
      var e := LineEnd(c, p);
      LinesReadCounts(c, e);
      if RecordAt(c, e) < |c| {
        OneLineEnd(c, p);
        LineEndsAdd(c, p, e, RecordAt(c, e));
      }
    } else if p < |c| {
      assert LineEnds(c, p, p) == 0 by { NoLineEnds(c, p); }
    }
  }

  lemma RecordAtMonotone(c: Bytes, p: nat, q: nat)
    requires IsBoundary(c, p) && IsBoundary(c, q) && p <= q
    ensures RecordAt(c, p) <= RecordAt(c, q)
  {
    RecordAtIsFirst(c, p);
    RecordAtIsFirst(c, q);
  }

  lemma FirstAtLeastUnique(parser: TextParser, c: Bytes, oid: Oid, q: nat, r: nat)
    requires IsFirstAtLeast(parser, c, oid, q) && IsFirstAtLeast(parser, c, oid, r)
    ensures q == r
  {}

  lemma LineAfterRecord(c: Bytes, s: nat)
    requires IsRecord(c, s)
    ensures s < LineEnd(c, s) <= |c| && IsBoundary(c, LineEnd(c, s))
  {}

  /** The record right behind `s`, or the end of the file. */
  function After(c: Bytes, s: nat): nat {
    RecordAt(c, LineEnd(c, s))
  }
}
