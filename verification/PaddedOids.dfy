/** OID texts padded with spaces, as database keys: their text order is the order of OIDs. */
module PaddedOids {
  import opened Oids
  import opened Texts
  import opened OidTexts

  const WIDTH: nat := 10

  function Spaces(n: nat): (s: Bytes)
    ensures |s| == n && forall i :: 0 <= i < n ==> s[i] == SPACE
  {
    seq(n, i => SPACE)
  }

  /** "%10s": right-justified in ten columns; longer texts stay as they are. */
  function Pad(d: Bytes): Bytes {
    if |d| < WIDTH then Spaces(WIDTH - |d|) + d else d
  }

  function PadAll(parts: seq<Bytes>): (r: seq<Bytes>)
    ensures |r| == |parts| && forall i :: 0 <= i < |r| ==> r[i] == Pad(parts[i])
  {
    seq(|parts|, i requires 0 <= i < |parts| => Pad(parts[i]))
  }

  /** The key of an OID: its sub-identifiers padded one by one. */
  function SqlOid(oid: Oid): Bytes {
    Join(PadAll(Split(OidText(oid), DOT)), DOT)
  }

  function StripAll(parts: seq<Bytes>): (r: seq<Bytes>)
    ensures |r| == |parts| && forall i :: 0 <= i < |r| ==> r[i] == Strip(parts[i])
  {
    seq(|parts|, i requires 0 <= i < |parts| => Strip(parts[i]))
  }

  /** The OID read back from a key. */
  function OidOfSql(key: Bytes): Oid {
    OidOfText(Join(StripAll(Split(key, DOT)), DOT))
  }

  const LIMIT: nat := 10000000000

  /** Every sub-identifier has at most ten decimal digits, as all those of 32 bits have. */
  predicate Fits(oid: Oid) {
    forall n :: n in oid ==> n < LIMIT
  }

  /** A number in `w` columns, zero as blank. */
  function Fill(w: nat, n: nat): (s: Bytes)
    ensures |s| == w
  {
    if w == 0 then [] else if n == 0 then Spaces(w) else Fill(w - 1, n / 10) + [48 + n % 10]
  }

  function Power10(w: nat): nat {
    if w == 0 then 1 else 10 * Power10(w - 1)
  }

  lemma {:induction false} DecimalFills(w: nat, n: nat)
    requires 0 < n < Power10(w)
    ensures |Decimal(n)| <= w && Spaces(w - |Decimal(n)|) + Decimal(n) == Fill(w, n)
  {
    if n < 10 {
      assert Fill(w, n) == Fill(w - 1, 0) + [48 + n];
    } else {
      DecimalFills(w - 1, n / 10);
    }
  }

  /** One padded sub-identifier. */
  function Field(n: nat): Bytes {
    Pad(Decimal(n))
  }

  lemma FieldFills(n: nat)
    requires n < LIMIT
    ensures Field(n) == if n == 0 then Fill(9, 0) + [48] else Fill(10, n)
    ensures |Field(n)| == 10
  {
    assert Power10(10) == LIMIT by {
      assert Power10(4) == 10000;
      assert Power10(7) == 10000000;
    }
    if n > 0 {
      DecimalFills(10, n);
      assert Spaces(0) + Decimal(n) == Decimal(n);
    }
  }

  /** Two texts of one length that differ first where `a` has the smaller byte. */
  ghost predicate Before(a: Bytes, b: Bytes) {
    |a| == |b| && exists k :: 0 <= k < |a| && a[..k] == b[..k] && a[k] < b[k]
  }

  lemma BeforeExtends(a: Bytes, b: Bytes, x: Byte, y: Byte)
    requires Before(a, b) || (a == b && x < y)
    ensures Before(a + [x], b + [y])
  {
    var k := if a == b then |a| else var j :| 0 <= j < |a| && a[..j] == b[..j] && a[j] < b[j]; j;
    assert (a + [x])[..k] == a[..k] && (b + [y])[..k] == b[..k];
  }

  lemma {:induction false} FillOrder(w: nat, m: nat, n: nat)
    requires m < n < Power10(w)
    ensures Before(Fill(w, m), Fill(w, n))
  {
    var x := if m == 0 then SPACE else 48 + m % 10;
    assert Fill(w, m) == Fill(w - 1, m / 10) + [x];
    if m / 10 < n / 10 {
      FillOrder(w - 1, m / 10, n / 10);
    }
    BeforeExtends(Fill(w - 1, m / 10), Fill(w - 1, n / 10), x, 48 + n % 10);
  }

  lemma FieldOrder(m: nat, n: nat)
    requires m < n < LIMIT
    ensures Before(Field(m), Field(n)) && Before(Spaces(10), Field(n))
  {
    FieldFills(m);
    FieldFills(n);
    assert Power10(10) == LIMIT by {
      assert Power10(4) == 10000;
      assert Power10(7) == 10000000;
    }
    assert Fill(10, 0) == Spaces(10);
    FillOrder(10, 0, n);
    if m > 0 {
      FillOrder(10, m, n);
    } else {
      if n / 10 > 0 {
        FillOrder(9, 0, n / 10);
      }
      BeforeExtends(Fill(9, 0), Fill(9, n / 10), 48, 48 + n % 10);
    }
  }

  lemma {:induction false} BeforeIsLess(a: Bytes, b: Bytes, x: Bytes, y: Bytes)
    requires Before(a, b)
    ensures Less(a + x, b + y)
  {
    var k :| 0 <= k < |a| && a[..k] == b[..k] && a[k] < b[k];
    assert (a + x)[1..] == a[1..] + x && (b + y)[1..] == b[1..] + y;
    if k > 0 {
      assert a[0] == a[..k][0] == b[0];
      assert a[1..][..k - 1] == a[..k][1..] && b[1..][..k - 1] == b[..k][1..];
      BeforeIsLess(a[1..], b[1..], x, y);
    }
  }

  lemma {:induction false} CommonPrefix(a: Bytes, x: Bytes, y: Bytes)
    ensures Less(a + x, a + y) <==> Less(x, y)
  {
    if a == [] {
      assert a + x == x && a + y == y;
    } else {
      assert (a + x)[1..] == a[1..] + x && (a + y)[1..] == a[1..] + y;
      CommonPrefix(a[1..], x, y);
    }
  }

  lemma SqlOidIs(oid: Oid)
    ensures oid == [] ==> SqlOid(oid) == Spaces(10)
    ensures |oid| == 1 ==> SqlOid(oid) == Field(oid[0])
    ensures |oid| > 1 ==> SqlOid(oid) == Field(oid[0]) + [DOT] + SqlOid(oid[1..])
  {
    if oid == [] {
      assert Split([], DOT) == [[]] && Spaces(10) + [] == Spaces(10);
      assert PadAll([[]]) == [Spaces(10)];
    } else {
      PartsHaveNoDot(oid);
      SplitJoin(Parts(oid), DOT);
      if |oid| > 1 {
        PartsHaveNoDot(oid[1..]);
        SplitJoin(Parts(oid[1..]), DOT);
        assert Parts(oid)[1..] == Parts(oid[1..]);
        assert PadAll(Parts(oid))[1..] == PadAll(Parts(oid[1..]));
      }
    }
  }

  lemma BlankFirst(n: nat)
    requires n < LIMIT
    ensures Before(Spaces(10), Field(n))
  {
    FieldFills(n);
    if n > 0 {
      FieldOrder(0, n);
    } else {
      assert Spaces(10)[..9] == Field(0)[..9];
      assert Spaces(10)[9] < Field(0)[9];
    }
  }

  lemma {:induction false} PaddingKeepsLess(a: Oid, b: Oid)
    requires Fits(a) && Fits(b) && Less(a, b)
    ensures Less(SqlOid(a), SqlOid(b))
  {
    hide SqlOid, Field, Before;
    SqlOidIs(a);
    SqlOidIs(b);
    assert b[0] in b && forall n :: n in b[1..] ==> n in b;
    assert a != [] ==> a[0] in a && forall n :: n in a[1..] ==> n in a;
    var x := if |a| > 1 then [DOT] + SqlOid(a[1..]) else [];
    var y := if |b| > 1 then [DOT] + SqlOid(b[1..]) else [];
    assert SqlOid(b) == Field(b[0]) + y;
    if a == [] {
      BlankFirst(b[0]);
      assert Spaces(10) + [] == Spaces(10);
      BeforeIsLess(Spaces(10), Field(b[0]), [], y);
    } else {
      assert SqlOid(a) == Field(a[0]) + x;
      if a[0] < b[0] {
        FieldOrder(a[0], b[0]);
        BeforeIsLess(Field(a[0]), Field(b[0]), x, y);
      } else {
        if |a| > 1 {
          PaddingKeepsLess(a[1..], b[1..]);
          CommonPrefix([DOT], SqlOid(a[1..]), SqlOid(b[1..]));
        }
        CommonPrefix(Field(a[0]), x, y);
      }
    }
  }

  /** Padding is an order isomorphism on OIDs whose sub-identifiers have at most ten digits. */
  lemma PaddingKeepsOrder(a: Oid, b: Oid)
    requires Fits(a) && Fits(b)
    ensures Less(SqlOid(a), SqlOid(b)) <==> Less(a, b)
    ensures SqlOid(a) == SqlOid(b) <==> a == b
  {
    LessTotal(a, b);
    LessIrreflexive(SqlOid(a));
    if Less(a, b) {
      PaddingKeepsLess(a, b);
    } else if Less(b, a) {
      PaddingKeepsLess(b, a);
      LessAsymmetric(SqlOid(b), SqlOid(a));
    }
  }

  lemma {:induction false} SpacesTrimmed(n: nat, d: Bytes)
    requires d != [] && forall b :: b in d ==> IsDigit(b)
    ensures Strip(Spaces(n) + d) == d
  {
    assert d[0] in d && d[|d| - 1] in d;
    if n == 0 {
      assert Spaces(0) + d == d;
      TrimKeeps(d, IsSpace);
    } else {
      assert (Spaces(n) + d)[1..] == Spaces(n - 1) + d;
      SpacesTrimmed(n - 1, d);
    }
  }

  lemma PadStrips(n: nat)
    ensures Strip(Pad(Decimal(n))) == Decimal(n) && DOT !in Pad(Decimal(n))
  {
    var d := Decimal(n);
    SpacesTrimmed(if |d| < WIDTH then WIDTH - |d| else 0, d);
    assert Spaces(0) + d == d;
  }

  lemma {:induction false} BlankStrips(n: nat)
    ensures TrimLeft(Spaces(n), IsSpace) == []
  {
    if n > 0 {
      assert Spaces(n)[1..] == Spaces(n - 1);
      BlankStrips(n - 1);
    }
  }

  lemma BlankKeyIsEmptyOid()
    ensures OidOfSql(SqlOid([])) == []
  {
    SqlOidIs([]);
    FindIs(Spaces(10), DOT, 0, 10);
    assert Split(Spaces(10), DOT) == [Spaces(10)];
    BlankStrips(10);
    assert StripAll([Spaces(10)]) == [[]];
    OidTextRoundTrip([]);
  }

  /** Stripping the parts of a key gives back its OID, however long its sub-identifiers are. */
  lemma UnpaddingInverts(oid: Oid)
    ensures OidOfSql(SqlOid(oid)) == oid
  {
    hide Strip, Decimal;
    if oid == [] {
      BlankKeyIsEmptyOid();
    } else {
      var parts := Parts(oid);
      PartsHaveNoDot(oid);
      SplitJoin(parts, DOT);
      forall i | 0 <= i < |parts|
        ensures Strip(PadAll(parts)[i]) == parts[i] && DOT !in PadAll(parts)[i]
      {
        PadStrips(oid[i]);
      }
      SplitJoin(PadAll(parts), DOT);
      assert StripAll(PadAll(parts)) == parts;
      OidTextRoundTrip(oid);
    }
  }

  /** `n` with `k` zeros behind it. */
  function Scaled(n: nat, k: nat): nat {
    if k == 0 then n else 10 * Scaled(n, k - 1)
  }

  lemma {:induction false} ScaledText(n: nat, k: nat)
    requires 0 < n < 10
    ensures Scaled(n, k) > 0 && Decimal(Scaled(n, k))[0] == 48 + n && |Decimal(Scaled(n, k))| == k + 1
  {
    if k > 0 {
      ScaledText(n, k - 1);
      var m := Scaled(n, k - 1);
      assert (10 * m) / 10 == m && (10 * m) % 10 == 0;
    }
  }

  ghost predicate OrderKeptBelow(limit: nat) {
    forall a: Oid, b: Oid :: (forall n :: n in a || n in b ==> n < limit) ==>
        (Less(SqlOid(a), SqlOid(b)) <==> Less(a, b))
  }

  lemma ElevenDigitsSortFirst()
    ensures Less(SqlOid([LIMIT]), SqlOid([2000000000]))
  {
    hide Decimal;
    SqlOidIs([LIMIT]);
    SqlOidIs([2000000000]);
    assert Scaled(1, 4) == 10000 && Scaled(1, 7) == 10000000 && Scaled(1, 10) == LIMIT;
    assert Scaled(2, 4) == 20000 && Scaled(2, 7) == 20000000 && Scaled(2, 9) == 2000000000;
    ScaledText(1, 10);
    ScaledText(2, 9);
  }

  /** Ten digits are the exact limit: one sub-identifier more and text order is no longer OID order. */
  lemma TenDigitsAreTheLimit(limit: nat)
    ensures OrderKeptBelow(limit) <==> limit <= 10000000000
  {
    hide Decimal, SqlOid;
    if limit <= LIMIT {
      forall a: Oid, b: Oid | forall n :: n in a || n in b ==> n < limit
        ensures Less(SqlOid(a), SqlOid(b)) <==> Less(a, b)
      {
        PaddingKeepsOrder(a, b);
      }
    } else {
      ElevenDigitsSortFirst();
      var a: Oid, b: Oid := [LIMIT], [2000000000];
      assert forall n :: n in a || n in b ==> n < limit;
      assert Less(SqlOid(a), SqlOid(b)) && !Less(a, b);
    }
  }
}
