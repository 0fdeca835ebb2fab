/** The dotted decimal text of an object identifier and its inverse. */
module OidTexts {
  import opened Oids
  import opened Texts

  const PLUS: Byte := 43

  const MINUS: Byte := 45

  const UNDERSCORE: Byte := 95

  function Decimal(n: nat): (d: Bytes)
    ensures d != []
    ensures forall b :: b in d ==> IsDigit(b)
  {
    if n < 10 then [48 + n] else Decimal(n / 10) + [48 + n % 10]
  }

  /** The number the digits of a text denote. */
  function Number(d: Bytes): nat {
    if d == [] then 0
    else
      var n, last := Number(d[..|d| - 1]), d[|d| - 1];
      if IsDigit(last) then 10 * n + (last - 48) else n
  }

  /** Digits, with single underscores between them. */
  predicate IsNumeral(d: Bytes) {
    d != [] && IsDigit(d[0]) && (|d| == 1 || IsNumeral(if d[1] == UNDERSCORE then d[2..] else d[1..]))
  }

  /** What Python's `int` reads: a numeral between blanks, with a plus sign or not. */
  predicate IsInteger(text: Bytes) {
    var t := StripText(text);
    IsNumeral(if t != [] && t[0] == PLUS then t[1..] else t)
  }

  function Parts(oid: Oid): (ps: seq<Bytes>)
    ensures |ps| == |oid|
    ensures forall i :: 0 <= i < |oid| ==> ps[i] == Decimal(oid[i])
  {
    seq(|oid|, i requires 0 <= i < |oid| => Decimal(oid[i]))
  }

  /** `str(oid)`. */
  function OidText(oid: Oid): Bytes {
    Join(Parts(oid), DOT)
  }

  function NumbersOf(parts: seq<Bytes>): Oid {
    if parts == [] then []
    else (if parts[0] == [] then [] else [Number(parts[0])]) + NumbersOf(parts[1..])
  }

  /** What pyasn1 makes of a dotted text: the numbers between the dots, empty parts dropped. */
  function OidOfText(text: Bytes): Oid {
    NumbersOf(Split(text, DOT))
  }

  /** Whether pyasn1 reads the text as an OID at all. */
  predicate IsOidText(text: Bytes) {
    MINUS !in text && forall p :: p in Split(text, DOT) ==> p == [] || IsInteger(p)
  }

  lemma {:induction false} DigitsAreNumeral(d: Bytes)
    requires d != [] && forall b :: b in d ==> IsDigit(b)
    ensures IsNumeral(d)
  {
    if |d| > 1 {
      assert d[1] in d;
      DigitsAreNumeral(d[1..]);
    }
  }

  /** Digits and dots, in any order, read as an OID. */
  lemma DigitsAndDotsRead(text: Bytes)
    requires forall b :: b in text ==> IsDigit(b) || b == DOT
    ensures IsOidText(text)
  {
    SplitBytes(text, DOT);
    SplitHasNone(text, DOT);
    forall p | p in Split(text, DOT) && p != []
      ensures IsInteger(p)
    {
      assert p[0] in p && p[|p| - 1] in p;
      TrimKeeps(p, IsTextSpace);
      DigitsAreNumeral(p);
    }
  }

  lemma {:induction false} NumeralBytes(d: Bytes, b: Byte)
    requires IsNumeral(d) && b in d
    ensures IsDigit(b) || b == UNDERSCORE
  {
    if |d| > 1 && b != d[0] && b != UNDERSCORE {
      var rest := if d[1] == UNDERSCORE then d[2..] else d[1..];
      assert d == [d[0]] + d[1..];
      assert d[1] == UNDERSCORE ==> d[1..] == [UNDERSCORE] + rest;
      NumeralBytes(rest, b);
    }
  }

  lemma IntegerBytes(text: Bytes, b: Byte)
    requires IsInteger(text) && b in text
    ensures IsDigit(b) || b == PLUS || b == UNDERSCORE || IsTextSpace(b)
  {
    if !IsTextSpace(b) {
      TrimHolds(text, IsTextSpace, b);
      var t := StripText(text);
      var d := if t != [] && t[0] == PLUS then t[1..] else t;
      assert t[0] == PLUS ==> t == [PLUS] + d;
      if b != PLUS {
        NumeralBytes(d, b);
      }
    }
  }

  /** A byte that can be no part of a number spoils the text. */
  lemma OtherBytesDoNot(text: Bytes, b: Byte)
    requires b in text && b != DOT && !IsDigit(b) && b != PLUS && b != UNDERSCORE && !IsTextSpace(b)
    ensures !IsOidText(text)
  {
    var p := SplitHolds(text, DOT, b);
    if IsInteger(p) {
      IntegerBytes(p, b);
    }
  }

  lemma {:induction false} NumberOfDecimal(n: nat)
    ensures Number(Decimal(n)) == n
  {
    if 10 <= n {
      NumberOfDecimal(n / 10);
      var d := Decimal(n);
      assert d[..|d| - 1] == Decimal(n / 10);
    }
  }

  lemma {:induction false} NumbersOfParts(oid: Oid)
    ensures NumbersOf(Parts(oid)) == oid
  {
    if oid != [] {
      NumberOfDecimal(oid[0]);
      assert Parts(oid)[1..] == Parts(oid[1..]);
      NumbersOfParts(oid[1..]);
    }
  }

  lemma PartsHaveNoDot(oid: Oid)
    ensures forall p :: p in Parts(oid) ==> DOT !in p
  {}

  /** Reading the text of an OID gives the OID back. */
  lemma OidTextRoundTrip(oid: Oid)
    ensures OidOfText(OidText(oid)) == oid
  {
    if oid == [] {
      assert Split([], DOT) == [[]];
      assert NumbersOf([[]]) == [] + NumbersOf([]);
    } else {
      PartsHaveNoDot(oid);
      SplitJoin(Parts(oid), DOT);
      NumbersOfParts(oid);
    }
  }

  lemma OidTextInjective(a: Oid, b: Oid)
    requires OidText(a) == OidText(b)
    ensures a == b
  {
    OidTextRoundTrip(a);
    OidTextRoundTrip(b);
  }

  /** OID texts hold digits and dots only. */
  lemma {:induction false} OidTextBytes(oid: Oid)
    ensures forall b :: b in OidText(oid) ==> IsDigit(b) || b == DOT
    decreases |oid|
  {
    if |oid| >= 2 {
      assert Parts(oid)[1..] == Parts(oid[1..]);
      OidTextBytes(oid[1..]);
    }
  }

  /** Other texts may read alike: a leading dot makes no difference to the OID, but it does to the text. */
  lemma LeadingDotReadsAlike(oid: Oid)
    requires oid != []
    ensures IsOidText([DOT] + OidText(oid)) && OidOfText([DOT] + OidText(oid)) == oid
    ensures [DOT] + OidText(oid) != OidText(oid)
  {
    var text := [DOT] + OidText(oid);
    OidTextBytes(oid);
    DigitsAndDotsRead(text);
    assert text[1..] == OidText(oid);
    FindIs(text, DOT, 0, 0);
    assert Split(text, DOT) == [text[..0]] + Split(OidText(oid), DOT);
    assert ([text[..0]] + Split(OidText(oid), DOT))[1..] == Split(OidText(oid), DOT);
    OidTextRoundTrip(oid);
  }
}
