/** Records and recordings written out character by character. */
module WrittenOut {
  import opened Wrappers
  import opened Oids
  import opened Texts
  import opened OidTexts
  import opened TextFiles
  import opened Recordings
  import opened Indexing
  import opened Requests
  import opened Serving
  import opened Snmprec
  import opened Literals
  import opened SnmprecRoundTrips
  import opened ManageRecords
  import opened ManagedRecordings
  import opened SnmprecRecordings
  import opened FailingRecordings
  import opened PaddedOids
  import SqlTables

  /** The raw text of a backslash and one more byte: the escapes a, b, f, n, r, t, v, both quotes and
      the backslash, an x with nothing behind it, and no other. */
  lemma EscapesAre(b: Byte)
    ensures RawString([92, b]) ==
            if b == 'a' as int then Some([7]) else if b == 'b' as int then Some([8])
            else if b == 't' as int then Some([9]) else if b == 'n' as int then Some([10])
            else if b == 'v' as int then Some([11]) else if b == 'f' as int then Some([12])
            else if b == 'r' as int then Some([13]) else if b == '"' as int then Some([34])
            else if b == '\'' as int then Some([39]) else if b == '\\' as int then Some([92])
            else if b == 'x' as int then Some([]) else None
  {
    assert [92, b][1..] == [b] && [b][1..] == [];
    assert RunRaw(Text, [92, b]) == Prepend([], RunRaw(Behind, [b]));
    if EscapedChar(b).Some? {
      ReadsToken(Escaped(b));
    } else if b == LOWER_X {
      assert RunRaw(HexOpen, []) == Go(HexOpen, []);
      assert RunRaw(Behind, [b]) == Go(HexOpen, [] + []);
      PrependTwice([], [], RunRaw(HexOpen, []));
    }
  }

  /** The digit for a number below sixteen: as many places behind 0, or behind a or A, as it counts on. */
  predicate IsDigitFor(b: Byte, n: nat) {
    || (n < 10 && b == '0' as int + n)
    || (10 <= n < 16 && (b == 'a' as int + n - 10 || b == 'A' as int + n - 10))
  }

  lemma DigitsAre(b: Byte)
    ensures HexValue(b).Some? ==> IsDigitFor(b, HexValue(b).value)
    ensures forall n: nat :: IsDigitFor(b, n) ==> HexValue(b) == Some(n)
  {}

  /** A hexadecimal escape reads as its byte, digits in either case; nothing else is a digit. */
  lemma HexEscapesAre(h: Byte, l: Byte)
    ensures forall m: nat, n: nat :: IsDigitFor(h, m) && IsDigitFor(l, n) ==>
              RawString([92, 120, h, l]) == Some(if 16 * m + n == 92 then [] else [16 * m + n])
    ensures RawString([92, 120, h, l]).Some? ==>
              (exists m: nat :: IsDigitFor(h, m)) && (exists n: nat :: IsDigitFor(l, n))
  {
    hide IsDigitFor, HexValue;
    DigitsAre(h);
    DigitsAre(l);
    if HexValue(h).Some? && HexValue(l).Some? {
      ReadsToken(HexEscape(h, l));
    } else {
      var text := [92, 120, h, l];
      assert text[1..] == [120, h, l] && [120, h, l][1..] == [h, l] && [h, l][1..] == [l];
      assert RunRaw(HexHalf(h), [l]) == Error;
      assert RunRaw(HexOpen, [h, l]) == Prepend([], RunRaw(HexHalf(h), [l]));
      assert RunRaw(Behind, [120, h, l]) == Prepend([], RunRaw(HexOpen, [h, l]));
    }
  }

  lemma TextsOfOids()
    ensures OidText([1, 3, 6]) == [49, 46, 51, 46, 54] && OidText([1, 3, 60]) == [49, 46, 51, 46, 54, 48]
    ensures OidText([12, 3]) == [49, 50, 46, 51]
  {
    assert Decimal(60) == [54, 48] && Decimal(12) == [49, 50];
    assert Parts([1, 3, 6]) == [[49], [51], [54]] && [[49], [51], [54]][1..] == [[51], [54]];
    assert Parts([1, 3, 60]) == [[49], [51], [54, 48]] && [[49], [51], [54, 48]][1..] == [[51], [54, 48]];
    assert Parts([12, 3]) == [[49, 50], [51]] && [[49, 50], [51]][1..] == [[51]];
    assert [[51], [54]][1..] == [[54]] && [[51], [54, 48]][1..] == [[54, 48]];
    assert Join([[51], [54]], DOT) == [51, 46, 54] && Join([[51], [54, 48]], DOT) == [51, 46, 54, 48];
  }

  lemma PlainValue()
    ensures FormatValue(OCTET_STRING, [97, 98], false) == (OCTET_STRING, [97, 98])
  {
    assert [97, 98][1..] == [98] && [98][1..] == [];
    assert ReprBody([98], QUOTE) == [98] + [] && [98] + [] == [98];
    assert ReprBody([97, 98], QUOTE) == [97] + [98] && [97] + [98] == [97, 98];
    assert HexifyValue([97, 98]).None?;
    assert QuoteFor([97, 98]) == QUOTE;
  }

  lemma HexValues()
    ensures FormatValue(OPAQUE, [0, 255], false) == ([54, 56, 120], [48, 48, 102, 102])
  {
    assert [0, 255][1..] == [255] && [255][1..] == [];
    assert Hex([255]) == [102, 102] + [] && [102, 102] + [] == [102, 102];
    assert Hex([0, 255]) == [48, 48] + [102, 102] && [48, 48] + [102, 102] == [48, 48, 102, 102];
    assert 0 in [0, 255] && !IsAlnum(0);
    assert HexifyValue([0, 255]) == Some([48, 48, 102, 102]);
    assert OPAQUE + [LOWER_X] == [54, 56, 120];
  }

  lemma EscapedValue()
    ensures FormatValue(OCTET_STRING, [0, 92], true) == ([52, 101], [92, 120, 48, 48, 92, 92])
  {
    assert [0, 92][1..] == [92] && [92][1..] == [];
    assert ReprBody([92], QUOTE) == [92, 92] + [] && [92, 92] + [] == [92, 92];
    assert ReprByte(0, QUOTE) == [92, 120, 48, 48];
    assert ReprBody([0, 92], QUOTE) == [92, 120, 48, 48] + [92, 92];
    assert [92, 120, 48, 48] + [92, 92] == [92, 120, 48, 48, 92, 92];
    assert QuoteFor([0, 92]) == QUOTE && BACKSLASH in [92, 120, 48, 48, 92, 92];
    assert OCTET_STRING + [LOWER_E] == [52, 101];
  }

  /** 1.3.6|4|ab: text that is kept as it is. */
  lemma PlainRecord()
    ensures Record([1, 3, 6], OCTET_STRING, [97, 98], false)
            == Some([49, 46, 51, 46, 54, 124, 52, 124, 97, 98, 10])
  {
    hide OidText, FormatValue;
    TextsOfOids();
    PlainValue();
    assert [49, 46, 51, 46, 54] + [BAR] + OCTET_STRING + [BAR] + [97, 98] + [EOL]
        == [49, 46, 51, 46, 54, 124, 52, 124, 97, 98, 10];
  }

  /** 1.3.60|68x|00ff: octets in hexadecimal. */
  lemma HexRecord()
    ensures Record([1, 3, 60], OPAQUE, [0, 255], false)
            == Format(false)(Rec([1, 3, 60], Content(OPAQUE, [0, 255])))
            == Some([49, 46, 51, 46, 54, 48, 124, 54, 56, 120, 124, 48, 48, 102, 102, 10])
  {
    hide OidText, FormatValue;
    TextsOfOids();
    HexValues();
    assert [49, 46, 51, 46, 54, 48] + [BAR] + [54, 56, 120] + [BAR] + [48, 48, 102, 102] + [EOL]
        == [49, 46, 51, 46, 54, 48, 124, 54, 56, 120, 124, 48, 48, 102, 102, 10];
  }

  /** 12.3|4e|\x00\\: octets as escaped text when hexadecimal is not wanted. */
  lemma EscapedRecord()
    ensures Record([12, 3], OCTET_STRING, [0, 92], true)
            == Format(true)(Rec([12, 3], Content(OCTET_STRING, [0, 92])))
            == Some([49, 50, 46, 51, 124, 52, 101, 124, 92, 120, 48, 48, 92, 92, 10])
  {
    hide OidText, FormatValue;
    TextsOfOids();
    EscapedValue();
    assert [49, 50, 46, 51] + [BAR] + [52, 101] + [BAR] + [92, 120, 48, 48, 92, 92] + [EOL]
        == [49, 50, 46, 51, 124, 52, 101, 124, 92, 120, 48, 48, 92, 92, 10];
  }

  /** When a value is printed in hexadecimal: when that is wanted and a byte is neither letter nor digit. */
  lemma HexIsChosenIff(tag: Bytes, v: Bytes, nohex: bool)
    ensures FormatValue(tag, v, nohex).0 == tag + [120] <==>
            !nohex && exists b :: b in v && !(48 <= b <= 57 || 65 <= b <= 90 || 97 <= b <= 122)
  {
    UnhexHex(v);
    assert tag + [LOWER_E] != tag + [120] by {
      assert (tag + [LOWER_E])[|tag|] != (tag + [120])[|tag|];
    }
    assert |tag + [120]| == |tag| + 1;
  }

  /** The escaped text of a byte between quotes, which are single unless only those are in the value. */
  lemma ReprIs(v: Bytes, b: Byte)
    ensures QuoteFor(v) == if 39 in v && 34 !in v then 34 else 39
    ensures var q := QuoteFor(v);
            ReprByte(b, q) ==
            if b == q || b == 92 then [92, b] else if b == 9 then [92, 116] else if b == 10 then [92, 110]
            else if b == 13 then [92, 114] else if 32 <= b <= 126 then [b]
            else [92, 120, if b < 160 then 48 + b / 16 else 87 + b / 16,
                  if b % 16 < 10 then 48 + b % 16 else 87 + b % 16]
  {}

  /** The two texts the program looks for as they stand. */
  lemma NamesAre()
    ensures LAST == ['l' as int, 'a' as int, 's' as int, 't' as int]
    ensures SqlTables.READ_WRITE == [114, 101, 97, 100, 45, 119, 114, 105, 116, 101]
  {}

  /** The key of 1.3: ten columns for each number, filled with spaces from the left. */
  lemma KeyOfOneThree()
    ensures SqlOid([1, 3]) == [32, 32, 32, 32, 32, 32, 32, 32, 32, 49, 46, 32, 32, 32, 32, 32, 32, 32, 32, 32, 51]
  {
    assert Parts([1, 3]) == [[49], [51]] && [[49], [51]][1..] == [[51]];
    PartsHaveNoDot([1, 3]);
    SplitJoin(Parts([1, 3]), DOT);
    assert Spaces(9) == [32, 32, 32, 32, 32, 32, 32, 32, 32];
    var one := [32, 32, 32, 32, 32, 32, 32, 32, 32, 49];
    var three := [32, 32, 32, 32, 32, 32, 32, 32, 32, 51];
    assert Pad([49]) == one && Pad([51]) == three;
    assert PadAll([[49], [51]]) == [one, three] && [one, three][1..] == [three];
    assert Join([one, three], DOT) == one + [DOT] + three;
  }

  lemma OneOrTwoParts(s: Bytes)
    ensures DOT !in s ==> Split(s, DOT) == [s]
    ensures forall a, b :: s == a + [DOT] + b && DOT !in a && DOT !in b ==> Split(s, DOT) == [a, b]
  {
    if DOT !in s {
      SplitJoin([s], DOT);
    }
    forall a, b | s == a + [DOT] + b && DOT !in a && DOT !in b
      ensures Split(s, DOT) == [a, b]
    {
      assert [a, b][1..] == [b];
      SplitJoin([a, b], DOT);
    }
  }

  lemma StripsOne(b: Byte)
    ensures StripText([b]) == if IsTextSpace(b) then [] else [b]
    ensures StripText([b, 49]) == if IsTextSpace(b) then [49] else [b, 49]
    ensures StripText([49, b, 49]) == [49, b, 49]
  {
    assert [b][1..] == [] && [b, 49][1..] == [49];
    TrimKeeps([49], IsTextSpace);
    if IsTextSpace(b) {
      assert TrimLeft([b], IsTextSpace) == TrimLeft([b][1..], IsTextSpace) == [];
    } else {
      TrimKeeps([b], IsTextSpace);
      TrimKeeps([b, 49], IsTextSpace);
    }
    TrimKeeps([49, b, 49], IsTextSpace);
  }

  lemma IntegersAre(b: Byte)
    ensures IsInteger([b]) <==> IsDigit(b)
    ensures IsInteger([b, 49]) <==> IsDigit(b) || b == PLUS || IsTextSpace(b)
    ensures IsInteger([49, b, 49]) <==> IsDigit(b) || b == UNDERSCORE
  {
    hide StripText;
    StripsOne(b);
    assert [b][1..] == [] && [b, 49][1..] == [49] && [49, b, 49][1..] == [b, 49] && [49, b, 49][2..] == [49];
    assert IsNumeral([49]) && (IsNumeral([b]) <==> IsDigit(b)) && (IsNumeral([b, 49]) <==> IsDigit(b));
    assert IsNumeral([49, b, 49]) <==> IsDigit(b) || b == UNDERSCORE;
  }

  lemma OidTextIs(text: Bytes, p: Bytes, q: Bytes)
    ensures DOT !in text ==> (IsOidText(text) <==> MINUS !in text && (text == [] || IsInteger(text)))
    ensures text == p + [DOT] + q && DOT !in p && DOT !in q ==>
              (IsOidText(text) <==> MINUS !in text && (p == [] || IsInteger(p)) && (q == [] || IsInteger(q)))
  {
    hide IsInteger, Split;
    OneOrTwoParts(text);
  }

  /** Which bytes read as an OID on their own, in front of a digit, and between two. */
  lemma OidBytesAre(b: Byte)
    ensures IsOidText([b]) <==> 48 <= b <= 57 || b == 46
    ensures IsOidText([b, 49]) <==>
            48 <= b <= 57 || b == 46 || b == 43 || 9 <= b <= 13 || 28 <= b <= 32 || b == 133 || b == 160
    ensures IsOidText([49, b, 49]) <==> 48 <= b <= 57 || b == 46 || b == 95
  {
    hide IsOidText, IsInteger;
    IntegersAre(b);
    IntegersAre(49);
    assert [b] == [] + [b] + [] && [b, 49] == [] + [b] + [49] && [49, b, 49] == [49] + [b] + [49];
    OidTextIs([b], [], []);
    OidTextIs([b, 49], [], [49]);
    OidTextIs([49, b, 49], [49], [49]);
  }

  lemma OnlyBehindTheComment(comment: Bytes, line: Bytes, oid: Oid)
    requires 10 !in comment && ReadsBack(PARSER, line, oid) && !PARSER.IsSubtree(line)
    ensures var before := [35] + comment + [10];
            var c := before + line;
            && (forall s: nat :: IsRecord(c, s) <==> s == |before|) && Line(c, |before|) == line
            && Sorted(PARSER, c) && Readable(PARSER, c) && Canonical(PARSER, c) && NoSubtrees(PARSER, c)
  {
    hide LineEnd, Line;
    var before := [35] + comment + [10];
    var c := before + line;
    assert before[..|before| - 1] == [35] + comment && IsWholeLine(before);
    NoiseIff(before);
    assert IsPassedBehind(before, 0);
    EndsOnce(PARSER, line, oid);
    assert line + Blanks(0) == line;
    OnlyRecord(line, 0, 0);
    RecordsBehind(before, line);
    assert IsRecord(c, |before| + 0) && Line(c, |before| + 0) == line;
    forall s: nat
      ensures IsRecord(c, s) <==> s == |before|
    {
      if IsRecord(c, s) {
        RecordsOfTwo(before, line, s);
        if s > 0 {
          OnlyRecord(line, 0, s - |before|);
        }
      }
    }
    OidOfLine(PARSER, c, |before|, line, oid);
  }

  /** A recording of a comment line in front of the record of an octet string. */
  lemma CommentedRecord(comment: Bytes, oid: Oid, tag: Bytes, v: Bytes, nohex: bool, q: Query)
    requires 10 !in comment && oid != [] && IsOctetTag(tag) && !q.nextFlag && !q.setFlag
    ensures Record(oid, tag, v, nohex).Some?
    ensures var before := [35] + comment + [10];
            var c := before + Record(oid, tag, v, nohex).value;
            var pass := IndexPass(PARSER, c);
            && pass.Indexed? && OidText(oid) in pass.db && pass.db[OidText(oid)] == Entry(|before|, false, -1)
            && AnswerTo(PARSER, ContentOf, c, q)
               == VarBind(q.oid, if q.oid == oid then Data(Content(tag, v)) else NoSuchInstance)
  {
    hide Record, IsRecord, Line, IsNoise, PassFrom, AnswerTo, ContentOf, OidText, Sorted, Readable, Canonical;
    var r := Rec(oid, Content(tag, v));
    RecordReadsBack(r, nohex);
    var line := Record(oid, tag, v, nohex).value;
    assert Format(nohex)(r) == Some(line);
    var before := [35] + comment + [10];
    var c := before + line;
    OnlyBehindTheComment(comment, line, oid);
    RecordLineIs(c, |before|, r, nohex);
    IndexIsExact(PARSER, c, false);
    assert KeyAt(PARSER, c, |before|) == OidText(oid);
    NoBackReference(PARSER, c, |before|);
    GetReadsTheMap(PARSER, ContentOf, c, q, map[oid := Content(tag, v)]);
  }

  /** A line with two bars: what is before the first, between them and behind, blanks stripped from
      the first two; empty ones are refused, and so is a line with fewer bars. */
  lemma FieldsAre(a: Bytes, b: Bytes, v: Bytes)
    requires 124 !in a && 124 !in b
    ensures Parse(a) == None && Parse(a + [124] + b) == None
    ensures Parse(a + [124] + b + [124] + v) ==
            if a == [] || b == [] then None else Some(Fields(StripText(a), StripText(b), Trim(v, IsLineSpace)))
  {
    hide StripText, Trim;
    assert a[0..|a|] == a;
    FindIs(a, BAR, 0, |a|);
    var two := a + [124] + b;
    assert two[0..|a|] == a && two[|a| + 1..|two|] == b;
    FindIs(two, BAR, 0, |a|);
    FindIs(two, BAR, |a| + 1, |two|);
    var line := a + [124] + b + [124] + v;
    var j := |a| + 1 + |b|;
    assert line[0..|a|] == a && line[|a| + 1..j] == b && line[..|a|] == a && line[j + 1..] == v;
    FindIs(line, BAR, 0, |a|);
    FindIs(line, BAR, |a| + 1, j);
  }

  /** From a value the bytes 9, 10 and 13 are stripped at both ends. */
  lemma ValueIs(v: Bytes) returns (i: nat, j: nat)
    ensures i <= j <= |v| && Trim(v, IsLineSpace) == v[i..j]
    ensures forall k :: 0 <= k < i || j <= k < |v| ==> v[k] == 9 || v[k] == 10 || v[k] == 13
    ensures i < j ==> forall k :: k == i || k == j - 1 ==> v[k] != 9 && v[k] != 10 && v[k] != 13
  {
    i := TrimLeftIs(v, IsLineSpace);
    var n := TrimRightIs(v[i..], IsLineSpace);
    j := i + n;
    assert v[i..][..n] == v[i..j];
    assert forall k :: i <= k < |v| ==> v[k] == v[i..][k - i];
  }

  /** A record serves a subtree when its tag starts with byte 58, and names a module when that has
      anything behind it. */
  lemma ColonsAre(line: Bytes, a: Bytes, b: Bytes)
    requires 58 !in a
    ensures PARSER.IsSubtree(line) <==>
            Parse(line).Some? && Parse(line).value.tag != [] && Parse(line).value.tag[0] == 58
    ensures StaticTag(a) == Some(a) && StaticTag(a + [58]) == Some(a)
    ensures b != [] ==> StaticTag(a + [58] + b) == None
  {
    hide Parse;
    assert a[0..|a|] == a && a[..|a|] == a && (a + [58])[..|a|] == a && (a + [58])[0..|a|] == a;
    FindIs(a, COLON, 0, |a|);
    FindIs(a + [58], COLON, 0, |a|);
    assert (a + [58] + b)[0..|a|] == a;
    FindIs(a + [58] + b, COLON, 0, |a|);
  }

  /** To the managing tool a record that names a variation module is broken, whatever its value. */
  lemma VariationRecordsAreBroken(others: OtherTypes, options: Options, line: Bytes)
    requires Parse(line).Some? && IsOidText(Parse(line).value.oid) && 58 in Parse(line).value.tag
    ensures EvaluateLine(others)(line) == Bad && (IsPassed(others, options, line) <==> options.ignoreBroken)
  {
    hide Parse, IsOidText, Find;
    var tag := Parse(line).value.tag;
    assert UnpackTag(tag).0 == tag || tag == UnpackTag(tag).0 + [tag[|tag| - 1]];
    if tag != [] && UnpackTag(tag).0 != tag {
      assert tag[|tag| - 1] != 58 && 58 in UnpackTag(tag).0;
    }
  }

  /** The values of octet strings, whose tags are 4 and 68: as they stand, or by the letter behind the tag. */
  lemma ValuesAre(tag: Bytes, value: Bytes)
    requires tag == [] || (tag[|tag| - 1] != 101 && tag[|tag| - 1] != 120)
    ensures var octets := tag == [52] || tag == [54, 56];
            && EvaluateValue(tag, value) == (if octets then Some(value) else None)
            && EvaluateValue(tag + [101], value) == (if octets then RawString(value) else None)
            && EvaluateValue(tag + [120], value) == (if octets then Unhex(value) else None)
  {
    hide RawString, Unhex;
    assert (tag + [101])[..|tag|] == tag && (tag + [120])[..|tag|] == tag;
  }

  /** Hexadecimal text reads two digits at a time, and a last one alone as the high one. */
  lemma HexTextIs(h: Byte, l: Byte, rest: Bytes)
    ensures Unhex([]) == Some([])
    ensures forall m: nat :: IsDigitFor(h, m) ==> Unhex([h]) == Some([16 * m])
    ensures forall m: nat, n: nat :: IsDigitFor(h, m) && IsDigitFor(l, n) && Unhex(rest).Some? ==>
              Unhex([h, l] + rest) == Some([16 * m + n] + Unhex(rest).value)
    ensures Unhex([h, l] + rest).Some? ==>
              (exists m: nat :: IsDigitFor(h, m)) && (exists n: nat :: IsDigitFor(l, n)) && Unhex(rest).Some?
  {
    hide IsDigitFor, HexValue;
    DigitsAre(h);
    DigitsAre(l);
    assert ([h, l] + rest)[2..] == rest;
    assert Unhex([]) == Some([]);
    if HexValue(h).Some? {
      assert [16 * HexValue(h).value + 0] + [] == [16 * HexValue(h).value];
      assert Unhex([h]) == Some([16 * HexValue(h).value]);
    }
  }

  lemma NumbersOfOne(p: Bytes)
    requires p != []
    ensures NumbersOf([p]) == [Number(p)]
  {
    var ps := [p];
    assert ps[1..] == [];
  }

  /** 1_0 is ten. */
  lemma UnderscoreIsSkipped()
    ensures OidOfText([49, 95, 48]) == [10]
  {
    hide Split;
    OneOrTwoParts([49, 95, 48]);
    NumbersOfOne([49, 95, 48]);
    assert [49, 95, 48][..2] == [49, 95] && [49, 95][..1] == [49] && [49][..0] == [];
    assert Number([49, 95]) == 1 && Number([49, 95, 48]) == 10;
  }

  /** +1 is one, and so is 1 behind a blank. */
  lemma SignAndBlankAreSkipped()
    ensures OidOfText([43, 49]) == [1] && OidOfText([32, 49]) == [1]
  {
    hide Split;
    OneOrTwoParts([43, 49]);
    OneOrTwoParts([32, 49]);
    NumbersOfOne([43, 49]);
    NumbersOfOne([32, 49]);
    assert [43, 49][..1] == [43] && [43][..0] == [] && [32, 49][..1] == [32] && [32][..0] == [];
  }

  /** Two dots are one. */
  lemma EmptyPartIsSkipped()
    ensures OidOfText([49, 46, 46, 51]) == [1, 3]
  {
    hide Split;
    var parts: seq<Bytes> := [[49], [], [51]];
    assert parts[1..] == [[], [51]] && parts[1..][1..] == [[51]];
    assert Join(parts, DOT) == [49, 46, 46, 51];
    SplitJoin(parts, DOT);
    assert [51][..0] == [] && [49][..0] == [] && Number([49]) == 1 && Number([51]) == 3;
    NumbersOfOne([51]);
  }
}
