/** What is written to a .snmprec file for an octet string is read back unchanged. */
module SnmprecRoundTrips {
  import opened Wrappers
  import opened Oids
  import opened Texts
  import opened OidTexts
  import opened Recordings
  import opened Snmprec
  import opened Literals

  /** The tags of the types whose values are octet strings: OCTET STRING and Opaque. */
  const OCTET_STRING: Bytes := [52]

  const OPAQUE: Bytes := [54, 56]

  predicate IsOctetTag(tag: Bytes) {
    tag == OCTET_STRING || tag == OPAQUE
  }

  /** `unpack_tag`: the tag of the type, and the encoding letter if there is one. */
  function UnpackTag(tag: Bytes): (Bytes, Option<Byte>) {
    if tag != [] && (tag[|tag| - 1] == LOWER_X || tag[|tag| - 1] == LOWER_E) then
      (tag[..|tag| - 1], Some(tag[|tag| - 1]))
    else (tag, None)
  }

  /** The octets pairs of hexadecimal digits stand for; a lone last digit is the high one. */
  function Unhex(text: Bytes): Option<Bytes>
    decreases |text|
  {
    if text == [] then Some([])
    else
      var low := if |text| == 1 then Some(0) else HexValue(text[1]);
      if HexValue(text[0]).None? || low.None? then None
      else
        match Unhex(if |text| == 1 then [] else text[2..])
        case None => None
        case Some(rest) => Some([16 * HexValue(text[0]).value + low.value] + rest)
  }

  /** `evaluate_value` of an octet string type; None stands for the evaluation error. */
  function EvaluateValue(tag: Bytes, value: Bytes): Option<Bytes> {
    var (base, encoding) := UnpackTag(tag);
    if !IsOctetTag(base) then None
    else if encoding == Some(LOWER_E) then RawString(value)
    else if encoding == Some(LOWER_X) then Unhex(value)
    else Some(value)
  }

  lemma HexDigitsRead(b: Byte)
    ensures var h := HexByte(b);
            && HexValue(h[0]) == Some(b / 16) && HexValue(h[1]) == Some(b % 16)
  {}

  lemma {:induction false} UnhexHex(v: Bytes)
    ensures Unhex(Hex(v)) == Some(v)
    ensures forall b :: b in Hex(v) ==> IsAlnum(b)
    ensures v != [] ==> Hex(v) != []
  {
    if v != [] {
      HexDigitsRead(v[0]);
      UnhexHex(v[1..]);
      assert Hex(v)[2..] == Hex(v[1..]);
      assert [v[0]] + v[1..] == v;
    }
  }

  /** What `repr` prints for a byte, as a token of a literal. */
  function TokenFor(b: Byte, quote: Byte): Token {
    if b == quote || b == BACKSLASH then Escaped(b)
    else if b == TAB then Escaped(116)
    else if b == EOL then Escaped(110)
    else if b == CR then Escaped(114)
    else if b < 32 || 127 <= b then HexEscape(HexByte(b)[0], HexByte(b)[1])
    else Plain(b)
  }

  /** One byte of a `repr`, read back as raw text: no byte is ever printed as a backslash in hexadecimal. */
  lemma ReadsReprByte(b: Byte, quote: Byte)
    requires quote == QUOTE || quote == DOUBLE_QUOTE
    ensures RunRaw(Text, ReprByte(b, quote)) == Go(Text, [b])
  {
    hide RunRaw;
    var t := TokenFor(b, quote);
    HexDigitsRead(b);
    ReadsToken(t);
    assert t.Spelling() == ReprByte(b, quote);
  }

  lemma {:induction false} ReadsRepr(v: Bytes, quote: Byte)
    requires quote == QUOTE || quote == DOUBLE_QUOTE
    ensures RunRaw(Text, ReprBody(v, quote)) == Go(Text, v)
  {
    if v != [] {
      ReadsReprByte(v[0], quote);
      ReadsRepr(v[1..], quote);
      RunRawJoins(Text, ReprByte(v[0], quote), ReprBody(v[1..], quote));
      assert [v[0]] + v[1..] == v;
    }
  }

  lemma ReprByteIsPlain(b: Byte, quote: Byte)
    requires quote == QUOTE || quote == DOUBLE_QUOTE
    ensures BACKSLASH !in ReprByte(b, quote) ==> ReprByte(b, quote) == [b]
    ensures forall x :: x in ReprByte(b, quote) ==> !IsLineSpace(x)
  {}

  /** A `repr` without a backslash is the bytes themselves, and no `repr` holds a line break or tab. */
  lemma {:induction false} ReprIsPlain(v: Bytes, quote: Byte)
    requires quote == QUOTE || quote == DOUBLE_QUOTE
    ensures BACKSLASH !in ReprBody(v, quote) ==> ReprBody(v, quote) == v
    ensures forall b :: b in ReprBody(v, quote) ==> !IsLineSpace(b)
  {
    hide ReprByte, IsLineSpace;
    if v != [] {
      ReprIsPlain(v[1..], quote);
      ReprByteIsPlain(v[0], quote);
      var r := ReprByte(v[0], quote);
      if BACKSLASH !in ReprBody(v, quote) {
        assert forall b :: b in r ==> b in ReprBody(v, quote);
        assert forall b :: b in ReprBody(v[1..], quote) ==> b in ReprBody(v, quote);
      }
      assert [v[0]] + v[1..] == v;
    }
  }

  lemma AlnumIsNoLineSpace()
    ensures forall b :: IsAlnum(b) ==> !IsLineSpace(b)
  {}

  /** Formatting and evaluating a value are inverse, with hexadecimal output allowed or not. */
  lemma ValueRoundTrip(tag: Bytes, v: Bytes, nohex: bool)
    requires IsOctetTag(tag)
    ensures var (tag', text) := FormatValue(tag, v, nohex);
            && EvaluateValue(tag', text) == Some(v) && UnpackTag(tag').0 == tag
            && (forall b :: b in text ==> !IsLineSpace(b))
            && tag <= tag' <= tag + [tag'[|tag'| - 1]]
            && (forall b :: b in tag' ==> IsAlnum(b)) && tag' != []
  {
    hide RunRaw, Hex, Unhex, ReprBody, IsLineSpace;
    var (tag', text) := FormatValue(tag, v, nohex);
    UnhexHex(v);
    assert forall b :: IsAlnum(b) ==> !IsLineSpace(b) by { AlnumIsNoLineSpace(); }
    var quote := QuoteFor(v);
    ReadsRepr(v, quote);
    ReprIsPlain(v, quote);
    assert UnpackTag(tag + [LOWER_X]) == (tag, Some(LOWER_X));
    assert UnpackTag(tag + [LOWER_E]) == (tag, Some(LOWER_E));
    assert UnpackTag(tag) == (tag, None);
  }

  lemma {:induction false} TrimLineEnd(text: Bytes)
    requires forall b :: b in text ==> !IsLineSpace(b)
    ensures Trim(text + [EOL], IsLineSpace) == text
  {
    assert (text + [EOL])[..|text|] == text;
    if text == [] {
      assert TrimLeft([EOL], IsLineSpace) == TrimLeft([EOL][1..], IsLineSpace);
    } else {
      assert (text + [EOL])[0] == text[0];
      assert text[|text| - 1] in text && text[0] in text;
      assert TrimLeft(text + [EOL], IsLineSpace) == text + [EOL];
      assert TrimRight(text + [EOL], IsLineSpace) == TrimRight(text, IsLineSpace) == text;
    }
  }

  lemma StripKeeps(s: Bytes)
    requires s != [] && forall b :: b in s ==> IsAlnum(b) || b == DOT
    ensures StripText(s) == s
  {
    assert s[0] in s && s[|s| - 1] in s;
    TrimKeeps(s, IsTextSpace);
  }

  lemma NoBarIn(s: Bytes)
    requires forall b :: b in s ==> IsAlnum(b) || b == DOT
    ensures BAR !in s
  {}

  /** A line that is built parses into what it was built from: the value keeps even bars and outer spaces. */
  lemma ParsesWhatWasBuilt(oid: Bytes, tag: Bytes, text: Bytes)
    requires oid != [] && tag != []
    requires forall b :: b in oid ==> IsAlnum(b) || b == DOT
    requires forall b :: b in tag ==> IsAlnum(b) || b == DOT
    requires forall b :: b in text ==> !IsLineSpace(b)
    ensures var line := Build(oid, tag, text);
            line.Some? && Parse(line.value) == Some(Fields(oid, tag, text))
  {
    hide Find, StripText, Trim, IsTextSpace, IsLineSpace, IsAlnum, IsDigit;
    var line := Build(oid, tag, text).value;
    var i, j := |oid|, |oid| + 1 + |tag|;
    assert line[0..i] == oid && line[i + 1..j] == tag && line[j + 1..] == text + [EOL];
    NoBarIn(oid);
    NoBarIn(tag);
    FindIs(line, BAR, 0, i);
    FindIs(line, BAR, i + 1, j);
    StripKeeps(oid);
    StripKeeps(tag);
    TrimLineEnd(text);
  }

  /** What is written for an OID and an octet string. */
  function Record(oid: Oid, tag: Bytes, v: Bytes, nohex: bool): Option<Bytes> {
    var (tag', text) := FormatValue(tag, v, nohex);
    Build(OidText(oid), tag', text)
  }

  lemma OidTextNotEmpty(oid: Oid)
    requires oid != []
    ensures OidText(oid) != []
  {
    OidTextRoundTrip(oid);
    OidTextRoundTrip([]);
    assert OidText([]) == [];
  }

  lemma LineOfRecord(oid: Bytes, tag: Bytes, text: Bytes)
    requires oid != [] && tag != []
    requires forall b :: b in oid ==> IsAlnum(b) || b == DOT
    requires forall b :: b in tag ==> IsAlnum(b)
    requires forall b :: b in text ==> !IsLineSpace(b)
    ensures IsRecordLine(Build(oid, tag, text).value)
  {
    var line := Build(oid, tag, text).value;
    assert oid[0] in oid && line[0] == oid[0];
    assert TrimLeft(line, IsSpace) == line;
    KeepsFirst(line, IsSpace);
    assert line[..|line| - 1] == oid + [BAR] + tag + [BAR] + text;
  }

  /** Every octet string survives a round trip through a record line, for every OID but the empty
      one, which is refused. */
  lemma RecordRoundTrip(oid: Oid, tag: Bytes, v: Bytes, nohex: bool)
    requires IsOctetTag(tag)
    ensures oid == [] <==> Record(oid, tag, v, nohex).None?
    ensures oid != [] ==>
              var line := Record(oid, tag, v, nohex).value;
              var f := Parse(line);
              && f.Some? && f.value.oid == OidText(oid) && OidOfText(f.value.oid) == oid
              && f.value.tag != [] && f.value.tag[0] != COLON
              && EvaluateValue(f.value.tag, f.value.value) == Some(v)
              && IsRecordLine(line)
  {
    var (tag', text) := FormatValue(tag, v, nohex);
    ValueRoundTrip(tag, v, nohex);
    OidTextBytes(oid);
    OidTextRoundTrip(oid);
    if oid != [] {
      OidTextNotEmpty(oid);
      ParsesWhatWasBuilt(OidText(oid), tag', text);
      LineOfRecord(OidText(oid), tag', text);
    }
  }
}
