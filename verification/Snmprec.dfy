/** The .snmprec record type for octet strings: printing, parsing and evaluating records. */
module Snmprec {
  import opened Wrappers
  import opened Texts
  import opened Recordings

  const BACKSLASH: Byte := 92
  const QUOTE: Byte := 39
  const DOUBLE_QUOTE: Byte := 34
  const LOWER_E: Byte := 101
  const LOWER_X: Byte := 120

  predicate IsAlnum(b: Byte) {
    IsDigit(b) || 65 <= b <= 90 || 97 <= b <= 122
  }

  /** `ESCAPE_CHARS`: what the character behind a backslash stands for. */
  function EscapedChar(b: Byte): Option<Byte> {
    if b == BACKSLASH || b == QUOTE || b == DOUBLE_QUOTE then Some(b)
    else if b == 97 then Some(7)
    else if b == 98 then Some(8)
    else if b == 102 then Some(12)
    else if b == 110 then Some(10)
    else if b == 114 then Some(13)
    else if b == 116 then Some(9)
    else if b == 118 then Some(11)
    else None
  }

  function HexDigit(n: int): Byte
    requires 0 <= n < 16
  {
    if n < 10 then 48 + n else 87 + n
  }

  function HexValue(b: Byte): (n: Option<int>)
    ensures n.Some? ==> 0 <= n.value < 16
  {
    if IsDigit(b) then Some(b - 48)
    else if 97 <= b <= 102 then Some(b - 87)
    else if 65 <= b <= 70 then Some(b - 55)
    else None
  }

  function HexByte(b: Byte): (h: Bytes)
    ensures |h| == 2 && IsAlnum(h[0]) && IsAlnum(h[1])
  {
    [HexDigit(b / 16), HexDigit(b % 16)]
  }

  function Hex(v: Bytes): Bytes {
    if v == [] then [] else HexByte(v[0]) + Hex(v[1..])
  }

  /** `hexify_value`: all octets in hexadecimal, unless every one is a letter or a digit. */
  function HexifyValue(v: Bytes): Option<Bytes> {
    if exists b :: b in v && !IsAlnum(b) then Some(Hex(v)) else None
  }

  /** The quote Python's `repr` of bytes chooses. */
  function QuoteFor(v: Bytes): Byte {
    if QUOTE in v && DOUBLE_QUOTE !in v then DOUBLE_QUOTE else QUOTE
  }

  function ReprByte(b: Byte, quote: Byte): Bytes {
    if b == quote || b == BACKSLASH then [BACKSLASH, b]
    else if b == TAB then [BACKSLASH, 116]
    else if b == EOL then [BACKSLASH, 110]
    else if b == CR then [BACKSLASH, 114]
    else if b < 32 || 127 <= b then [BACKSLASH, LOWER_X] + HexByte(b)
    else [b]
  }

  /** Python's `repr` of bytes, between the quotes. */
  function ReprBody(v: Bytes, quote: Byte): Bytes {
    if v == [] then [] else ReprByte(v[0], quote) + ReprBody(v[1..], quote)
  }

  /** `format_value` without the OID: the tag and the text of a value. */
  function FormatValue(tag: Bytes, v: Bytes, nohex: bool): (Bytes, Bytes) {
    var hex := if nohex then None else HexifyValue(v);
    if hex.Some? && hex.value != [] then (tag + [LOWER_X], hex.value)
    else
      var text := ReprBody(v, QuoteFor(v));
      (if BACKSLASH in text then tag + [LOWER_E] else tag, text)
  }

  /** `build`; None stands for the error on an empty OID or tag. */
  function Build(oid: Bytes, tag: Bytes, value: Bytes): Option<Bytes> {
    if oid != [] && tag != [] then Some(oid + [BAR] + tag + [BAR] + value + [EOL]) else None
  }

  predicate IsLineSpace(b: Byte) {
    b == TAB || b == EOL || b == CR
  }

  /** `parse`; None stands for the error on a broken record. */
  function Parse(line: Bytes): Option<Fields> {
    var i := Find(line, BAR);
    if i == |line| then None
    else
      var j := Find(line, BAR, i + 1);
      if j == |line| || i == 0 || j == i + 1 then None
      else Some(Fields(StripText(line[..i]), StripText(line[i + 1..j]), Trim(line[j + 1..], IsLineSpace)))
  }

  /** The state of `evaluate_raw_string` between two characters: plain text, behind a backslash,
      or behind the `x` of a hexadecimal escape with its first digit read or not. */
  datatype RawState = Text | Behind | HexOpen | HexHalf(first: Byte)

  /** What one character does: nothing to append, a byte to append, or the error. */
  datatype RawStep = Go(state: RawState, out: Bytes) | Error

  /** A byte of text or a decoded byte: a backslash opens an escape. */
  function TakeByte(b: Byte): RawStep {
    if b == BACKSLASH then Go(Behind, []) else Go(Text, [b])
  }

  function StepRaw(state: RawState, b: Byte): RawStep {
    match state
    case HexOpen => Go(HexHalf(b), [])
    case HexHalf(first) =>
      if HexValue(first).None? || HexValue(b).None? then Error
      else TakeByte(16 * HexValue(first).value + HexValue(b).value)
    case Behind =>
      if EscapedChar(b).Some? then Go(Text, [EscapedChar(b).value])
      else if b == LOWER_X then Go(HexOpen, [])
      else Error
    case Text => TakeByte(b)
  }

  function Prepend(out: Bytes, s: RawStep): RawStep {
    match s
    case Error => Error
    case Go(state, rest) => Go(state, out + rest)
  }

  /** The state a text leads to and the bytes it appends on the way. */
  function RunRaw(state: RawState, escaped: Bytes): RawStep
    decreases |escaped|
  {
    if escaped == [] then Go(state, [])
    else
      match StepRaw(state, escaped[0])
      case Error => Error
      case Go(state', out) => Prepend(out, RunRaw(state', escaped[1..]))
  }

  /** The bytes a raw string stands for; escapes left open at the end are dropped. */
  function RawString(escaped: Bytes): Option<Bytes> {
    match RunRaw(Text, escaped)
    case Error => None
    case Go(_, out) => Some(out)
  }

  lemma PrependTwice(a: Bytes, b: Bytes, s: RawStep)
    ensures Prepend(a, Prepend(b, s)) == Prepend(a + b, s)
    ensures Prepend([], s) == s
  {
    if s.Go? {
      assert a + (b + s.out) == (a + b) + s.out && [] + s.out == s.out;
    }
  }

  lemma {:induction false} RunRawJoins(state: RawState, a: Bytes, b: Bytes)
    ensures RunRaw(state, a + b) ==
            match RunRaw(state, a) case Error => Error case Go(mid, out) => Prepend(out, RunRaw(mid, b))
    decreases |a|
  {
    if a == [] {
      assert a + b == b;
      PrependTwice([], [], RunRaw(state, b));
    } else {
      assert (a + b)[1..] == a[1..] + b;
      var s := StepRaw(state, a[0]);
      if s.Go? {
        RunRawJoins(s.state, a[1..], b);
        var t := RunRaw(s.state, a[1..]);
        if t.Go? {
          PrependTwice(s.out, t.out, RunRaw(t.state, b));
        }
      }
    }
  }

  /** The program's variables for a state: whether a hex escape is open, its first digit, the escape flag. */
  function StateOf(hexOpen: bool, hexDigit: Option<Byte>, escape: bool): RawState {
    if hexOpen then if hexDigit.Some? then HexHalf(hexDigit.value) else HexOpen
    else if escape then Behind else Text
  }

  /** `evaluate_raw_string`: the loop over the characters with its escape flag and hex digit. */
  method EvaluateRawString(escaped: Bytes) returns (unescaped: Option<Bytes>)
    ensures unescaped == RawString(escaped)
  {
    var result: Bytes := [];
    var hexOpen, hexDigit: Option<Byte> := false, None;
    var escape := false;
    PrependTwice([], [], RunRaw(Text, escaped));
    assert escaped[0..] == escaped;
    for i := 0 to |escaped|
      invariant !(escape && hexOpen) && (hexDigit.Some? ==> hexOpen)
      invariant RunRaw(Text, escaped) == Prepend(result, RunRaw(StateOf(hexOpen, hexDigit, escape), escaped[i..]))
    {
      ghost var step := StepRaw(StateOf(hexOpen, hexDigit, escape), escaped[i]);
      assert escaped[i..][1..] == escaped[i + 1..];
      if step.Go? {
        PrependTwice(result, step.out, RunRaw(step.state, escaped[i + 1..]));
      }
      assert result + [] == result;
      var number := escaped[i];
      if hexOpen {
        if hexDigit.Some? {
          if HexValue(hexDigit.value).None? || HexValue(escaped[i]).None? {
            return None;
          }
          number := 16 * HexValue(hexDigit.value).value + HexValue(escaped[i]).value;
          hexOpen, hexDigit := false, None;
        } else {
          hexDigit := Some(escaped[i]);
          continue;
        }
      }
      if escape {
        escape := false;
        if EscapedChar(number).None? {
          if number == LOWER_X {
            hexOpen := true;
            continue;
          }
          return None;
        }
        number := EscapedChar(number).value;
      } else if number == BACKSLASH {
        escape := true;
        continue;
      }
      result := result + [number];
    }
    return Some(result);
  }
}
