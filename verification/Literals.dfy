/** `evaluate_raw_string` set against what the escapes of a Python literal mean. */
module Literals {
  import opened Wrappers
  import opened Texts
  import opened Snmprec

  /** A character of its own, a backslash escape, or a hexadecimal escape. */
  datatype Token = Plain(b: Byte) | Escaped(e: Byte) | HexEscape(high: Byte, low: Byte) {
    predicate Valid() {
      match this
      case Plain(b) => b != BACKSLASH
      case Escaped(e) => EscapedChar(e).Some?
      case HexEscape(high, low) => HexValue(high).Some? && HexValue(low).Some?
    }

    function Spelling(): Bytes {
      match this
      case Plain(b) => [b]
      case Escaped(e) => [BACKSLASH, e]
      case HexEscape(high, low) => [BACKSLASH, LOWER_X, high, low]
    }

    /** The byte the token stands for in a Python literal. */
    function Meaning(): Byte
      requires Valid()
    {
      match this
      case Plain(b) => b
      case Escaped(e) => EscapedChar(e).value
      case HexEscape(high, low) => 16 * HexValue(high).value + HexValue(low).value
    }

    /** A backslash spelt in hexadecimal. */
    predicate IsHexBackslash() {
      HexEscape? && Valid() && Meaning() == BACKSLASH
    }
  }

  function Spelling(ts: seq<Token>): Bytes {
    if ts == [] then [] else ts[0].Spelling() + Spelling(ts[1..])
  }

  predicate AreValid(ts: seq<Token>) {
    forall t :: t in ts ==> t.Valid()
  }

  function Meaning(ts: seq<Token>): (m: Bytes)
    requires AreValid(ts)
    ensures |m| == |ts|
  {
    if ts == [] then [] else [ts[0].Meaning()] + Meaning(ts[1..])
  }

  lemma ReadsToken(t: Token)
    requires t.Valid()
    ensures RunRaw(Text, t.Spelling()) == if t.IsHexBackslash() then Go(Behind, []) else Go(Text, [t.Meaning()])
  {
    var s := t.Spelling();
    match t
    case Plain(b) =>
      assert s[1..] == [];
    case Escaped(e) =>
      assert s[1..] == [e] && [e][1..] == [];
      assert RunRaw(Behind, [e]) == Go(Text, [t.Meaning()] + []);
    case HexEscape(h, l) =>
      assert s[1..] == [LOWER_X, h, l] && [LOWER_X, h, l][1..] == [h, l] && [h, l][1..] == [l] && [l][1..] == [];
      var last := TakeByte(t.Meaning());
      assert RunRaw(HexHalf(h), [l]) == Go(last.state, last.out + []);
      assert RunRaw(HexOpen, [h, l]) == Go(last.state, [] + (last.out + []));
      assert RunRaw(Behind, [LOWER_X, h, l]) == Go(last.state, [] + ([] + (last.out + [])));
      assert [] + (last.out + []) == last.out && [] + last.out == last.out;
  }

  /** Whether reading comes out right. A backslash spelt in hexadecimal leaves the text behind it
      one byte short; only a quote spelt as an escape makes up for it, after any number of
      backslashes spelt as escapes. */
  predicate ReadsRight(ts: seq<Token>, behind: bool) {
    if ts == [] then !behind
    else if !behind then ReadsRight(ts[1..], ts[0].IsHexBackslash())
    else if ts[0] == Escaped(BACKSLASH) then ReadsRight(ts[1..], true)
    else (ts[0] == Escaped(QUOTE) || ts[0] == Escaped(DOUBLE_QUOTE)) && ReadsRight(ts[1..], false)
  }

  /** Reading the spelling from `state` comes to just these bytes. */
  ghost predicate ComesTo(state: RawState, ts: seq<Token>, bytes: Bytes) {
    exists last :: RunRaw(state, Spelling(ts)) == Go(last, bytes)
  }

  /** One token read: the state behind it, and the bytes it adds. */
  lemma ComesToStep(state: RawState, t: Token, ts: seq<Token>, bytes: Bytes)
    ensures ComesTo(state, [t] + ts, bytes) <==>
            var s := RunRaw(state, t.Spelling());
            s.Go? && s.out <= bytes && ComesTo(s.state, ts, bytes[|s.out|..])
  {
    assert ([t] + ts)[1..] == ts;
    RunRawJoins(state, t.Spelling(), Spelling(ts));
    var s := RunRaw(state, t.Spelling());
    if s.Go? {
      var r := RunRaw(s.state, Spelling(ts));
      if r.Go? && s.out <= bytes && r.out == bytes[|s.out|..] {
        assert s.out + r.out == bytes;
      }
      if r.Go? && s.out + r.out == bytes {
        assert bytes[|s.out|..] == r.out;
      }
    }
  }

  lemma ComesToNothing(state: RawState, bytes: Bytes)
    ensures ComesTo(state, [], bytes) <==> bytes == []
  {
    assert RunRaw(state, Spelling([])) == Go(state, []);
  }

  /** A token read behind a backslash: its own backslash is taken for the escaped one. */
  lemma ReadsBehind(t: Token)
    requires t.Valid()
    ensures RunRaw(Behind, t.Spelling()) ==
            match t
            case Plain(b) =>
              if EscapedChar(b).Some? then Go(Text, [EscapedChar(b).value])
              else if b == LOWER_X then Go(HexOpen, []) else Error
            case Escaped(e) => if e == BACKSLASH then Go(Behind, [BACKSLASH]) else Go(Text, [BACKSLASH, e])
            case HexEscape(h, l) => Go(Text, [BACKSLASH, LOWER_X, h, l])
  {
    var s := t.Spelling();
    match t
    case Plain(b) =>
      assert s[1..] == [];
    case Escaped(e) =>
      assert s[1..] == [e] && [e][1..] == [];
      assert RunRaw(Text, [e]) == if e == BACKSLASH then Go(Behind, [] + []) else Go(Text, [e] + []);
    case HexEscape(h, l) =>
      assert s[1..] == [LOWER_X, h, l] && [LOWER_X, h, l][1..] == [h, l] && [h, l][1..] == [l] && [l][1..] == [];
      assert RunRaw(Text, [l]) == Go(Text, [l] + []);
      assert RunRaw(Text, [h, l]) == Go(Text, [h] + ([l] + []));
      assert RunRaw(Text, [LOWER_X, h, l]) == Go(Text, [LOWER_X] + ([h] + ([l] + [])));
      assert [BACKSLASH] + ([LOWER_X] + ([h] + ([l] + []))) == [BACKSLASH, LOWER_X, h, l];
  }

  /** A token read where a hexadecimal digit is due: only a character of its own can be one. */
  lemma ReadsAsDigit(t: Token, state: RawState)
    requires t.Valid() && (state.HexOpen? || state.HexHalf?)
    ensures RunRaw(state, t.Spelling()) ==
            if !t.Plain? then Error
            else if state.HexOpen? then Go(HexHalf(t.b), [])
            else if HexValue(state.first).None? || HexValue(t.b).None? then Error
            else TakeByte(16 * HexValue(state.first).value + HexValue(t.b).value)
  {
    var s := t.Spelling();
    match t
    case Plain(b) =>
      assert s[1..] == [];
    case Escaped(e) =>
      assert s[1..] == [e];
    case HexEscape(h, l) =>
      assert s[1..] == [LOWER_X, h, l];
  }

  /** Reading that owes bytes at the start of a token, and more than it can make up for. */
  predicate Lags(state: RawState, owed: Bytes) {
    if state.Text? then owed != []
    else |owed| >= 2 && (state.Behind? ==> var b := owed[|owed| - 1]; b == BACKSLASH || HexValue(b) == Some(12))
  }

  /** A token read while lagging adds bytes that are not those owed, or leaves reading lagging. */
  lemma LagsOn(state: RawState, owed: Bytes, t: Token)
    requires Lags(state, owed) && t.Valid() && RunRaw(state, t.Spelling()).Go?
    ensures var s := RunRaw(state, t.Spelling());
            var due := owed + [t.Meaning()];
            || (exists i :: 0 <= i < |s.out| && i < |due| && s.out[i] != due[i])
            || (|s.out| <= |due| && Lags(s.state, due[|s.out|..]))
  {
    hide RunRaw;
    var s := RunRaw(state, t.Spelling());
    var due := owed + [t.Meaning()];
    match state
    case Text => ReadsToken(t);
    case HexOpen => ReadsAsDigit(t, state);
    case HexHalf(_) => ReadsAsDigit(t, state);
    case Behind =>
      ReadsBehind(t);
      if t.HexEscape? {
        assert |owed| <= 3 ==> owed[|owed| - 1] != s.out[|owed| - 1] || s.out[|owed|] != due[|owed|];
      }
  }

  lemma OwesSomething(state: RawState, owed: Bytes)
    requires Lags(state, owed)
    ensures owed != []
  {}

  /** What is owed is never made up for. */
  lemma {:induction false} NeverMadeUp(state: RawState, owed: Bytes, ts: seq<Token>)
    requires AreValid(ts) && Lags(state, owed)
    ensures !ComesTo(state, ts, owed + Meaning(ts))
    decreases |ts|
  {
    hide RunRaw, Lags, ComesTo;
    var all := owed + Meaning(ts);
    if ts == [] {
      ComesToNothing(state, all);
      assert owed != [] by { OwesSomething(state, owed); }
    } else {
      var t, rest := ts[0], ts[1..];
      var s := RunRaw(state, t.Spelling());
      var due := owed + [t.Meaning()];
      assert [t] + rest == ts && all == due + Meaning(rest);
      ComesToStep(state, t, rest, all);
      if s.Go? && s.out <= all {
        LagsOn(state, owed, t);
        assert forall i :: 0 <= i < |s.out| && i < |due| ==> s.out[i] == all[i] == due[i];
        assert all[|s.out|..] == due[|s.out|..] + Meaning(rest);
        NeverMadeUp(s.state, due[|s.out|..], rest);
      }
    }
  }

  /** Reading that is ahead by characters no escape yields stays ahead. */
  lemma {:induction false} StaysAhead(ahead: Bytes, ts: seq<Token>, bytes: Bytes)
    requires AreValid(ts) && ahead != [] && BACKSLASH !in ahead && ahead + bytes == Meaning(ts)
    ensures !ComesTo(Text, ts, bytes)
    decreases |ts|
  {
    hide RunRaw, ComesTo;
    var t, rest := ts[0], ts[1..];
    var m := t.Meaning();
    assert [t] + rest == ts && Meaning(ts) == [m] + Meaning(rest);
    assert (ahead + bytes)[0] == ahead[0] == m && (ahead + bytes)[1..] == ahead[1..] + bytes == Meaning(rest);
    ReadsToken(t);
    ComesToStep(Text, t, rest, bytes);
    if bytes != [] && bytes[0] == m {
      assert bytes == [m] + bytes[1..] && ahead[1..] + [m] + bytes[1..] == ahead[1..] + bytes;
      StaysAhead(ahead[1..] + [m], rest, bytes[1..]);
    }
  }

  /** A hexadecimal escape is no payment: it yields an x and two digits too many. */
  lemma HexEscapePaysNothing(t: Token, rest: seq<Token>)
    requires t.HexEscape? && t.Valid() && AreValid(rest)
    ensures !ComesTo(Behind, [t] + rest, [BACKSLASH, t.Meaning()] + Meaning(rest))
  {
    hide RunRaw, ComesTo, Meaning;
    var all := [BACKSLASH, t.Meaning()] + Meaning(rest);
    var out := [BACKSLASH, LOWER_X, t.high, t.low];
    ComesToStep(Behind, t, rest, all);
    ReadsBehind(t);
    if out <= all {
      assert all[2..] == Meaning(rest) && [out[2], out[3]] + all[4..] == all[2..];
      StaysAhead([t.high, t.low], rest, all[4..]);
    }
  }

  lemma PlainPaysNothing(t: Token, rest: seq<Token>)
    requires t.Plain? && t.Valid() && AreValid(rest)
    ensures !ComesTo(Behind, [t] + rest, [BACKSLASH, t.Meaning()] + Meaning(rest))
  {
    hide RunRaw, ComesTo, Meaning;
    var all := [BACKSLASH, t.Meaning()] + Meaning(rest);
    ComesToStep(Behind, t, rest, all);
    ReadsBehind(t);
    assert all[0] == BACKSLASH;
    if t.b == LOWER_X {
      NeverMadeUp(HexOpen, [BACKSLASH, t.Meaning()], rest);
    }
  }

  /** Behind a backslash spelt in hexadecimal one byte is owed, and only an escaped quote pays it. */
  lemma PaysOneByte(t: Token, rest: seq<Token>)
    requires t.Valid() && AreValid(rest)
    ensures ComesTo(Behind, [t] + rest, [BACKSLASH, t.Meaning()] + Meaning(rest)) <==>
            if t == Escaped(BACKSLASH) then ComesTo(Behind, rest, [BACKSLASH] + Meaning(rest))
            else (t == Escaped(QUOTE) || t == Escaped(DOUBLE_QUOTE)) && ComesTo(Text, rest, Meaning(rest))
  {
    hide RunRaw, ComesTo, Meaning;
    match t
    case Plain(_) => PlainPaysNothing(t, rest);
    case HexEscape(_, _) => HexEscapePaysNothing(t, rest);
    case Escaped(e) =>
      var m := t.Meaning();
      var all := [BACKSLASH, m] + Meaning(rest);
      ComesToStep(Behind, t, rest, all);
      ReadsBehind(t);
      assert all[0] == BACKSLASH && all[1] == m && all[2..] == Meaning(rest);
      assert all[1..] == [m] + Meaning(rest);
      assert [BACKSLASH, e] <= all <==> e == m;
  }

  /** A text is read as the Python literal if and only if every backslash spelt in hexadecimal in it
      is followed by escaped backslashes, none or more, and then an escaped quote. */
  lemma {:induction false} ReadsRightIff(ts: seq<Token>, behind: bool)
    requires AreValid(ts)
    ensures ComesTo(if behind then Behind else Text, ts, (if behind then [BACKSLASH] else []) + Meaning(ts))
            <==> ReadsRight(ts, behind)
    decreases |ts|
  {
    hide RunRaw, ComesTo;
    var all := (if behind then [BACKSLASH] else []) + Meaning(ts);
    if ts == [] {
      ComesToNothing(if behind then Behind else Text, all);
    } else {
      var t, rest := ts[0], ts[1..];
      var m := t.Meaning();
      assert [t] + rest == ts && [] + Meaning(rest) == Meaning(rest);
      ReadsRightIff(rest, if behind then t == Escaped(BACKSLASH) else t.IsHexBackslash());
      if behind {
        assert all == [BACKSLASH, m] + Meaning(rest);
        PaysOneByte(t, rest);
      } else {
        assert all == [m] + Meaning(rest) && all[1..] == Meaning(rest);
        ReadsToken(t);
        ComesToStep(Text, t, rest, all);
      }
    }
  }

  /** `evaluate_raw_string` gives the bytes of the Python literal under just that condition. */
  lemma ReadsLiteralIff(ts: seq<Token>)
    requires AreValid(ts)
    ensures RawString(Spelling(ts)) == Some(Meaning(ts)) <==> ReadsRight(ts, false)
  {
    ReadsRightIff(ts, false);
    assert [] + Meaning(ts) == Meaning(ts);
  }

  /** A text without a backslash spelt in hexadecimal is read as the Python literal. */
  lemma {:induction false} ReadsLiteral(ts: seq<Token>)
    requires AreValid(ts) && forall t :: t in ts ==> !t.IsHexBackslash()
    ensures RunRaw(Text, Spelling(ts)) == Go(Text, Meaning(ts))
    ensures RawString(Spelling(ts)) == Some(Meaning(ts))
  {
    if ts != [] {
      ReadsToken(ts[0]);
      ReadsLiteral(ts[1..]);
      RunRawJoins(Text, ts[0].Spelling(), Spelling(ts[1..]));
    }
  }

  lemma {:induction false} SpellingJoins(a: seq<Token>, b: seq<Token>)
    ensures Spelling(a + b) == Spelling(a) + Spelling(b)
  {
    if a == [] {
      assert a + b == b;
    } else {
      assert (a + b)[1..] == a[1..] + b;
      SpellingJoins(a[1..], b);
    }
  }

  /** A backslash spelt in hexadecimal is not: it opens an escape, so that it is lost at the end of
      a text and spoils a text that goes on with a character no escape knows. */
  lemma HexBackslashOpensAnEscape(ts: seq<Token>, h: Token, b: Byte)
    requires AreValid(ts) && forall t :: t in ts ==> !t.IsHexBackslash()
    requires h.IsHexBackslash() && EscapedChar(b).None? && b != LOWER_X
    ensures Meaning(ts) != Meaning(ts + [h]) && RawString(Spelling(ts + [h])) == Some(Meaning(ts))
    ensures RawString(Spelling(ts + [h]) + [b]) == None
  {
    ReadsLiteral(ts);
    ReadsToken(h);
    SpellingJoins(ts, [h]);
    assert [h][1..] == [] && h.Spelling() + [] == h.Spelling();
    RunRawJoins(Text, Spelling(ts), h.Spelling());
    assert Meaning(ts) + [] == Meaning(ts);
    RunRawJoins(Text, Spelling(ts + [h]), [b]);
  }

  /** For one, the literal \x5c is read as nothing. */
  lemma HexBackslashAlone()
    ensures var h := HexEscape(53, 99); h.IsHexBackslash() && RawString(h.Spelling()) == Some([])
  {
    HexBackslashOpensAnEscape([], HexEscape(53, 99), 122);
    assert [] + [HexEscape(53, 99)] == [HexEscape(53, 99)];
    assert Spelling([HexEscape(53, 99)]) == HexEscape(53, 99).Spelling() + [];
  }
}
