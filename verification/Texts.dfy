/** Text as the bytes of its ISO-8859-1 encoding: the encoding the data files use maps every
    byte to the character of the same number, so decoding and encoding are the identity. */
module Texts {
  type Byte = b: int | 0 <= b < 256
  type Bytes = seq<Byte>

  const TAB: Byte := 9
  const EOL: Byte := 10
  const CR: Byte := 13
  const SPACE: Byte := 32
  const HASH: Byte := 35
  const DOT: Byte := 46
  const COLON: Byte := 58
  const BAR: Byte := 124

  predicate IsSpace(b: Byte) {
    9 <= b <= 13 || b == SPACE
  }

  predicate IsDigit(b: Byte) {
    48 <= b <= 57
  }

  /** What counts as a blank in decoded text. */
  predicate IsTextSpace(b: Byte) {
    IsSpace(b) || 28 <= b <= 31 || b == 133 || b == 160
  }

  function TrimLeft(s: Bytes, drop: Byte -> bool): Bytes {
    if s != [] && drop(s[0]) then TrimLeft(s[1..], drop) else s
  }

  function TrimRight(s: Bytes, drop: Byte -> bool): Bytes {
    if s != [] && drop(s[|s| - 1]) then TrimRight(s[..|s| - 1], drop) else s
  }

  /** Python's `strip(characters)`. */
  function Trim(s: Bytes, drop: Byte -> bool): Bytes {
    TrimRight(TrimLeft(s, drop), drop)
  }

  /** Python's `strip()` of bytes. */
  function Strip(s: Bytes): Bytes {
    Trim(s, IsSpace)
  }

  /** Python's `strip()` of decoded text. */
  function StripText(s: Bytes): Bytes {
    Trim(s, IsTextSpace)
  }

  lemma {:induction false} KeepsFirst(s: Bytes, drop: Byte -> bool)
    requires s != [] && !drop(s[0])
    ensures TrimRight(s, drop) != [] && TrimRight(s, drop)[0] == s[0]
    decreases |s|
  {
    if |s| > 1 && drop(s[|s| - 1]) {
      KeepsFirst(s[..|s| - 1], drop);
    }
  }

  lemma TrimKeeps(s: Bytes, drop: Byte -> bool)
    requires s == [] || (!drop(s[0]) && !drop(s[|s| - 1]))
    ensures Trim(s, drop) == s
  {}

  lemma {:induction false} TrimLeftIs(s: Bytes, drop: Byte -> bool) returns (i: nat)
    ensures i <= |s| && TrimLeft(s, drop) == s[i..]
    ensures (forall k :: 0 <= k < i ==> drop(s[k])) && (i == |s| || !drop(s[i]))
  {
    i := 0;
    if s != [] && drop(s[0]) {
      var j := TrimLeftIs(s[1..], drop);
      i := j + 1;
      assert s[1..][j..] == s[i..];
      assert forall k :: 0 < k < i ==> s[k] == s[1..][k - 1];
    } else {
      assert s[0..] == s;
    }
  }

  lemma {:induction false} TrimRightIs(s: Bytes, drop: Byte -> bool) returns (j: nat)
    ensures j <= |s| && TrimRight(s, drop) == s[..j]
    ensures (forall k :: j <= k < |s| ==> drop(s[k])) && (j == 0 || !drop(s[j - 1]))
  {
    j := |s|;
    if s != [] && drop(s[|s| - 1]) {
      j := TrimRightIs(s[..|s| - 1], drop);
      assert s[..|s| - 1][..j] == s[..j];
    } else {
      assert s[..j] == s;
    }
  }

  /** Stripping decoded text leaves the middle part between blanks, which are the bytes 9 to 13, 28
      to 32, 133 and 160. */
  lemma StripTextIs(s: Bytes) returns (i: nat, j: nat)
    ensures i <= j <= |s| && StripText(s) == s[i..j]
    ensures forall k :: 0 <= k < i || j <= k < |s| ==>
              9 <= s[k] <= 13 || 28 <= s[k] <= 32 || s[k] == 133 || s[k] == 160
    ensures i < j ==> forall k :: k == i || k == j - 1 ==>
              !(9 <= s[k] <= 13 || 28 <= s[k] <= 32 || s[k] == 133 || s[k] == 160)
  {
    i := TrimLeftIs(s, IsTextSpace);
    var n := TrimRightIs(s[i..], IsTextSpace);
    j := i + n;
    assert s[i..][..n] == s[i..j];
    assert forall k :: i <= k < |s| ==> s[k] == s[i..][k - i];
  }

  /** Python's `join`. */
  function Join(parts: seq<Bytes>, sep: Byte): Bytes {
    if parts == [] then []
    else if |parts| == 1 then parts[0]
    else parts[0] + [sep] + Join(parts[1..], sep)
  }

  /** Position of the first `sep` at or after `from`, or the length of `s`. */
  function Find(s: Bytes, sep: Byte, from: nat := 0): (i: nat)
    requires from <= |s|
    ensures from <= i <= |s|
    ensures forall k :: from <= k < i ==> s[k] != sep
    ensures i < |s| ==> s[i] == sep
    decreases |s| - from
  {
    if from == |s| || s[from] == sep then from else Find(s, sep, from + 1)
  }

  /** Python's `split(sep)`. */
  function Split(s: Bytes, sep: Byte): (parts: seq<Bytes>)
    ensures parts != []
    decreases |s|
  {
    var i := Find(s, sep);
    if i == |s| then [s] else [s[..i]] + Split(s[i + 1..], sep)
  }

  lemma {:induction false} SplitBytes(s: Bytes, sep: Byte)
    ensures forall p, b :: p in Split(s, sep) && b in p ==> b in s
    decreases |s|
  {
    var i := Find(s, sep);
    if i < |s| {
      SplitBytes(s[i + 1..], sep);
    }
  }

  lemma {:induction false} SplitHasNone(s: Bytes, sep: Byte)
    ensures forall p :: p in Split(s, sep) ==> sep !in p
    decreases |s|
  {
    var i := Find(s, sep);
    if i < |s| {
      SplitHasNone(s[i + 1..], sep);
    }
  }

  lemma {:induction false} SplitHolds(s: Bytes, sep: Byte, b: Byte) returns (p: Bytes)
    requires b in s && b != sep
    ensures p in Split(s, sep) && b in p
    decreases |s|
  {
    var i := Find(s, sep);
    if i == |s| {
      p := s;
    } else if b in s[..i] {
      p := s[..i];
    } else {
      assert s == s[..i] + [sep] + s[i + 1..];
      p := SplitHolds(s[i + 1..], sep, b);
    }
  }

  lemma {:induction false} TrimLeftHolds(s: Bytes, drop: Byte -> bool, b: Byte)
    requires b in s && !drop(b)
    ensures b in TrimLeft(s, drop)
    decreases |s|
  {
    if drop(s[0]) {
      assert s == [s[0]] + s[1..];
      TrimLeftHolds(s[1..], drop, b);
    }
  }

  lemma {:induction false} TrimRightHolds(s: Bytes, drop: Byte -> bool, b: Byte)
    requires b in s && !drop(b)
    ensures b in TrimRight(s, drop)
    decreases |s|
  {
    if drop(s[|s| - 1]) {
      assert s == s[..|s| - 1] + [s[|s| - 1]];
      TrimRightHolds(s[..|s| - 1], drop, b);
    }
  }

  /** Trimming loses nothing but what it is to drop. */
  lemma TrimHolds(s: Bytes, drop: Byte -> bool, b: Byte)
    requires b in s && !drop(b)
    ensures b in Trim(s, drop)
  {
    TrimLeftHolds(s, drop, b);
    TrimRightHolds(TrimLeft(s, drop), drop, b);
  }

  /** A position is where `Find` stops exactly when it is the first occurrence. */
  lemma FindIs(s: Bytes, sep: Byte, from: nat, i: nat)
    requires from <= i <= |s|
    requires sep !in s[from..i]
    requires i == |s| || s[i] == sep
    ensures Find(s, sep, from) == i
  {
    assert forall k :: from <= k < i ==> s[k] == s[from..i][k - from];
  }

  lemma {:induction false} SplitJoin(parts: seq<Bytes>, sep: Byte)
    requires parts != []
    requires forall p :: p in parts ==> sep !in p
    ensures Split(Join(parts, sep), sep) == parts
  {
    var s := Join(parts, sep);
    var n := |parts[0]|;
    if |parts| == 1 {
      assert s[0..n] == parts[0];
      FindIs(s, sep, 0, n);
    } else {
      assert s[0..n] == parts[0];
      FindIs(s, sep, 0, n);
      assert s[n + 1..] == Join(parts[1..], sep);
      SplitJoin(parts[1..], sep);
    }
  }
}
