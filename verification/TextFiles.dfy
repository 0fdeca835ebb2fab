/** Files as bytes with a position, and the line structure of their bytes. */
module TextFiles {
  import opened Texts

  predicate IsLineStart(c: Bytes, q: nat) {
    q <= |c| && (q == 0 || c[q - 1] == EOL)
  }

  /** Line starts and the end of the file: the offsets sequential reading stops at. */
  predicate IsBoundary(c: Bytes, q: nat) {
    q == |c| || IsLineStart(c, q)
  }

  /** Offset behind the line that is read at offset `p`: past its end-of-line byte, or the end of the file. */
  function LineEnd(c: Bytes, p: nat): (e: nat)
    ensures p <= e
    ensures p < |c| ==> p < e <= |c| && IsBoundary(c, e)
    ensures p >= |c| ==> e == p
    ensures forall q: nat :: p < q < e ==> !IsLineStart(c, q)
    decreases |c| - p
  {
    if p >= |c| then p else if c[p] == EOL then p + 1 else LineEnd(c, p + 1)
  }

  /** The line read at offset `p`, with its end-of-line byte; empty at the end of the file. */
  function Line(c: Bytes, p: nat): (line: Bytes)
    ensures |line| == LineEnd(c, p) - p
  {
    if p < |c| then c[p..LineEnd(c, p)] else []
  }

  /** A line with its end-of-line byte, and no other. */
  predicate IsWholeLine(line: Bytes) {
    line != [] && line[|line| - 1] == EOL && EOL !in line[..|line| - 1]
  }

  /** The greatest line start not above `offset`. */
  function LineStart(c: Bytes, offset: nat): (q: nat)
    ensures IsLineStart(c, q) && q <= offset
    ensures forall r: nat :: q < r <= offset ==> !IsLineStart(c, r)
  {
    if IsLineStart(c, offset) then offset else LineStart(c, offset - 1)
  }

  /** An open file: fixed content and a position that reading and seeking move. */
  class TextFile {
    const content: Bytes
    var pos: nat

    constructor (content: Bytes)
      ensures this.content == content && pos == 0
    {
      this.content := content;
      pos := 0;
    }

    method Seek(offset: nat)
      modifies this
      ensures pos == offset
    {
      pos := offset;
    }

    method SeekEnd() returns (size: nat)
      modifies this
      ensures pos == size == |content|
    {
      pos := |content|;
      size := pos;
    }

    method Read(n: nat) returns (chunk: Bytes)
      modifies this
      ensures chunk == if old(pos) + n <= |content| then content[old(pos)..old(pos) + n]
                       else if old(pos) <= |content| then content[old(pos)..] else []
      ensures pos == old(pos) + |chunk|
    {
      if pos + n <= |content| {
        chunk := content[pos..pos + n];
      } else if pos <= |content| {
        chunk := content[pos..];
      } else {
        chunk := [];
      }
      pos := pos + |chunk|;
    }

    method ReadLine() returns (line: Bytes)
      modifies this
      ensures line == Line(content, old(pos)) && pos == LineEnd(content, old(pos))
    {
      line := Line(content, pos);
      pos := LineEnd(content, pos);
    }
  }
}
