/** Writing the parts of a block into the output buffer, with the over-writing the source does. */
module Lz4Writer {
  import opened Lz4Block
  import opened Lz4Reference
  import opened Lz4Memory

  lemma {:induction false} LengthBytesForm(n: nat)
    ensures forall k :: 0 <= k < n / 255 ==> LengthBytes(n)[k] == 255
    ensures LengthBytes(n)[n / 255] == n % 255
  {
    if n >= 255 {
      LengthBytesForm(n - 255);
      assert n / 255 == (n - 255) / 255 + 1 && n % 255 == (n - 255) % 255;
      assert forall k :: 0 < k <= n / 255 ==> LengthBytes(n)[k] == LengthBytes(n - 255)[k - 1];
    }
  }

  lemma IsLengthBytes(r: seq<byte>, n: nat)
    requires |r| == n / 255 + 1
    requires forall k :: 0 <= k < n / 255 ==> r[k] == 255
    requires r[n / 255] == n % 255
    ensures r == LengthBytes(n)
  {
    LengthBytesForm(n);
  }

  /** The loop that writes a length one byte at a time. */
  method WriteLength(dest: array<byte>, start: nat, n: nat) returns (op: nat)
    requires start + n / 255 + 1 <= dest.Length
    modifies dest
    ensures op == start + n / 255 + 1 && dest[start..op] == LengthBytes(n)
    ensures forall i :: 0 <= i < start || op <= i < dest.Length ==> dest[i] == old(dest[i])
  {
    var len := n;
    op := start;
    while len >= 255
      invariant start <= op && len >= 0 && (op - start) * 255 + len == n
      invariant forall k :: start <= k < op ==> dest[k] == 255
      invariant forall i :: 0 <= i < start || op <= i < dest.Length ==> dest[i] == old(dest[i])
    {
      dest[op] := 255;
      op, len := op + 1, len - 255;
    }
    dest[op] := len;
    op := op + 1;
    assert op - start == n / 255 + 1 && len == n % 255;
    IsLengthBytes(dest[start..op], n);
  }

  method Write32(dest: array<byte>, op: nat)
    requires op + 4 <= dest.Length
    modifies dest
    ensures forall k :: op <= k < op + 4 ==> dest[k] == 255
    ensures forall i :: 0 <= i < op || op + 4 <= i < dest.Length ==> dest[i] == old(dest[i])
  {
    dest[op], dest[op + 1], dest[op + 2], dest[op + 3] := 255, 255, 255, 255;
  }

  /** Where the stores of the following loop end. */
  function By4End(start: nat, n: nat): nat {
    start + n / 1020 * 4 + 4
  }

  /** The loop that writes a match length four bytes at a time, up to 3 bytes past what it keeps; they
      hold 255. */
  method WriteLengthBy4(dest: array<byte>, start: nat, n: nat) returns (op: nat)
    requires By4End(start, n) <= dest.Length
    modifies dest
    ensures op == start + n / 255 + 1 <= By4End(start, n) && dest[start..op] == LengthBytes(n)
    ensures forall i :: op <= i < By4End(start, n) ==> dest[i] == 255
    ensures forall i :: 0 <= i < start || By4End(start, n) <= i < dest.Length ==> dest[i] == old(dest[i])
  {
    hide LengthBytes, By4End;
    op := start;
    var len: nat := n;
    By4EndBounds(start, n);
    Write32(dest, op);
    while len >= 4 * 255
      invariant start <= op && op + 4 <= dest.Length && (op - start) * 255 + len == n && (op - start) % 4 == 0
      invariant forall k :: start <= k < op + 4 ==> dest[k] == 255
      invariant forall i :: 0 <= i < start || op + 4 <= i < dest.Length ==> dest[i] == old(dest[i])
    {
      FourMore(start, n, op - start, len);
      op := op + 4;
      Write32(dest, op);
      len := len - 4 * 255;
    }
    FourByFour(start, n, op - start, len);
    op := op + len / 255;
    dest[op] := len % 255;
    op := op + 1;
    IsLengthBytes(dest[start..op], n);
  }

  lemma By4EndBounds(start: nat, n: nat)
    ensures start + 4 <= By4End(start, n)
  {
  }

  lemma FourMore(start: nat, n: nat, written: nat, len: nat)
    requires written * 255 + len == n && len >= 4 * 255 && written % 4 == 0
    ensures start + written + 8 <= By4End(start, n)
  {
  }

  lemma FourByFour(start: nat, n: nat, written: nat, len: nat)
    requires written * 255 + len == n && len < 4 * 255 && written % 4 == 0
    ensures By4End(start, n) == start + written + 4
    ensures written + len / 255 == n / 255 && len % 255 == n % 255 && 0 <= len / 255 <= 3
  {
  }

  /** The token at `t` and the literals after it are in place; the token's low half is still zero. */
  ghost predicate Pending(dest: seq<byte>, t: nat, op: nat, literals: seq<byte>) {
    t <= op <= |dest| && dest[t..op] == [Token(|literals|, 0)] + (Extra(|literals|) + literals)
  }

  lemma Join(d: seq<byte>, a: nat, b: nat, c: nat)
    requires a <= b <= c <= |d|
    ensures d[a..c] == d[a..b] + d[b..c]
  {
  }

  /** A token with the literal length, and what does not fit in it. */
  method WriteHead(dest: array<byte>, t: nat, n: nat) returns (op: nat)
    requires t + 1 + |Extra(n)| <= dest.Length
    modifies dest
    ensures op == t + 1 + |Extra(n)| && dest[t..op] == [Token(n, 0)] + Extra(n)
    ensures forall i :: 0 <= i < t || op <= i < dest.Length ==> dest[i] == old(dest[i])
  {
    hide LengthBytes, Token;
    op := t + 1;
    dest[t] := Token(n, 0);
    if n >= RUN_MASK {
      op := WriteLength(dest, op, n - RUN_MASK);
    }
    Join(dest[..], t, t + 1, op);
    assert dest[t + 1..op] == Extra(n);
  }

  method EncodeLiterals(dest: array<byte>, t: nat, m: seq<byte>, anchor: nat, litLength: nat) returns (op: nat)
    requires anchor + CopyEnd(litLength) <= |m|
    requires t + 1 + (litLength + 240) / 255 + CopyEnd(litLength) <= dest.Length
    modifies dest
    ensures op == t + 1 + (litLength + 240) / 255 + litLength
    ensures Pending(dest[..], t, op, m[anchor..anchor + litLength])
    ensures forall i :: 0 <= i < t || op - litLength + CopyEnd(litLength) <= i < dest.Length ==> dest[i] == old(dest[i])
  {
    hide Extra, Token, CopyEnd;
    op := WriteHead(dest, t, litLength);
    ghost var head := dest[t..op];
    ghost var start := op;
    WildCopyIn(dest, op, m, anchor, op + litLength);
    op := op + litLength;
    Pieces(dest[..], t, start, op, head, m[anchor..anchor + litLength], litLength);
  }

  lemma Pieces(d: seq<byte>, t: nat, start: nat, op: nat, head: seq<byte>, literals: seq<byte>, n: nat)
    requires t <= start <= op <= |d| && n == |literals| == op - start
    requires |head| == start - t && (forall k :: t <= k < start ==> d[k] == head[k - t])
    requires head == [Token(n, 0)] + Extra(n)
    requires forall k :: start <= k < op ==> d[k] == literals[k - start]
    ensures d[t..op] == [Token(n, 0)] + (Extra(n) + literals)
  {
    hide Extra, Token;
    Join(d, t, start, op);
    assert d[t..start] == head && d[start..op] == literals;
    assert ([Token(n, 0)] + Extra(n)) + literals == [Token(n, 0)] + (Extra(n) + literals);
  }

  lemma TokenSum(literalLength: nat, matchCode: nat)
    ensures Token(literalLength, 0) + Nibble(matchCode) == Token(literalLength, matchCode)
  {
  }

  /** Where the stores end that write a match length at `start`.  The two encoders differ in how they
      write a long length: `by4` is the one that over-writes. */
  function ScratchEnd(start: nat, matchCode: nat, by4: bool): (end: nat)
    ensures start + (matchCode + 240) / 255 <= end <= start + (matchCode + 240) / 255 + 3
    ensures !by4 ==> end == start + (matchCode + 240) / 255
  {
    if matchCode < ML_MASK then start
    else if by4 then start + (matchCode - ML_MASK) / 1020 * 4 + 4
    else start + (matchCode - ML_MASK) / 255 + 1
  }

  /** The match length, in the token at `t` and from `start` on. */
  method WriteMatchCode(dest: array<byte>, t: nat, start: nat, matchCode: nat, by4: bool) returns (op: nat)
    requires t < start && ScratchEnd(start, matchCode, by4) <= dest.Length
    requires dest[t] + Nibble(matchCode) < 256
    modifies dest
    ensures op == start + |Extra(matchCode)| && dest[start..op] == Extra(matchCode)
    ensures dest[t] == old(dest[t]) + Nibble(matchCode)
    ensures forall i :: op <= i < ScratchEnd(start, matchCode, by4) ==> dest[i] == 255
    ensures forall i :: 0 <= i < t || t < i < start || ScratchEnd(start, matchCode, by4) <= i < dest.Length ==> dest[i] == old(dest[i])
  {
    hide LengthBytes;
    op := start;
    if matchCode >= ML_MASK {
      dest[t] := dest[t] + ML_MASK;
      if by4 {
        op := WriteLengthBy4(dest, op, matchCode - ML_MASK);
      } else {
        op := WriteLength(dest, op, matchCode - ML_MASK);
      }
    } else {
      dest[t] := dest[t] + matchCode;
    }
  }

  /** LZ4_writeLE16. */
  method WriteLe16(dest: array<byte>, op: nat, offset: nat)
    requires op + 2 <= dest.Length
    modifies dest
    ensures dest[op..op + 2] == Le16(offset)
    ensures forall i :: 0 <= i < op || op + 2 <= i < dest.Length ==> dest[i] == old(dest[i])
  {
    dest[op] := offset % 256;
    dest[op + 1] := offset / 256 % 256;
  }

  lemma PendingFrame(out: seq<byte>, out': seq<byte>, t: nat, op: nat, literals: seq<byte>)
    requires Pending(out, t, op, literals) && op <= |out'| && forall i :: 0 <= i < op ==> out'[i] == out[i]
    ensures Pending(out', t, op, literals)
  {
    assert out'[t..op] == out[t..op];
  }

  lemma PendingParts(out: seq<byte>, t: nat, op: nat, literals: seq<byte>)
    requires Pending(out, t, op, literals)
    ensures t < op && out[t] == Token(|literals|, 0) && out[t + 1..op] == Extra(|literals|) + literals
  {
    hide Token, Extra;
    var x := Extra(|literals|);
    assert out[t] == out[t..op][0];
    assert out[t + 1..op] == out[t..op][1..];
  }

  /** The match length completes the sequence whose literals and offset are in place. */
  method EncodeMatch(dest: array<byte>, t: nat, start: nat, offset: nat, matchCode: nat, by4: bool, ghost literals: seq<byte>)
    returns (op: nat)
    requires Pending(dest[..], t, start, literals)
    requires ScratchEnd(start + 2, matchCode, by4) <= dest.Length && dest[start..start + 2] == Le16(offset)
    modifies dest
    ensures op == start + 2 + (matchCode + 240) / 255
    ensures dest[t..op] == EncodeSequence(Sequence(literals, offset, matchCode + MINMATCH))
    ensures dest[start + 2..op] == Extra(matchCode)
    ensures forall i :: op <= i < ScratchEnd(start + 2, matchCode, by4) ==> dest[i] == 255
    ensures forall i :: 0 <= i < t || ScratchEnd(start + 2, matchCode, by4) <= i < dest.Length ==> dest[i] == old(dest[i])
  {
    hide Extra, Token, Nibble, ScratchEnd, Pending, Le16;
    PendingParts(dest[..], t, start, literals);
    ghost var body, tail := dest[t + 1..start], dest[start..start + 2];
    TokenSum(|literals|, matchCode);
    op := WriteMatchCode(dest, t, start + 2, matchCode, by4);
    assert dest[t + 1..start] == body && dest[start..start + 2] == tail;
    AssembleSequence(dest[..], t, start, op, literals, offset, matchCode);
  }

  lemma AssembleSequence(d: seq<byte>, t: nat, start: nat, op: nat, literals: seq<byte>, offset: nat, matchCode: nat)
    requires t + 1 <= start && start + 2 <= op <= |d|
    requires d[t] == Token(|literals|, matchCode)
    requires d[t + 1..start] == Extra(|literals|) + literals
    requires d[start..start + 2] == Le16(offset)
    requires d[start + 2..op] == Extra(matchCode)
    ensures d[t..op] == EncodeSequence(Sequence(literals, offset, matchCode + MINMATCH))
  {
    hide Extra, Token, Le16;
    var x, f, e := Extra(|literals|), Le16(offset), Extra(matchCode);
    assert d[t..op] == [d[t]] + (d[t + 1..start] + (d[start..start + 2] + d[start + 2..op]));
    assert (x + literals) + (f + e) == x + (literals + (f + e));
  }

  /** The last literals, copied with their exact length. */
  method EncodeLastLiterals(dest: array<byte>, start: nat, m: seq<byte>, anchor: nat, lastRun: nat) returns (op: nat)
    requires anchor + lastRun <= |m|
    requires start + 1 + (lastRun + 240) / 255 + lastRun <= dest.Length
    modifies dest
    ensures op == start + 1 + (lastRun + 240) / 255 + lastRun
    ensures dest[start..op] == EncodeLast(m[anchor..anchor + lastRun])
    ensures forall i :: 0 <= i < start || op <= i < dest.Length ==> dest[i] == old(dest[i])
  {
    hide Extra, Token;
    op := WriteHead(dest, start, lastRun);
    ghost var head := dest[start..op];
    ghost var middle := op;
    MemCopyIn(dest, op, m, anchor, lastRun);
    op := op + lastRun;
    Pieces(dest[..], start, middle, op, head, m[anchor..anchor + lastRun], lastRun);
  }
}
