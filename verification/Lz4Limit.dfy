/** What the stores of a call with limited output do at and past the limit. */
module Lz4Limit {
  import opened Lz4Block
  import opened Lz4Writer

  /** How far past the limit a call with limited output may store: about one byte for every 65280 bytes
      of input, because the limit is tested against matchCode / 256 where the length takes
      matchCode / 255 bytes.  None for inputs below 134655 bytes. */
  function Overrun(size: nat): nat {
    if size < 134655 then 0 else size / 65280 - 1
  }

  /** The test of the limit for a match, made behind its offset. */
  predicate PassesLimit(op: nat, matchCode: nat, maxOutputSize: nat) {
    op + (1 + LASTLITERALS) + matchCode / 256 <= maxOutputSize
  }

  /** After the test, the length and the next token and offset stay below the store limit. */
  lemma PassedLimit(op: nat, matchCode: nat, maxOutputSize: nat, size: nat)
    requires PassesLimit(op, matchCode, maxOutputSize) && matchCode <= size
    ensures op + (matchCode + 240) / 255 + 3 <= maxOutputSize + Overrun(size)
  {
    if size < 134655 {
      ShortMatchKeepsLimit(matchCode);
    } else {
      assert matchCode / 255 <= matchCode / 256 + matchCode / 65280 + 1;
      assert matchCode / 65280 <= size / 65280;
    }
  }

  /** Where the stores end that follow a passed test without another one: those of the length, in fours,
      and the token and offset of a match that is `chained`, begun right behind. */
  function StoresEnd(op: nat, matchCode: nat, chained: bool): (end: nat)
    ensures ScratchEnd(op, matchCode, true) <= end
  {
    if chained then op + (matchCode + 240) / 255 + 3 else ScratchEnd(op, matchCode, true)
  }

  /** The test keeps these stores below the limit, whatever the position and the limit are, if and only
      if the match code is not too long. */
  lemma LimitTestExact(matchCode: nat)
    ensures (forall op: nat, limit: nat :: PassesLimit(op, matchCode, limit) ==> StoresEnd(op, matchCode, true) <= limit)
       <==> (matchCode + 240) / 255 <= matchCode / 256 + 3
    ensures (forall op: nat, limit: nat :: PassesLimit(op, matchCode, limit) ==> StoresEnd(op, matchCode, false) <= limit)
       <==> matchCode < ML_MASK || (matchCode - ML_MASK) / 1020 * 4 <= matchCode / 256 + 2
  {
    var op: nat, limit: nat := 0, 1 + LASTLITERALS + matchCode / 256;
    assert PassesLimit(op, matchCode, limit);
  }

  /** 134655 is the first code that is too long. */
  lemma ShortMatchKeepsLimit(matchCode: nat)
    ensures matchCode < 134655 ==> (matchCode + 240) / 255 <= matchCode / 256 + 3
    ensures matchCode == 134655 ==> (matchCode + 240) / 255 > matchCode / 256 + 3
  {
    var q, r := matchCode / 256, matchCode % 256;
    assert (matchCode + 240) / 255 == q + (q + r + 240) / 255;
  }

  // ----- What limited output leaves at and past its limit -----

  /** What was stored since a test of the limit: nothing that reaches it, or the length of a match from
      `op` on, and behind it the token and offset `next` of another match if that is not 0. */
  datatype Tail = Tested | Untested(op: nat, code: nat, next: nat)

  function TailEnd(t: Tail): nat
    requires t.Untested?
  {
    StoresEnd(t.op, t.code, t.next != 0)
  }

  /** Nothing is stored at or past the limit. */
  predicate Keeps(t: Tail, limit: nat) {
    t.Tested? || TailEnd(t) <= limit
  }

  /** The byte stored at `i`: of the length, then of the token and offset or else of the over-writing. */
  function TailByte(t: Tail, i: nat): byte
    requires t.Untested? && t.op <= i
  {
    var end := t.op + (t.code + 240) / 255;
    if i < end then Extra(t.code)[i - t.op]
    else if t.next != 0 && i < end + 3 then ([0] + Le16(t.next))[i - end]
    else 255
  }

  function LeftByte(before: seq<byte>, t: Tail, i: nat): byte
    requires i < |before| && (t.Untested? ==> t.op <= i)
  {
    if t.Untested? && i < TailEnd(t) then TailByte(t, i) else before[i]
  }

  /** All that a call stored at or past its limit is its tail; the last `missing` bytes of the tail may
      still be to come. */
  ghost predicate Left(out: seq<byte>, before: seq<byte>, limit: nat, t: Tail, missing: nat) {
    && |out| == |before|
    && (t.Untested? ==> PassesLimit(t.op, t.code, limit))
    && forall i :: limit <= i < |out| && (t.Untested? && i < TailEnd(t) ==> i < TailEnd(t) - missing) ==>
         out[i] == LeftByte(before, t, i)
  }

  /** `t` is the tail of the sequences `ss`, the last of which it ends. */
  ghost predicate IsTailOf(t: Tail, ss: seq<Sequence>, op: nat, size: nat) {
    t.Untested? ==> && ss != [] && ss[|ss| - 1].matchLength == t.code + MINMATCH
                    && op == t.op + (t.code + 240) / 255 && t.code <= size
  }

  /** A passed test behind a tail means that the tail kept the limit. */
  lemma LeftAfterTest(out': seq<byte>, out: seq<byte>, before: seq<byte>, limit: nat, t: Tail, t': Tail)
    requires Left(out, before, limit, t, 2) && Keeps(t, limit) && Left(out', out, limit, t', 0)
    ensures Left(out', before, limit, t', 0)
  {
    hide TailByte, TailEnd;
    forall i | limit <= i < |out'| ensures out[i] == before[i] {
      assert out[i] == LeftByte(before, t, i);
    }
  }

  lemma LeftNothing(out: seq<byte>, before: seq<byte>, limit: nat)
    requires |out| == |before| && forall i :: limit <= i < |out| ==> out[i] == before[i]
    ensures Left(out, before, limit, Tested, 0)
  {
  }

  /** Stores below the limit do not touch the tail. */
  lemma LeftStays(out': seq<byte>, out: seq<byte>, before: seq<byte>, limit: nat, t: Tail)
    requires Left(out, before, limit, t, 0) && |out'| == |out| && forall i :: limit <= i < |out| ==> out'[i] == out[i]
    ensures Left(out', before, limit, t, 0)
  {
  }

  /** The token of a match that follows at once is stored. */
  lemma LeftToken(out: seq<byte>, before: seq<byte>, limit: nat, t: Tail, end: nat, next: nat)
    requires t.Untested? && t.next == 0 && end == t.op + (t.code + 240) / 255 < |out| && next > 0
    requires Left(out, before, limit, t, 0)
    ensures Left(out[end := 0], before, limit, t.(next := next), 2)
  {
    hide Extra, Le16;
    var t', out' := t.(next := next), out[end := 0];
    forall i | limit <= i < |out| && (i < TailEnd(t') ==> i < TailEnd(t') - 2)
      ensures out'[i] == LeftByte(before, t', i)
    {
      assert i != end ==> out[i] == LeftByte(before, t, i);
    }
  }

  /** And then its offset. */
  lemma LeftOffset(out': seq<byte>, out: seq<byte>, before: seq<byte>, limit: nat, t: Tail, op: nat)
    requires t.Untested? && t.next != 0 && op == t.op + (t.code + 240) / 255 + 1 && op + 2 <= |out|
    requires Left(out, before, limit, t, 2) && |out'| == |out| && out'[op..op + 2] == Le16(t.next)
    requires forall i :: 0 <= i < |out| && !(op <= i < op + 2) ==> out'[i] == out[i]
    ensures Left(out', before, limit, t, 0)
  {
    hide Extra, Le16;
    forall i | limit <= i < |out| ensures out'[i] == LeftByte(before, t, i) {
      if op <= i < op + 2 {
        assert out'[i] == out'[op..op + 2][i - op];
      } else {
        assert out[i] == LeftByte(before, t, i);
      }
    }
  }

  /** The length of a match is stored. */
  lemma LeftLength(out': seq<byte>, out: seq<byte>, limit: nat, t: Tail, end: nat)
    requires t.Untested? && t.next == 0 && PassesLimit(t.op, t.code, limit) && |out'| == |out|
    requires end == t.op + (t.code + 240) / 255 <= |out| && out'[t.op..end] == Extra(t.code)
    requires forall i :: end <= i < ScratchEnd(t.op, t.code, true) && i < |out| ==> out'[i] == 255
    requires forall i :: ScratchEnd(t.op, t.code, true) <= i < |out| ==> out'[i] == out[i]
    ensures Left(out', out, limit, t, 0)
  {
    hide Extra, ScratchEnd;
    forall i | limit <= i < |out| ensures out'[i] == LeftByte(out, t, i) {
      if i < end {
        assert out'[i] == out'[t.op..end][i - t.op];
      }
    }
  }

  /** What was stored below where the tail begins does not matter. */
  lemma LeftEarlier(out': seq<byte>, out: seq<byte>, before: seq<byte>, limit: nat, t: Tail)
    requires t.Untested? && Left(out', out, limit, t, 0) && |out| == |before| && forall i :: t.op <= i < |out| ==> out[i] == before[i]
    ensures Left(out', before, limit, t, 0)
  {
    hide TailByte, TailEnd;
    forall i | limit <= i < |out'| ensures out'[i] == LeftByte(before, t, i) {
      assert out'[i] == LeftByte(out, t, i);
    }
  }

  /** A tail that keeps the limit leaves everything there as it was. */
  lemma KeepsLeaves(out: seq<byte>, before: seq<byte>, limit: nat, t: Tail)
    requires Left(out, before, limit, t, 0) && Keeps(t, limit)
    ensures forall i :: limit <= i < |out| ==> out[i] == before[i]
  {
    hide TailByte, PassesLimit;
    forall i | limit <= i < |out| ensures out[i] == before[i] {
      assert out[i] == LeftByte(before, t, i);
    }
  }

  /** Every tail of an input below 134655 bytes does. */
  lemma ShortInputKeeps(out: seq<byte>, before: seq<byte>, limit: nat, t: Tail, ss: seq<Sequence>, op: nat, size: nat)
    requires Left(out, before, limit, t, 0) && IsTailOf(t, ss, op, size) && size < 134655
    ensures Keeps(t, limit) && forall i :: limit <= i < |out| ==> out[i] == before[i]
  {
    if t.Untested? {
      ShortMatchKeepsLimit(t.code);
    }
    KeepsLeaves(out, before, limit, t);
  }

  lemma TailGoesOn(t: Tail, ss: seq<Sequence>, op: nat, size: nat, next: nat)
    requires t.Untested? && IsTailOf(t, ss, op, size)
    ensures IsTailOf(t.(next := next), ss, op, size) && op == t.op + (t.code + 240) / 255
  {
  }

  /** What is left at the label _next_match: either all was tested and there is room for the offset, or
      the offset to be stored at `op` will complete the tail. */
  ghost predicate Pauses(out: seq<byte>, before: seq<byte>, limit: nat, t: Tail, op: nat, offset: int) {
    && Left(out, before, limit, t, 2)
    && if t.Tested? then op + 2 <= limit
       else t.next == offset && t.next != 0 && op == t.op + (t.code + 240) / 255 + 1
  }

  lemma PauseBegins(out: seq<byte>, limit: nat, op: nat, offset: int)
    requires op + 2 <= limit
    ensures Pauses(out, out, limit, Tested, op, offset)
  {
  }

  lemma PauseStarts(out': seq<byte>, out: seq<byte>, before: seq<byte>, limit: nat, t: Tail, end: nat, offset: nat)
    requires t.Untested? && t.next == 0 && end == t.op + (t.code + 240) / 255 < |out| && offset > 0
    requires Left(out, before, limit, t, 0) && out' == out[end := 0]
    ensures Pauses(out', before, limit, t.(next := offset), end + 1, offset)
  {
    hide Left;
    LeftToken(out, before, limit, t, end, offset);
  }

  lemma PauseEnds(out': seq<byte>, out: seq<byte>, before: seq<byte>, limit: nat, t: Tail, op: nat, offset: nat)
    requires Pauses(out, before, limit, t, op, offset) && op + 2 <= |out|
    requires |out'| == |out| && out'[op..op + 2] == Le16(offset)
    requires forall i :: 0 <= i < |out| && !(op <= i < op + 2) ==> out'[i] == out[i]
    ensures Left(out', before, limit, t, 0)
  {
    hide Le16;
    if t.Tested? {
      LeftNothing(out', before, limit);
    } else {
      hide Left;
      LeftOffset(out', out, before, limit, t, op);
    }
  }

  lemma PausePasses(out': seq<byte>, out: seq<byte>, before: seq<byte>, limit: nat, t: Tail, op: nat, offset: int, t': Tail)
    requires Pauses(out, before, limit, t, op, offset)
    requires t'.Untested? && t'.op == op + 2 && Left(out', out, limit, t', 0)
    ensures Left(out', before, limit, t', 0)
  {
    assert PassesLimit(op + 2, t'.code, limit);
    hide Left;
    LeftAfterTest(out', out, before, limit, t, t');
  }

  lemma TailOfLast(ss: seq<Sequence>, s: Sequence, op: nat, code: nat, end: nat, size: nat)
    requires s.matchLength == code + MINMATCH && end == op + (code + 240) / 255 && code <= size
    ensures IsTailOf(Untested(op, code, 0), ss + [s], end, size)
  {
  }

  lemma NoTail(ss: seq<Sequence>, op: nat, size: nat)
    ensures IsTailOf(Tested, ss, op, size)
  {
  }

  /** The test of the literals is behind the tail. */
  lemma TailTested(out': seq<byte>, out: seq<byte>, before: seq<byte>, limit: nat, t: Tail, ss: seq<Sequence>, op: nat, size: nat)
    requires Left(out, before, limit, t, 0) && IsTailOf(t, ss, op, size) && op + 9 <= limit && (t.Untested? ==> t.next == 0)
    requires |out'| == |out| && forall i :: limit <= i < |out| ==> out'[i] == out[i]
    ensures forall i :: limit <= i < |out| ==> out'[i] == before[i]
    ensures |out'| == |before|
  {
    KeepsLeaves(out, before, limit, t);
  }

  lemma LeftFrom(out': seq<byte>, out: seq<byte>, before: seq<byte>, limit: nat, t: Tail)
    requires Left(out', out, limit, t, 0) && |out| == |before| && forall i :: limit <= i < |out| ==> out[i] == before[i]
    ensures Left(out', before, limit, t, 0)
  {
    hide TailByte, TailEnd;
    forall i | limit <= i < |out'| && (t.Untested? && i < TailEnd(t) ==> i < TailEnd(t) - 0)
      ensures out'[i] == LeftByte(before, t, i)
    {
      assert out'[i] == LeftByte(out, t, i);
    }
  }

  lemma TailKept(tail: Tail, ss: seq<Sequence>, op: nat, size: nat, r: nat, limit: nat)
    requires IsTailOf(tail, ss, op, size) && (tail.Untested? ==> tail.next == 0) && (ss != [] ==> op + 6 <= r) && r <= limit
    ensures Keeps(tail, limit)
  {
  }
}
