/** The LZ4 block format as data: a block is a list of sequences and a run of last literals.
    `EncodeBlock` gives its bytes, `ExpandBlock` the bytes it stands for, and `Restricted` the
    end-of-block parsing restrictions the encoder keeps and the decoder checks. */
module Lz4Block {

  type byte = x: int | 0 <= x < 256

  const MINMATCH := 4
  const WILDCOPYLENGTH := 8
  const LASTLITERALS := 5
  const MFLIMIT := WILDCOPYLENGTH + MINMATCH
  const MAX_DISTANCE := 65535
  const RUN_MASK := 15
  const ML_MASK := 15

  datatype Sequence = Sequence(literals: seq<byte>, offset: nat, matchLength: nat)

  datatype Block = Block(sequences: seq<Sequence>, last: seq<byte>)

  // ----- What a block stands for -----

  /** The byte-at-a-time overlapping copy: append `length` bytes, each read `offset` back from the
      end of what has been produced so far.  Offset 0 (never produced by an encoder) reads zeros. */
  function ByteCopy(out: seq<byte>, offset: nat, length: nat): (r: seq<byte>)
    ensures |r| == |out| + length
  {
    if length == 0 then out
    else
      var prev := ByteCopy(out, offset, length - 1);
      prev + [if 0 < offset <= |prev| then prev[|prev| - offset] else 0]
  }

  function Expand(out: seq<byte>, s: Sequence): (r: seq<byte>)
    ensures |r| == |out| + |s.literals| + s.matchLength
  {
    ByteCopy(out + s.literals, s.offset, s.matchLength)
  }

  function ExpandAll(hist: seq<byte>, ss: seq<Sequence>): seq<byte> {
    if ss == [] then hist
    else Expand(ExpandAll(hist, ss[..|ss| - 1]), ss[|ss| - 1])
  }

  function ExpandBlock(hist: seq<byte>, b: Block): seq<byte> {
    ExpandAll(hist, b.sequences) + b.last
  }

  // ----- The bytes of a block -----

  function LengthBytes(n: nat): (r: seq<byte>)
    ensures |r| == n / 255 + 1
  {
    if n >= 255 then [255] + LengthBytes(n - 255) else [n]
  }

  /** The bytes that follow a 4-bit length field whose value is `n`. */
  function Extra(n: nat): (r: seq<byte>)
    ensures |r| == (n + 240) / 255
  {
    if n >= 15 then LengthBytes(n - 15) else []
  }

  function Nibble(n: nat): (r: nat)
    ensures r <= 15
  {
    if n >= 15 then 15 else n
  }

  function Le16(n: nat): seq<byte> {
    [n % 256, n / 256 % 256]
  }

  /** The token byte: a 4-bit literal length over a 4-bit match length. */
  function Token(literalLength: nat, matchCode: nat): (r: byte)
    ensures HighNibble(r) == Nibble(literalLength) && LowNibble(r) == Nibble(matchCode)
  {
    Nibble(literalLength) * 16 + Nibble(matchCode)
  }

  function HighNibble(token: byte): (r: nat)
    ensures r <= 15
  {
    token / 16
  }

  function LowNibble(token: byte): (r: nat)
    ensures r <= 15
  {
    token % 16
  }

  function EncodeSequence(s: Sequence): (r: seq<byte>)
    requires s.matchLength >= MINMATCH
    ensures |r| == 3 + (|s.literals| + 240) / 255 + |s.literals| + (s.matchLength + 236) / 255
  {
    [Token(|s.literals|, s.matchLength - MINMATCH)]
    + (Extra(|s.literals|) + (s.literals + (Le16(s.offset) + Extra(s.matchLength - MINMATCH))))
  }

  function EncodeLast(last: seq<byte>): (r: seq<byte>)
    ensures |r| == 1 + (|last| + 240) / 255 + |last|
  {
    [Token(|last|, 0)] + (Extra(|last|) + last)
  }

  predicate LongMatches(ss: seq<Sequence>) {
    forall i :: 0 <= i < |ss| ==> ss[i].matchLength >= MINMATCH
  }

  function EncodeAll(ss: seq<Sequence>): seq<byte>
    requires LongMatches(ss)
  {
    if ss == [] then [] else EncodeAll(ss[..|ss| - 1]) + EncodeSequence(ss[|ss| - 1])
  }

  function EncodeBlock(b: Block): seq<byte>
    requires LongMatches(b.sequences)
  {
    EncodeAll(b.sequences) + EncodeLast(b.last)
  }

  // ----- The parsing restrictions -----

  /** Where the match of sequence `i` starts, counted from the start of the history. */
  function MatchStart(hist: seq<byte>, ss: seq<Sequence>, i: nat): nat
    requires i < |ss|
  {
    |ExpandAll(hist, ss[..i])| + |ss[i].literals|
  }

  /** Sequence `i` keeps the restrictions when the history and the block add up to `total` bytes:
      a 16-bit offset that stays within what is already decoded, no match starting within the last
      12 bytes, none reaching into the last 5. */
  ghost predicate RestrictedAt(hist: seq<byte>, ss: seq<Sequence>, i: nat, total: nat)
    requires i < |ss|
  {
    var start := MatchStart(hist, ss, i);
    && ss[i].matchLength >= MINMATCH
    && 1 <= ss[i].offset <= MAX_DISTANCE
    && ss[i].offset <= start
    && start + MFLIMIT <= total
    && start + ss[i].matchLength + LASTLITERALS <= total
  }

  ghost predicate RestrictedAll(hist: seq<byte>, ss: seq<Sequence>, total: nat) {
    forall i {:trigger RestrictedAt(hist, ss, i, total)} :: 0 <= i < |ss| ==> RestrictedAt(hist, ss, i, total)
  }

  ghost predicate Restricted(hist: seq<byte>, b: Block) {
    && LongMatches(b.sequences)
    && RestrictedAll(hist, b.sequences, |ExpandBlock(hist, b)|)
  }

  /** `bytes` is the encoding of the restricted block `b`, which turns `hist` into `hist + data`. */
  ghost predicate Represents(b: Block, bytes: seq<byte>, hist: seq<byte>, data: seq<byte>) {
    Restricted(hist, b) && EncodeBlock(b) == bytes && ExpandBlock(hist, b) == hist + data
  }

  ghost predicate IsBlockFor(bytes: seq<byte>, hist: seq<byte>, data: seq<byte>) {
    exists b: Block :: Represents(b, bytes, hist, data)
  }

  /** Where the token of the last literals lies. */
  function LastToken(b: Block): nat
    requires LongMatches(b.sequences)
  {
    |EncodeAll(b.sequences)|
  }

  // ----- Facts about growing a block by one sequence -----

  lemma AppendSequence(hist: seq<byte>, ss: seq<Sequence>, s: Sequence)
    requires LongMatches(ss) && s.matchLength >= MINMATCH
    ensures LongMatches(ss + [s])
    ensures EncodeAll(ss + [s]) == EncodeAll(ss) + EncodeSequence(s)
    ensures ExpandAll(hist, ss + [s]) == Expand(ExpandAll(hist, ss), s)
  {
    assert (ss + [s])[..|ss|] == ss;
  }

  lemma ExpandGrows(hist: seq<byte>, ss: seq<Sequence>)
    ensures hist <= ExpandAll(hist, ss)
  {
    if ss != [] {
      ExpandGrows(hist, ss[..|ss| - 1]);
      var s := ss[|ss| - 1];
      var out := ExpandAll(hist, ss[..|ss| - 1]);
      ByteCopyPrefix(out + s.literals, s.offset, s.matchLength);
      assert out + s.literals <= ExpandAll(hist, ss);
    }
  }

  lemma ByteCopyPrefix(out: seq<byte>, offset: nat, length: nat)
    ensures out <= ByteCopy(out, offset, length)
  {
  }

  /** Restrictions on a list that grows at the end carry over sequence by sequence. */
  lemma AppendRestricted(hist: seq<byte>, ss: seq<Sequence>, s: Sequence, total: nat)
    requires RestrictedAll(hist, ss, total)
    requires s.matchLength >= MINMATCH && 1 <= s.offset <= MAX_DISTANCE
    requires s.offset <= |ExpandAll(hist, ss)| + |s.literals|
    requires |ExpandAll(hist, ss)| + |s.literals| + MFLIMIT <= total
    requires |ExpandAll(hist, ss)| + |s.literals| + s.matchLength + LASTLITERALS <= total
    ensures RestrictedAll(hist, ss + [s], total)
  {
    var tt := ss + [s];
    forall i | 0 <= i < |tt| ensures RestrictedAt(hist, tt, i, total) {
      if i < |ss| {
        assert tt[..i] == ss[..i];
        assert RestrictedAt(hist, ss, i, total);
      } else {
        assert tt[..i] == ss;
      }
    }
  }

  lemma RestrictedMonotone(hist: seq<byte>, ss: seq<Sequence>, total: nat, bigger: nat)
    requires RestrictedAll(hist, ss, total) && total <= bigger
    ensures RestrictedAll(hist, ss, bigger)
  {
    forall i | 0 <= i < |ss| ensures RestrictedAt(hist, ss, i, bigger) {
      assert RestrictedAt(hist, ss, i, total);
    }
  }

  // ----- The overlapping copy, as a closed form and as a recurrence -----

  /** The recurrence determines the copy: any byte string that extends `out` and repeats itself at
      distance `offset` from there on is the byte-at-a-time copy. */
  lemma {:induction false} ByteCopyUnique(out: seq<byte>, offset: nat, length: nat, r: seq<byte>)
    requires 1 <= offset <= |out|
    requires |r| == |out| + length && out <= r
    requires forall k :: |out| <= k < |r| ==> r[k] == r[k - offset]
    ensures r == ByteCopy(out, offset, length)
  {
    if length == 0 {
      assert r == out;
    } else {
      var shorter := r[..|r| - 1];
      ByteCopyUnique(out, offset, length - 1, shorter);
      assert r == shorter + [r[|r| - 1]];
      assert r[|r| - 1] == shorter[|shorter| - offset];
    }
  }

  lemma {:induction false} ByteCopyZero(out: seq<byte>, length: nat)
    ensures ByteCopy(out, 0, length) == out + seq(length, _ => 0)
  {
    if length == 0 {
      assert out + seq(0, _ => 0) == out;
    } else {
      ByteCopyZero(out, length - 1);
      assert seq(length, _ => 0) == seq(length - 1, _ => 0) + [0];
    }
  }
}
