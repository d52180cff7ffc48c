/** The one-shot entry points and the round trip through both decoders. */
module Lz4Codec {
  import opened Lz4Block
  import opened Lz4Reference
  import opened Lz4Matcher
  import opened Lz4Writer
  import opened Lz4Encoder
  import opened Lz4Limit
  import opened Lz4Plan
  import opened Lz4RoundTrip
  import opened Lz4DestSize
  import Lz4Decoder

  /** Any block for `data` after `hist`, whatever follows it in memory, decodes to exactly `data` in
      both modes: the safe decoder with any capacity that suffices, the other with the exact size, in
      which case it consumes exactly the bytes of the block. */
  lemma BlockDecodes(src: seq<byte>, bytes: seq<byte>, hist: seq<byte>, data: seq<byte>, capacity: nat)
    requires IsBlockFor(bytes, hist, data) && bytes <= src && |data| <= capacity
    ensures Lz4Decoder.Outcome(src, |bytes|, true, hist, capacity) == Done(|bytes|, hist + data)
    ensures Lz4Decoder.Outcome(src, 0, false, hist, |data|) == Done(|bytes|, hist + data)
  {
    hide Decode, Restricted, EncodeBlock, ExpandBlock, IsBlockFor;
    var b := TheBlock(bytes, hist, data);
    DecodeInvertsEncode(src, Lz4Decoder.Setup(true, |bytes|, hist, capacity), hist, b);
    DecodeInvertsEncode(src, Lz4Decoder.Setup(false, 0, hist, |data|), hist, b);
    if data == [] {
      EmptyBlock(hist, b);
      assert src[0] == bytes[0] && hist + data == hist;
    }
  }

  lemma TheBlock(bytes: seq<byte>, hist: seq<byte>, data: seq<byte>) returns (b: Block)
    requires IsBlockFor(bytes, hist, data)
    ensures LongMatches(b.sequences)
    ensures Restricted(hist, b) && EncodeBlock(b) == bytes && ExpandBlock(hist, b) == hist + data
    ensures Represents(b, bytes, hist, data)
  {
    hide RestrictedAll, EncodeAll, ExpandAll;
    b :| Represents(b, bytes, hist, data);
  }

  // ----- One-shot compression -----

  function FastTable(size: nat): TableType {
    if size < LIMIT_64K then ByU16 else ByU32
  }

  ghost function FastPlan(src: seq<byte>): (p: Plan)
    requires |src| <= MAX_INPUT_SIZE
    ensures LongMatches(p.ss) && p.anchor <= |src|
  {
    PlanOf(DestSizeJob(src, FastTable(|src|)), seq(TableSize(FastTable(|src|)), _ => 0))
  }

  /** The block of an input, and its size. */
  ghost function FastBlock(src: seq<byte>): Block
    requires |src| <= MAX_INPUT_SIZE
  {
    PlanBlock(DestSizeJob(src, FastTable(|src|)), FastPlan(src))
  }

  ghost function FastSize(src: seq<byte>): (n: nat)
    requires |src| <= MAX_INPUT_SIZE
    ensures LongMatches(FastBlock(src).sequences) && n == |EncodeBlock(FastBlock(src))|
  {
    BlockSize(DestSizeJob(src, FastTable(|src|)), FastPlan(src));
    PlanSize(DestSizeJob(src, FastTable(|src|)), FastPlan(src))
  }

  /** Equal bytes: one literal, one match and five literals. */
  lemma EqualSize(src: seq<byte>)
    requires 14 <= |src| <= MAX_INPUT_SIZE && forall i :: 0 <= i < |src| ==> src[i] == src[0]
    ensures FastBlock(src) == Block([Sequence(src[..1], 1, |src| - 6)], src[|src| - 5..])
    ensures FastSize(src) == 10 + (|src| - 10 + 240) / 255
  {
    hide PlanOf, PlanSize, EncodeBlock;
    EqualPlan(DestSizeJob(src, FastTable(|src|)), seq(TableSize(FastTable(|src|)), _ => 0));
  }

  /** No byte twice: literals alone. */
  lemma LiteralSize(src: seq<byte>)
    requires |src| <= MAX_INPUT_SIZE && forall i, j :: 0 <= i < j < |src| ==> src[i] != src[j]
    ensures FastBlock(src) == Block([], src) && FastSize(src) == 1 + (|src| + 240) / 255 + |src|
  {
    hide PlanOf, PlanSize, EncodeBlock;
    LiteralPlan(DestSizeJob(src, FastTable(|src|)), seq(TableSize(FastTable(|src|)), _ => 0));
    assert src[0..] == src;
  }

  /** LZ4_compress_fast_extState with acceleration 1, starting from a reset state: the 16-bit table
      below 64 KB, the 32-bit one above; the output limit is dropped when the capacity is at least the
      bound.  With the limit the call stores at or past it exactly what its tail does: nothing if it
      succeeds, and nothing for inputs below 134655 bytes.  It succeeds exactly when the block fits, which
      is the same block for every limit and without one. */
  method CompressFast(src: seq<byte>, dest: array<byte>, maxOutputSize: nat)
    returns (r: nat, ghost tail: Tail, ghost ss: seq<Sequence>, ghost until: nat)
    requires StoreLimit(|src|, maxOutputSize < CompressBound(|src|), maxOutputSize) <= dest.Length
    modifies dest
    ensures r == 0 ==> |src| > MAX_INPUT_SIZE || maxOutputSize < CompressBound(|src|)
    ensures r > 0 ==> |src| <= MAX_INPUT_SIZE && r <= maxOutputSize && r <= |src| + |src| / 255 + 2 && r <= dest.Length
    ensures r > 0 ==> IsBlockFor(dest[..r], [], src)
    ensures |src| <= MAX_INPUT_SIZE ==> r == if FastSize(src) <= maxOutputSize then FastSize(src) else 0
    ensures r > 0 ==> Represents(FastBlock(src), dest[..r], [], src)
    ensures |src| <= MAX_INPUT_SIZE && |src| + |src| / 255 + 16 <= maxOutputSize ==> r > 0
    ensures |src| > MAX_INPUT_SIZE ==> dest[..] == old(dest[..])
    ensures r > 0 ==> forall i :: r <= i < dest.Length ==> dest[i] == old(dest[i])
    ensures forall i :: StoreLimit(|src|, maxOutputSize < CompressBound(|src|), maxOutputSize) <= i < dest.Length ==>
              dest[i] == old(dest[i])
    ensures maxOutputSize < CompressBound(|src|) ==> Left(dest[..], old(dest[..]), maxOutputSize, tail, 0)
    ensures IsRun(tail, ss, dest[..], src, 0, 0, until, |src|)
    ensures r > 0 && maxOutputSize < CompressBound(|src|) ==> Keeps(tail, maxOutputSize)
    ensures r > 0 || |src| < 134655 ==> forall i :: maxOutputSize <= i < dest.Length ==> dest[i] == old(dest[i])
    ensures maxOutputSize < CompressBound(|src|) && |src| >= 14 && (forall i :: 0 <= i < |src| ==> src[i] == src[0]) ==>
              tail == EqualTail(|src|, maxOutputSize)
  {
    hide IsBlockFor, StoreLimit, Left, IsRun, Keeps, PlanOf, PlanSize, Represents;
    var t := FastTable(|src|);
    var table := new nat[TableSize(t)](_ => 0);
    assert table[..] == seq(TableSize(t), _ => 0);
    var limited := maxOutputSize < CompressBound(|src|);
    r, tail, ss, until := CompressGeneric(src, 0, |src|, dest, maxOutputSize, limited, t, NoDict, false, table, 0, 0);
    assert src[0..0] == [] && src[0..|src|] == src;
  }

  /** The documented round trip: every input the compressor supports comes back, byte for byte, from
      the safe decoder given exactly its size as capacity, and from the trusting decoder, which also
      reports exactly the compressed size.  Both are given the compressed bytes and nothing behind them. */
  method RoundTrip(src: seq<byte>, capacity: nat) returns (compressedSize: nat, r: int, decoded: array<byte>, consumed: int, trusted: array<byte>)
    requires |src| <= MAX_INPUT_SIZE && CompressBound(|src|) <= capacity
    ensures 0 < compressedSize <= capacity
    ensures r == |src| && decoded[..] == src
    ensures consumed == compressedSize && trusted[..] == src
  {
    hide IsBlockFor, Lz4Decoder.Outcome, Left, IsRun, Keeps, FastSize, FastBlock, Represents;
    var dest := new byte[capacity];
    ghost var tail, ss, until;
    compressedSize, tail, ss, until := CompressFast(src, dest, capacity);
    var bytes := dest[..compressedSize];
    BlockDecodes(bytes, bytes, [], src, |src|);
    assert [] + src == src;
    decoded := new byte[|src|];
    r := Lz4Decoder.DecompressSafe(bytes, compressedSize, decoded, |src|);
    trusted := new byte[|src|];
    consumed := Lz4Decoder.DecompressFast(bytes, trusted, |src|);
    assert decoded[..|src|] == decoded[..] && trusted[..|src|] == trusted[..];
  }

  // ----- A limit that is not kept -----

  /** A million equal bytes with a limit of 3916: the match of 999994 bytes passes the test, its length
      is stored up to 3928, and only then the call gives up. */
  method LimitNotKept(dest: array<byte>) returns (r: nat)
    requires dest.Length == 4000 && forall i :: 0 <= i < dest.Length ==> dest[i] == 0
    modifies dest
    ensures r == 0
    ensures forall i :: 3916 <= i < 3928 ==> dest[i] != 0
    ensures forall i :: 3928 <= i < 4000 ==> dest[i] == 0
  {
    hide IsRun, Left, EqualTail, StoreLimit, IsBlockFor, FastSize, FastBlock, Represents;
    var src: seq<byte> := seq(1000000, _ => 97);
    ghost var tail, ss, until;
    MillionEqual();
    EqualSize(src);
    r, tail, ss, until := CompressFast(src, dest, 3916);
    TailOfMillion(dest[..], old(dest[..]), tail);
    forall i | 3916 <= i < 3928 ensures dest[i] != 0 {
      assert dest[..][i] != 0;
    }
    forall i | 3928 <= i < 4000 ensures dest[i] == 0 {
      assert dest[..][i] == old(dest[..])[i];
    }
  }

  lemma MillionEqual()
    ensures EqualTail(1000000, 3916) == Untested(4, 999990, 0) && CompressBound(1000000) > 3916
    ensures StoreLimit(1000000, true, 3916) == 3930 && !Keeps(Untested(4, 999990, 0), 3916)
  {
  }

  lemma TailOfMillion(out: seq<byte>, before: seq<byte>, tail: Tail)
    requires Left(out, before, 3916, tail, 0) && tail == Untested(4, 999990, 0) && |out| >= 3928
    ensures forall i :: 3916 <= i < 3928 ==> out[i] != 0
    ensures forall i :: 3928 <= i < |out| ==> out[i] == before[i]
  {
    hide Extra;
    ExtraBytes(999990);
    forall i | 3916 <= i < |out| ensures if i < 3928 then out[i] != 0 else out[i] == before[i] {
      assert out[i] == LeftByte(before, tail, i);
    }
  }

  lemma ExtraBytes(n: nat)
    requires n >= RUN_MASK
    ensures forall k :: 0 <= k < (n - RUN_MASK) / 255 ==> Extra(n)[k] == 255
    ensures |Extra(n)| == (n - RUN_MASK) / 255 + 1 && Extra(n)[(n - RUN_MASK) / 255] == (n - RUN_MASK) % 255
  {
    hide LengthBytes;
    var k: nat := n - RUN_MASK;
    LengthBytesForm(k);
    assert Extra(n) == LengthBytes(k);
  }

  lemma LongBlock(b: Block, bytes: seq<byte>, hist: seq<byte>, data: seq<byte>)
    requires Represents(b, bytes, hist, data)
    ensures LongMatches(b.sequences)
  {
  }

  /** LZ4_compress_destSize_extState: with room for the bound this is plain compression.  A target with
      three bytes more than the block of the plain compressor takes that block, and all the input. */
  method CompressDestSize(src: seq<byte>, dest: array<byte>, target: nat) returns (r: nat, consumed: nat, ghost b: Block)
    requires target <= dest.Length
    modifies dest
    ensures r == 0 <==> target < 1 || |src| > MAX_INPUT_SIZE
    ensures r <= target && consumed <= |src|
    ensures r > 0 ==> LongMatches(b.sequences) && Represents(b, dest[..r], [], src[..consumed])
    ensures |src| <= MAX_INPUT_SIZE && FastSize(src) + 3 <= target ==> r == FastSize(src) && consumed == |src| && b == FastBlock(src)
    ensures r > 0 && target < CompressBound(|src|) ==> FirstRoom(b.sequences, target)
    ensures r > 0 && consumed < |src| ==> LastToken(b) < target && (r == target <==> Fills(target - 1 - LastToken(b)))
    ensures r > 0 && consumed < |src| ==> target <= r + (target + 240) / 65025 + 1
    ensures forall i :: target <= i < dest.Length ==> dest[i] == old(dest[i])
  {
    hide IsBlockFor, Represents, LastToken, Fills, Left, IsRun, Keeps, PlanOf, PlanSize, FirstRoom;
    if target >= CompressBound(|src|) {
      ghost var tail, ss, until;
      r, tail, ss, until := CompressFast(src, dest, target);
      assert src[..|src|] == src;
      consumed := |src|;
      if r > 0 {
        b := FastBlock(src);
        LongBlock(b, dest[..r], [], src);
      } else {
        b := Block([], []);
      }
      return;
    }
    var t := FastTable(|src|);
    var table := new nat[TableSize(t)](_ => 0);
    assert table[..] == seq(TableSize(t), _ => 0);
    r, consumed, b := CompressDestSizeGeneric(src, dest, target, t, table);
  }

  /** Whatever target size at least 1 the caller asks for, the part of the input that was consumed
      comes back from the safe decoder with exactly that part's size as capacity. */
  method DestSizeRoundTrip(src: seq<byte>, target: nat) returns (compressedSize: nat, consumed: nat, r: int, decoded: array<byte>)
    requires 1 <= target && |src| <= MAX_INPUT_SIZE
    ensures 1 <= compressedSize <= target && consumed <= |src|
    ensures r == consumed && decoded[..] == src[..consumed]
  {
    hide Represents, Lz4Decoder.Outcome, LastToken, Fills;
    var dest := new byte[target];
    ghost var b;
    compressedSize, consumed, b := CompressDestSize(src, dest, target);
    var bytes := dest[..compressedSize];
    BlockDecodes(bytes, bytes, [], src[..consumed], consumed);
    assert [] + src[..consumed] == src[..consumed];
    decoded := new byte[consumed];
    r := Lz4Decoder.DecompressSafe(bytes, compressedSize, decoded, consumed);
    assert decoded[..consumed] == decoded[..];
  }

  // ----- A target that is not filled -----

  lemma {:induction false} ByteCopyFirst(out: seq<byte>, offset: nat, length: nat)
    requires 1 <= offset <= |out| && length > 0
    ensures ByteCopy(out, offset, length)[|out|] == out[|out| - offset]
  {
    if length > 1 {
      ByteCopyFirst(out, offset, length - 1);
    } else {
      assert ByteCopy(out, offset, length - 1) == out;
    }
  }

  lemma {:induction false} ExpandAllPrefix(hist: seq<byte>, ss: seq<Sequence>, k: nat)
    requires LongMatches(ss) && k <= |ss|
    ensures ExpandAll(hist, ss[..k]) <= ExpandAll(hist, ss)
    decreases |ss| - k
  {
    if k < |ss| {
      PrefixStep(hist, ss, k);
      ByteCopyPrefix(ExpandAll(hist, ss[..k]) + ss[k].literals, ss[k].offset, ss[k].matchLength);
      ExpandAllPrefix(hist, ss, k + 1);
    } else {
      assert ss[..k] == ss;
    }
  }

  lemma FirstExpands(hist: seq<byte>, ss: seq<Sequence>)
    requires LongMatches(ss) && ss != [] && hist == []
    ensures ExpandAll(hist, ss[..1]) == ByteCopy(ss[0].literals, ss[0].offset, ss[0].matchLength)
  {
    hide ByteCopy;
    var none := ss[..0];
    PrefixStep(hist, ss, 0);
    assert ExpandAll(hist, none) == hist && hist + ss[0].literals == ss[0].literals;
  }

  /** A block with a match and no history holds some byte twice. */
  lemma SomeByteRepeats(ss: seq<Sequence>, total: nat) returns (i: nat, j: nat)
    requires LongMatches(ss) && ss != [] && RestrictedAll([], ss, total)
    ensures i < j < |ExpandAll([], ss)| && ExpandAll([], ss)[i] == ExpandAll([], ss)[j]
  {
    hide ByteCopy, ExpandAll, RestrictedAll;
    var hist: seq<byte> := [];
    var s := ss[0];
    FirstRestricted(hist, ss, total);
    FirstExpands(hist, ss);
    ExpandAllPrefix(hist, ss, 1);
    ByteCopyFirst(s.literals, s.offset, s.matchLength);
    ByteCopyPrefix(s.literals, s.offset, s.matchLength);
    i, j := |s.literals| - s.offset, |s.literals|;
    assert ExpandAll(hist, ss)[i] == s.literals[i];
  }

  /** Where no byte occurs twice there is nothing to match. */
  lemma MatchMeansRepeat(b: Block, bytes: seq<byte>, data: seq<byte>)
    requires Represents(b, bytes, [], data)
    ensures b.sequences != [] ==> exists i, j :: 0 <= i < j < |data| && data[i] == data[j]
  {
    hide EncodeBlock, RestrictedAll, ExpandAll;
    if b.sequences != [] {
      var i, j := SomeByteRepeats(b.sequences, |ExpandBlock([], b)|);
      assert ExpandBlock([], b) == data;
      assert data[i] == data[j];
    }
  }

  lemma FirstRestricted(hist: seq<byte>, ss: seq<Sequence>, total: nat)
    requires RestrictedAll(hist, ss, total) && ss != []
    ensures 1 <= ss[0].offset <= |hist| + |ss[0].literals| && ss[0].matchLength >= MINMATCH
  {
    var none := ss[..0];
    assert RestrictedAt(hist, ss, 0, total) && ExpandAll(hist, none) == hist;
  }

  /** Twenty different bytes and a target of 16: the room of 15 bytes behind the token gets 14 literals,
      and one byte of the target stays unused. */
  method TargetNotFilled() returns (r: nat, consumed: nat)
    ensures r == 15 && consumed == 14
  {
    hide *;
    var src: seq<byte> := Twenty();
    var dest := new byte[16];
    ghost var b;
    TwentyFacts(src);
    r, consumed, b := CompressDestSize(src, dest, 16);
    NoMatches(b, dest[..r], src, consumed);
    LiteralBlock(b, dest[..r], src[..consumed]);
    FourteenLiterals(r, consumed);
  }

  function Twenty(): seq<byte> {
    seq(20, i requires 0 <= i < 20 => i)
  }

  lemma TwentyFacts(src: seq<byte>)
    requires src == Twenty()
    ensures |src| == 20 <= MAX_INPUT_SIZE && (forall i, j :: 0 <= i < j < |src| ==> src[i] != src[j]) && !Fills(15)
  {
  }

  lemma NoMatches(b: Block, bytes: seq<byte>, src: seq<byte>, consumed: nat)
    requires consumed <= |src| && Represents(b, bytes, [], src[..consumed])
    requires forall i, j :: 0 <= i < j < |src| ==> src[i] != src[j]
    ensures b.sequences == []
  {
    hide Represents;
    MatchMeansRepeat(b, bytes, src[..consumed]);
  }

  lemma FourteenLiterals(r: nat, consumed: nat)
    requires r <= 16 && consumed <= 20 && r == 1 + (consumed + 240) / 255 + consumed
    requires consumed < 20 ==> r != 16 && 16 <= r + (16 + 240) / 65025 + 1
    ensures r == 15 && consumed == 14
  {
  }

  lemma LiteralBlock(b: Block, bytes: seq<byte>, data: seq<byte>)
    requires Represents(b, bytes, [], data) && b.sequences == []
    ensures LongMatches(b.sequences) && LastToken(b) == 0 && |bytes| == 1 + (|data| + 240) / 255 + |data|
    ensures !Fills(15)
  {
  }

  // ----- A target that would do -----

  /** Fourteen equal bytes make a block of 10 bytes, but a target of 12 takes only 11 of them. */
  method SpareBytesNeeded(src: seq<byte>) returns (r: nat, consumed: nat)
    requires |src| == 14 && forall i :: 0 <= i < |src| ==> src[i] == src[0]
    ensures FastSize(src) == 10 && r == 12 && consumed == 11
  {
    EqualSize(src);
    hide *;
    FillsEleven();
    var dest := new byte[12];
    ghost var b;
    r, consumed, b := CompressDestSize(src, dest, 12);
    NoRoomForMatch(b, dest[..r], src[..consumed], 12);
    LiteralBlock(b, dest[..r], src[..consumed]);
    ElevenLiterals(r, consumed);
  }

  lemma FillsEleven()
    ensures Fills(11) && CompressBound(14) > 12 && 14 <= MAX_INPUT_SIZE
  {
  }

  lemma ElevenLiterals(r: nat, consumed: nat)
    requires r <= 12 && consumed <= 14 && r == 1 + (consumed + 240) / 255 + consumed
    requires consumed < 14 ==> r == 12
    ensures consumed == 11
  {
  }

  /** A target of 12 bytes holds literals only. */
  lemma NoRoomForMatch(b: Block, bytes: seq<byte>, data: seq<byte>, target: nat)
    requires Represents(b, bytes, [], data) && FirstRoom(b.sequences, target) && target <= 12
    ensures b.sequences == []
  {
    if b.sequences != [] {
      FirstRestricted([], b.sequences, |ExpandBlock([], b)|);
    }
  }
}
