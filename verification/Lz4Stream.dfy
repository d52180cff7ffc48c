/** Streaming in prefix mode: blocks that lie one after another in memory are compressed with the
    earlier ones as history, and decoded in the same order into adjacent output. */
module Lz4Stream {
  import opened Lz4Block
  import opened Lz4Reference
  import opened Lz4Matcher
  import opened Lz4Encoder
  import opened Lz4Limit
  import opened Lz4Plan
  import Lz4Decoder
  import Lz4Codec

  const KB64 := 0x1_0000
  const U32 := 0x1_0000_0000

  // ----- Compression -----

  /** LZ4_stream_t_internal.  Addresses are numbers, 0 is the null pointer. */
  class CompressStream {
    const hashTable: array<nat>
    var currentOffset: nat
    var initCheck: nat
    var dictionary: nat
    var dictSize: nat

    ghost predicate Valid()
      reads this, hashTable
    {
      && hashTable.Length == TableSize(ByU32)
      && (forall h :: 0 <= h < hashTable.Length ==> hashTable[h] <= currentOffset)
      && dictSize <= currentOffset < U32
    }

    /** The block at `position` follows the previous one, or is the first. */
    ghost predicate Follows(address: nat, position: nat)
      reads this
    {
      Reset() || (dictionary + dictSize == address + position && dictSize <= position)
    }

    /** Nothing has been compressed since the reset. */
    ghost predicate Reset()
      reads this
    {
      currentOffset == dictionary == dictSize == 0
    }

    /** LZ4_resetStream. */
    constructor ()
      ensures Valid() && Reset() && initCheck == 0 && fresh(hashTable)
    {
      hashTable := new nat[TableSize(ByU32)](_ => 0);
      currentOffset, initCheck, dictionary, dictSize := 0, 0, 0, 0;
    }

    /** The entries, the offset and the size of the dictionary after renormDictT. */
    static predicate Rescales(offset: nat, src: nat) {
      offset > 0x8000_0000 || offset > src
    }

    static function EntryAfter(entry: nat, offset: nat, src: nat): nat
      requires offset < U32
    {
      if !Rescales(offset, src) then entry
      else if entry < (offset - KB64) % U32 then 0
      else entry - (offset - KB64) % U32
    }

    static ghost predicate Rescaled(table': seq<nat>, table: seq<nat>, offset: nat, src: nat)
      requires offset < U32
    {
      |table'| == |table| && forall h :: 0 <= h < |table| ==> table'[h] == EntryAfter(table[h], offset, src)
    }

    static function OffsetAfter(offset: nat, src: nat): nat {
      if Rescales(offset, src) then KB64 else offset
    }

    static function DictAfter(offset: nat, dictSize: nat, src: nat): nat {
      if Rescales(offset, src) && dictSize > KB64 then KB64 else dictSize
    }

    /** Rescaling keeps every position of the last 64 KB before the block at `start`, and makes all
        others the one 64 KB before it. */
    static lemma PositionsStay(entry: nat, offset: nat, src: nat, start: nat)
      requires KB64 <= offset < U32 && entry <= offset && Rescales(offset, src)
      ensures var was, now := start - offset + entry, start - OffsetAfter(offset, src) + EntryAfter(entry, offset, src);
              now == if was >= start - KB64 then was else start - KB64
    {
      assert (offset - KB64) % U32 == offset - KB64;
    }

    /** LZ4_renormDictT: rescales the table before the 32-bit offsets, or the address space, run out.
        The end of the dictionary stays where it is. */
    method RenormDictT(src: nat)
      requires Valid()
      modifies this, hashTable
      ensures Valid() && currentOffset <= 0x8000_0000
      ensures dictionary + dictSize == old(dictionary + dictSize) && dictSize <= old(dictSize)
      ensures old(Reset()) ==> Reset()
      ensures initCheck == old(initCheck)
      ensures currentOffset == OffsetAfter(old(currentOffset), src) && dictSize == DictAfter(old(currentOffset), old(dictSize), src)
      ensures Rescaled(hashTable[..], old(hashTable[..]), old(currentOffset), src)
    {
      if Rescales(currentOffset, src) {
        var delta := (currentOffset - KB64) % U32;
        var dictEnd := dictionary + dictSize;
        var i := 0;
        while i < hashTable.Length
          invariant 0 <= i <= hashTable.Length
          invariant forall h :: 0 <= h < i ==> hashTable[h] == EntryAfter(old(hashTable[h]), currentOffset, src) <= KB64
          invariant forall h :: i <= h < hashTable.Length ==> hashTable[h] == old(hashTable[h])
          modifies hashTable
        {
          if hashTable[i] < delta {
            hashTable[i] := 0;
          } else {
            hashTable[i] := hashTable[i] - delta;
          }
          i := i + 1;
        }
        currentOffset := KB64;
        if dictSize > KB64 {
          dictSize := KB64;
        }
        dictionary := dictEnd - dictSize;
      }
    }

    ghost function JobOf(m: seq<byte>, start: nat, inputSize: nat, prefix: bool, dictSmall: bool): Job
      requires dictSize <= start
      reads this
    {
      MakeJob(m, start, inputSize, ByU32, if prefix then WithPrefix64k else UsingExtDict, dictSmall, currentOffset, dictSize)
    }

    /** What the stream keeps for the encoder; outside prefix mode there is no history. */
    lemma JobFits(m: seq<byte>, start: nat, inputSize: nat, prefix: bool, dictSmall: bool)
      requires Valid() && currentOffset <= 0x8000_0000 && start + inputSize <= |m| && inputSize < 0x8000_0000
      requires dictSize <= start && (!prefix ==> currentOffset == dictSize == 0)
      requires dictSmall <==> dictSize < KB64 && dictSize < currentOffset
      ensures inputSize <= MAX_INPUT_SIZE ==> JobOf(m, start, inputSize, prefix, dictSmall).Valid()
      ensures JobOf(m, start, inputSize, prefix, dictSmall).low == start - dictSize
      ensures TableBelow(hashTable[..], JobOf(m, start, inputSize, prefix, dictSmall), start + 1)
    {
    }

    /** And what the encoder leaves for the stream. */
    lemma JobLeft(m: seq<byte>, start: nat, inputSize: nat, prefix: bool, dictSmall: bool)
      requires dictSize <= start && TableBelow(hashTable[..], JobOf(m, start, inputSize, prefix, dictSmall), start + inputSize + 1)
      requires !prefix ==> currentOffset == 0
      ensures hashTable.Length == TableSize(ByU32)
      ensures forall h :: 0 <= h < hashTable.Length ==> hashTable[h] <= currentOffset + inputSize
    {
      forall h | 0 <= h < hashTable.Length ensures hashTable[h] <= currentOffset + inputSize {
        assert hashTable[h] == hashTable[..][h];
      }
    }

    /** Where the address space would run out. */
    static function Smallest(source: nat, dictionary: nat, dictSize: nat): nat {
      if dictSize > 0 && source > dictionary + dictSize then dictionary + dictSize else source
    }

    /** The call for a block with `history` bytes before it, for a stream at `offset`. */
    static function JobFrom(m: seq<byte>, start: nat, inputSize: nat, offset: nat, history: nat): Job {
      Job(m, start, inputSize, ByU32, start - offset, if history <= start then start - history else 0,
          history < KB64 && history < offset)
    }

    static lemma SmallestIs(source: nat, dictionary: nat, dictSize: nat)
      ensures Smallest(source, dictionary, dictSize) == if dictSize > 0 && source > dictionary + dictSize then dictionary + dictSize else source
    {
    }

    static lemma JobIs(m: seq<byte>, start: nat, inputSize: nat, offset: nat, history: nat, prefix: bool)
      requires history <= start && (!prefix ==> offset == history == 0)
      ensures JobFrom(m, start, inputSize, offset, history)
           == MakeJob(m, start, inputSize, ByU32, if prefix then WithPrefix64k else UsingExtDict, history < KB64 && history < offset, offset, history)
    {
    }

    /** LZ4_compress_fast_continue for a block that follows the previous one in memory (or is the
        first).  `address` is where `m` lies.  A positive result is a block for the input after the
        last `history` bytes before it, the dictionary after rescaling; it is the planned block, for the
        table as rescaling leaves it, if that fits.  The next block may then follow. */
    method CompressFastContinue(m: seq<byte>, address: nat, start: nat, inputSize: nat, dest: array<byte>, maxOutputSize: nat)
      returns (r: nat, ghost history: nat, ghost tail: Tail, ghost c: Job, ghost table0: seq<nat>)
      requires Valid() && address > 0 && start + inputSize <= |m| && inputSize < 0x8000_0000
      requires Follows(address, start)
      requires StoreLimit(inputSize, true, maxOutputSize) <= dest.Length
      modifies this, hashTable, dest
      ensures Valid() && initCheck == old(initCheck)
      ensures history <= start && history <= old(dictSize)
      ensures old(initCheck) == 0 ==> Follows(address, start + inputSize) && dictSize == history + inputSize
      ensures r == 0 ==> old(initCheck) != 0 || inputSize > MAX_INPUT_SIZE || maxOutputSize < CompressBound(inputSize)
      ensures r > 0 ==> r <= maxOutputSize && r <= dest.Length
      ensures r > 0 ==> IsBlockFor(dest[..r], m[start - history..start], m[start..start + inputSize])
      ensures forall i :: StoreLimit(inputSize, true, maxOutputSize) <= i < dest.Length ==> dest[i] == old(dest[i])
      ensures old(initCheck) == 0 ==>
                && hashTable.Length == TableSize(ByU32) && old(currentOffset) < U32
                && history == DictAfter(old(currentOffset), old(dictSize), Smallest(address + start, old(dictionary), old(dictSize)))
                && c == JobFrom(m, start, inputSize, OffsetAfter(old(currentOffset), Smallest(address + start, old(dictionary), old(dictSize))), history)
                && Rescaled(table0, old(hashTable[..]), old(currentOffset), Smallest(address + start, old(dictionary), old(dictSize)))
      ensures old(initCheck) == 0 && inputSize <= MAX_INPUT_SIZE ==> Gives(r, dest[..], c, table0, maxOutputSize, true)
      ensures Left(dest[..], old(dest[..]), maxOutputSize, tail, 0)
      ensures r > 0 || inputSize < 134655 ==> forall i :: maxOutputSize <= i < dest.Length ==> dest[i] == old(dest[i])
    {
      hide IsBlockFor, StoreLimit, CompressBound, TableBelow, MakeJob, Left, IsRun, AllEqual, EqualTail, Keeps, Gives, EntryAfter, OffsetAfter, DictAfter, Smallest, Rescaled, JobFrom;
      c, table0 := JobFrom(m, start, inputSize, 0, 0), [];
      SmallestIs(address + start, dictionary, dictSize);
      LeftNothing(dest[..], dest[..], maxOutputSize);
      tail := Tested;
      var dictEnd := dictionary + dictSize;
      var smallest := address + start;
      if initCheck != 0 {
        return 0, 0, tail, c, table0;
      }
      if dictSize > 0 && smallest > dictEnd {
        smallest := dictEnd;
      }
      assert smallest == Smallest(address + start, dictionary, dictSize);
      RenormDictT(smallest);
      table0 := hashTable[..];
      history := dictSize;
      c := JobFrom(m, start, inputSize, currentOffset, dictSize);
      r, tail := CompressNext(m, address, start, inputSize, dest, maxOutputSize, dictEnd == address + start, c);
    }

    /** The call of LZ4_compress_generic, in prefix mode or for a first block, and what the stream keeps. */
    method CompressNext(m: seq<byte>, address: nat, start: nat, inputSize: nat, dest: array<byte>, maxOutputSize: nat, prefix: bool,
                        ghost c: Job)
      returns (r: nat, ghost tail: Tail)
      requires Valid() && currentOffset <= 0x8000_0000 && start + inputSize <= |m| && inputSize < 0x8000_0000 && address > 0
      requires dictSize <= start && (if prefix then dictionary + dictSize == address + start else currentOffset == dictSize == 0)
      requires c == JobFrom(m, start, inputSize, currentOffset, dictSize)
      requires StoreLimit(inputSize, true, maxOutputSize) <= dest.Length
      modifies this, hashTable, dest
      ensures Valid() && initCheck == old(initCheck)
      ensures Follows(address, start + inputSize) && dictSize == old(dictSize) + inputSize
      ensures r == 0 ==> inputSize > MAX_INPUT_SIZE || maxOutputSize < CompressBound(inputSize)
      ensures r > 0 ==> r <= maxOutputSize && r <= dest.Length
      ensures r > 0 ==> IsBlockFor(dest[..r], m[start - old(dictSize)..start], m[start..start + inputSize])
      ensures forall i :: StoreLimit(inputSize, true, maxOutputSize) <= i < dest.Length ==> dest[i] == old(dest[i])
      ensures inputSize <= MAX_INPUT_SIZE ==> Gives(r, dest[..], c, old(hashTable[..]), maxOutputSize, true)
      ensures Left(dest[..], old(dest[..]), maxOutputSize, tail, 0)
      ensures r > 0 || inputSize < 134655 ==> forall i :: maxOutputSize <= i < dest.Length ==> dest[i] == old(dest[i])
    {
      hide IsBlockFor, StoreLimit, CompressBound, TableBelow, MakeJob, Left, IsRun, AllEqual, EqualTail, Keeps, Gives, JobFrom;
      var dictSmall := dictSize < KB64 && dictSize < currentOffset;
      ghost var ss, until;
      JobFits(m, start, inputSize, prefix, dictSmall);
      JobIs(m, start, inputSize, currentOffset, dictSize, prefix);
      if prefix {
        r, tail, ss, until := CompressGeneric(m, start, inputSize, dest, maxOutputSize, true, ByU32, WithPrefix64k, dictSmall,
                                              hashTable, currentOffset, dictSize);
        JobLeft(m, start, inputSize, true, dictSmall);
        dictSize := dictSize + inputSize;
        currentOffset := currentOffset + inputSize;
      } else {
        r, tail, ss, until := CompressGeneric(m, start, inputSize, dest, maxOutputSize, true, ByU32, UsingExtDict, dictSmall,
                                              hashTable, currentOffset, dictSize);
        JobLeft(m, start, inputSize, false, dictSmall);
        dictionary := address + start;
        dictSize := inputSize;
        currentOffset := currentOffset + inputSize;
      }
    }
  }

  // ----- More history does no harm -----

  lemma {:induction false} ByteCopyAfter(more: seq<byte>, out: seq<byte>, offset: nat, length: nat)
    requires 1 <= offset <= |out|
    ensures ByteCopy(more + out, offset, length) == more + ByteCopy(out, offset, length)
  {
    if length > 0 {
      ByteCopyAfter(more, out, offset, length - 1);
      var prev := ByteCopy(out, offset, length - 1);
      assert (more + prev)[|more + prev| - offset] == prev[|prev| - offset];
      assert more + prev + [prev[|prev| - offset]] == more + (prev + [prev[|prev| - offset]]);
    } else {
      assert ByteCopy(out, offset, 0) == out;
    }
  }

  ghost predicate OffsetsWithin(hist: seq<byte>, ss: seq<Sequence>) {
    forall i {:trigger MatchStart(hist, ss, i)} :: 0 <= i < |ss| ==> 1 <= ss[i].offset <= MatchStart(hist, ss, i)
  }

  lemma {:induction false} ExpandAllAfter(more: seq<byte>, hist: seq<byte>, ss: seq<Sequence>)
    requires OffsetsWithin(hist, ss)
    ensures ExpandAll(more + hist, ss) == more + ExpandAll(hist, ss)
  {
    hide ByteCopy;
    if ss != [] {
      var n := |ss| - 1;
      var init, s := ss[..n], ss[n];
      OffsetsWithinPrefix(hist, ss, n);
      ExpandAllAfter(more, hist, init);
      var out := ExpandAll(hist, init);
      assert 1 <= s.offset <= MatchStart(hist, ss, n);
      assert more + out + s.literals == more + (out + s.literals);
      ByteCopyAfter(more, out + s.literals, s.offset, s.matchLength);
    }
  }

  lemma OffsetsWithinPrefix(hist: seq<byte>, ss: seq<Sequence>, n: nat)
    requires OffsetsWithin(hist, ss) && n <= |ss|
    ensures OffsetsWithin(hist, ss[..n])
  {
    hide ExpandAll;
    forall i | 0 <= i < n ensures 1 <= ss[..n][i].offset <= MatchStart(hist, ss[..n], i) {
      assert ss[..n][..i] == ss[..i];
      var start := MatchStart(hist, ss, i);
      assert 1 <= ss[i].offset <= start;
    }
  }

  lemma RestrictedOffsets(hist: seq<byte>, ss: seq<Sequence>, total: nat)
    requires RestrictedAll(hist, ss, total)
    ensures OffsetsWithin(hist, ss)
  {
    forall i | 0 <= i < |ss| ensures 1 <= ss[i].offset <= MatchStart(hist, ss, i) {
      assert RestrictedAt(hist, ss, i, total);
    }
  }

  lemma RestrictedAfter(more: seq<byte>, hist: seq<byte>, ss: seq<Sequence>, total: nat)
    requires RestrictedAll(hist, ss, total)
    ensures RestrictedAll(more + hist, ss, |more| + total)
  {
    hide ExpandAll;
    RestrictedOffsets(hist, ss, total);
    var hist', total' := more + hist, |more| + total;
    forall i | 0 <= i < |ss| ensures RestrictedAt(hist', ss, i, total') {
      assert RestrictedAt(hist, ss, i, total);
      OffsetsWithinPrefix(hist, ss, i);
      ExpandAllAfter(more, hist, ss[..i]);
    }
  }

  /** A block for some history is a block for any longer history that ends with it. */
  lemma BlockAfter(bytes: seq<byte>, more: seq<byte>, hist: seq<byte>, data: seq<byte>)
    requires IsBlockFor(bytes, hist, data)
    ensures IsBlockFor(bytes, more + hist, data)
  {
    hide ExpandAll, RestrictedAll, EncodeBlock, IsBlockFor;
    var b := Lz4Codec.TheBlock(bytes, hist, data);
    var total := |ExpandBlock(hist, b)|;
    RestrictedOffsets(hist, b.sequences, total);
    ExpandAllAfter(more, hist, b.sequences);
    RestrictedAfter(more, hist, b.sequences, total);
    assert ExpandBlock(more + hist, b) == more + ExpandBlock(hist, b);
    assert more + (hist + data) == more + hist + data;
    BlockWitness(bytes, more + hist, data, b);
  }

  // ----- Decompression -----

  /** LZ4_streamDecode_t_internal. */
  class DecodeStream {
    var externalDict: nat
    var extDictSize: nat
    var prefixEnd: nat
    var prefixSize: nat

    /** LZ4_setStreamDecode without a dictionary. */
    constructor ()
      ensures extDictSize == prefixSize == prefixEnd == 0
    {
      externalDict, extDictSize, prefixEnd, prefixSize := 0, 0, 0, 0;
    }

    /** LZ4_decompress_safe_continue into memory at `address`, either right after the previous output
        or, when nothing has been decoded yet, anywhere. */
    method DecompressSafeContinue(src: seq<byte>, compressedSize: nat, out: array<byte>, address: nat, dst0: nat, maxOutputSize: nat)
      returns (result: int)
      requires address > 0 && extDictSize == 0 && compressedSize <= |src| && dst0 + maxOutputSize <= out.Length
      requires if prefixEnd == address + dst0 then prefixSize <= dst0 else prefixSize == 0
      requires !Lz4Decoder.Outcome(src, compressedSize, true, out[dst0 - prefixSize..dst0], maxOutputSize).Outside?
      modifies this, out
      ensures extDictSize == 0
      ensures prefixSize == old(prefixSize) + (if result > 0 then result else 0)
      ensures prefixEnd == if result > 0 then address + dst0 + result else old(prefixEnd)
      ensures var o := Lz4Decoder.Outcome(src, compressedSize, true, old(out[dst0 - prefixSize..dst0]), maxOutputSize);
              && Lz4Decoder.Returns(result, o, true, old(prefixSize))
              && Lz4Decoder.Holds(out[..dst0 + maxOutputSize], dst0 - old(prefixSize), o)
      ensures forall i :: 0 <= i < dst0 || dst0 + maxOutputSize <= i < out.Length ==> out[i] == old(out[i])
    {
      hide Lz4Decoder.Outcome, Lz4Decoder.Holds;
      if prefixEnd == address + dst0 {
        result := Lz4Decoder.DecompressGeneric(src, compressedSize, out, dst0, maxOutputSize, true, dst0 - prefixSize);
        if result <= 0 {
          return;
        }
        prefixSize := prefixSize + result;
        prefixEnd := prefixEnd + result;
      } else {
        extDictSize := prefixSize;
        externalDict := prefixEnd - extDictSize;
        result := Lz4Decoder.DecompressGeneric(src, compressedSize, out, dst0, maxOutputSize, true, dst0);
        if result <= 0 {
          return;
        }
        prefixSize := result;
        prefixEnd := address + dst0 + result;
      }
    }
  }

  // ----- Whole streams -----

  function Sum(sizes: seq<nat>): nat {
    if sizes == [] then 0 else Sum(sizes[..|sizes| - 1]) + sizes[|sizes| - 1]
  }

  lemma {:induction false} SumStep(sizes: seq<nat>, k: nat)
    requires k < |sizes|
    ensures Sum(sizes[..k + 1]) == Sum(sizes[..k]) + sizes[k] <= Sum(sizes)
    decreases |sizes| - k
  {
    assert sizes[..k + 1][..k] == sizes[..k];
    if k + 1 == |sizes| {
      assert sizes[..k + 1] == sizes;
    } else {
      SumStep(sizes, k + 1);
    }
  }

  /** `bytes` is a block for the `size` bytes at `pos`, after a stretch of history that ends there. */
  ghost predicate BlockAt(bytes: seq<byte>, m: seq<byte>, pos: nat, size: nat) {
    pos + size <= |m| && exists d :: 0 <= d <= pos && BlockReaching(bytes, m, pos, size, d)
  }

  ghost predicate BlockReaching(bytes: seq<byte>, m: seq<byte>, pos: nat, size: nat, d: nat)
    requires d <= pos && pos + size <= |m|
  {
    IsBlockFor(bytes, m[pos - d..pos], m[pos..pos + size])
  }

  /** What a run of successful calls leaves: one block for each stretch of the stream. */
  ghost predicate StreamBlocks(blocks: seq<seq<byte>>, m: seq<byte>, sizes: seq<nat>) {
    |blocks| <= |sizes| && forall i {:trigger blocks[i]} :: 0 <= i < |blocks| ==> BlockAt(blocks[i], m, Sum(sizes[..i]), sizes[i])
  }

  lemma BlockAtWhole(bytes: seq<byte>, m: seq<byte>, pos: nat, size: nat)
    requires BlockAt(bytes, m, pos, size)
    ensures pos + size <= |m| && IsBlockFor(bytes, m[..pos], m[pos..pos + size])
  {
    hide IsBlockFor;
    var d :| 0 <= d <= pos && BlockReaching(bytes, m, pos, size, d);
    BlockAfter(bytes, m[..pos - d], m[pos - d..pos], m[pos..pos + size]);
    assert m[..pos - d] + m[pos - d..pos] == m[..pos];
  }

  /** Compresses a stretch of memory block by block; each capacity is at least the documented bound. */
  method CompressAll(m: seq<byte>, address: nat, sizes: seq<nat>) returns (blocks: seq<seq<byte>>)
    requires address > 0 && Sum(sizes) <= |m| && forall i :: 0 <= i < |sizes| ==> sizes[i] <= MAX_INPUT_SIZE
    ensures |blocks| == |sizes| && StreamBlocks(blocks, m, sizes)
  {
    hide IsBlockFor, Sum, Left, Gives, CompressStream.Rescaled, CompressStream.JobFrom, CompressStream.DictAfter, CompressStream.OffsetAfter, CompressStream.Smallest;
    var stream := new CompressStream();
    blocks := [];
    var pos, k := 0, 0;
    EmptySum(sizes);
    while k < |sizes|
      invariant 0 <= k <= |sizes| && |blocks| == k && pos == Sum(sizes[..k])
      invariant stream.Valid() && stream.Follows(address, pos) && stream.initCheck == 0 && fresh(stream) && fresh(stream.hashTable)
      invariant StreamBlocks(blocks, m, sizes)
    {
      SumStep(sizes, k);
      var dest := new byte[CompressBound(sizes[k])];
      var r;
      ghost var history, tail, c, table0;
      r, history, tail, c, table0 := stream.CompressFastContinue(m, address, pos, sizes[k], dest, dest.Length);
      assert BlockReaching(dest[..r], m, pos, sizes[k], history);
      blocks := blocks + [dest[..r]];
      pos, k := pos + sizes[k], k + 1;
    }
  }

  lemma EmptySum(sizes: seq<nat>)
    ensures Sum(sizes[..0]) == 0
  {
  }

  /** Decodes a run of blocks into adjacent output.  Each block may be followed in memory by anything or
      nothing (`rest`), and each call may be given all the space that is left. */
  method DecompressAll(blocks: seq<seq<byte>>, rest: seq<byte>, address: nat, out: array<byte>, ghost m: seq<byte>, ghost sizes: seq<nat>)
    requires address > 0
    requires |blocks| == |sizes| && StreamBlocks(blocks, m, sizes) && Sum(sizes) <= out.Length
    modifies out
    ensures Sum(sizes) <= |m| && out[..Sum(sizes)] == m[..Sum(sizes)]
  {
    hide IsBlockFor, Sum, Lz4Decoder.Outcome;
    var stream := new DecodeStream();
    var pos, k := 0, 0;
    EmptySum(sizes);
    while k < |blocks|
      invariant 0 <= k <= |blocks| && pos == Sum(sizes[..k]) && pos <= |m| && pos <= out.Length
      invariant out[..pos] == m[..pos]
      invariant stream.extDictSize == 0 && stream.prefixSize == pos && fresh(stream)
      invariant stream.prefixEnd == address + pos || (pos == 0 && stream.prefixEnd == 0)
    {
      SumStep(sizes, k);
      assert BlockAt(blocks[k], m, Sum(sizes[..k]), sizes[k]);
      BlockAtWhole(blocks[k], m, pos, sizes[k]);
      var src := blocks[k] + rest;
      var room := out.Length - pos;
      Lz4Codec.BlockDecodes(src, blocks[k], m[..pos], m[pos..pos + sizes[k]], room);
      assert m[..pos] + m[pos..pos + sizes[k]] == m[..pos + sizes[k]];
      assert out[0..pos] == m[..pos];
      var result := stream.DecompressSafeContinue(src, |blocks[k]|, out, address, pos, room);
      assert out[..pos + room][0..pos + sizes[k]] == out[..pos + sizes[k]];
      pos, k := pos + result, k + 1;
    }
    assert sizes[..k] == sizes;
  }

  /** The streaming round trip: whatever the sizes of the blocks and wherever the two buffers lie, the
      blocks decoded in order rebuild the stream. */
  method StreamRoundTrip(m: seq<byte>, sizes: seq<nat>, address: nat, outAddress: nat) returns (out: array<byte>)
    requires address > 0 && outAddress > 0
    requires Sum(sizes) == |m| && forall i :: 0 <= i < |sizes| ==> sizes[i] <= MAX_INPUT_SIZE
    ensures out[..] == m
  {
    var blocks := CompressAll(m, address, sizes);
    out := new byte[|m|];
    DecompressAll(blocks, [], outAddress, out, m, sizes);
    assert out[..|m|] == out[..] && m[..|m|] == m;
  }
}
