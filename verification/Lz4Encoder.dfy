/** LZ4_compress_generic: whatever the position table says, the output is the encoding of a restricted
    block that stands for the input; and it stays within the documented bound. */
module Lz4Encoder {
  import opened Lz4Block
  import opened Lz4Reference
  import opened Lz4Memory
  import opened Lz4Matcher
  import opened Lz4Writer
  import opened Lz4Limit
  import opened Lz4Plan

  function CompressBound(size: nat): nat {
    if size > MAX_INPUT_SIZE then 0 else size + size / 255 + 16
  }

  /** How far the stores of a call may reach: to the limit and the overrun, and at most to the bound. */
  function StoreLimit(size: nat, limited: bool, maxOutputSize: nat): (r: nat)
    ensures r <= CompressBound(size) && (limited ==> r <= maxOutputSize + Overrun(size))
  {
    if limited && maxOutputSize + Overrun(size) < CompressBound(size) then maxOutputSize + Overrun(size) else CompressBound(size)
  }

  /** What is below both bounds is below the limit. */
  lemma BelowStoreLimit(x: nat, size: nat, limited: bool, maxOutputSize: nat)
    requires x <= CompressBound(size) && (limited ==> x <= maxOutputSize + Overrun(size))
    ensures x <= StoreLimit(size, limited, maxOutputSize)
  {
  }

  ghost function Hist(c: Job): seq<byte>
    requires c.Valid()
  {
    c.m[c.low..c.start]
  }

  /** How far past `op` the output buffer may hold scratch bytes. */
  ghost function Slack(ss: seq<Sequence>): nat {
    if ss == [] then 0 else 6
  }

  /** The first `op` output bytes encode `ss`, which stands for the input up to `anchor` and keeps the
      parsing restrictions of a block that ends `total` bytes after `low`. */
  ghost predicate Emitted(out: seq<byte>, c: Job, op: nat, anchor: nat, ss: seq<Sequence>, total: nat) {
    && c.Valid() && c.start <= anchor <= c.End() && op <= |out|
    && LongMatches(ss) && out[..op] == EncodeAll(ss)
    && ExpandAll(Hist(c), ss) == c.m[c.low..anchor]
    && RestrictedAll(Hist(c), ss, total)
    && (ss == [] ==> op == 0)
    && (ss != [] ==> anchor - c.low + LASTLITERALS <= total)
    && op <= anchor - c.start + (anchor - c.start) / 255
  }

  lemma EmittedNothing(out: seq<byte>, c: Job, total: nat)
    requires c.Valid()
    ensures Emitted(out, c, 0, c.start, [], total)
  {
  }

  /** Only the first `op` bytes matter. */
  lemma EmittedFrame(out: seq<byte>, out': seq<byte>, c: Job, op: nat, anchor: nat, ss: seq<Sequence>, total: nat)
    requires Emitted(out, c, op, anchor, ss, total)
    requires op <= |out'| && forall i :: 0 <= i < op ==> out'[i] == out[i]
    ensures Emitted(out', c, op, anchor, ss, total)
  {
    hide RestrictedAll, EncodeAll, ExpandAll;
    assert out'[..op] == out[..op];
  }

  lemma CostBound(a: nat, lit: nat, mc: nat)
    ensures a + a / 255 + 3 + (lit + 240) / 255 + lit + (mc + 240) / 255
         <= a + lit + mc + MINMATCH + (a + lit + mc + MINMATCH) / 255
  {
    assert (mc + 240) / 255 <= mc;
    assert a / 255 + lit / 255 <= (a + lit) / 255 <= (a + lit + mc + MINMATCH) / 255;
  }

  /** Adding a sequence whose match was found at `ip` and verified byte by byte. */
  lemma EmitSequence(out: seq<byte>, c: Job, t: nat, op: nat, anchor: nat, ip: nat, match_: nat, mc: nat,
                     ss: seq<Sequence>, total: nat, total': nat)
    requires Emitted(out, c, t, anchor, ss, total) && total <= total'
    requires anchor <= ip && IsMatch(c, ip, match_) && ip + MINMATCH + mc <= c.End()
    requires Agree(c.m, ip, match_, mc + MINMATCH)
    requires ip - c.low + MFLIMIT <= total' && ip - c.low + MINMATCH + mc + LASTLITERALS <= total'
    requires t <= op <= |out|
    requires out[t..op] == EncodeSequence(Sequence(c.m[anchor..ip], ip - match_, mc + MINMATCH))
    ensures Emitted(out, c, op, ip + MINMATCH + mc, ss + [Sequence(c.m[anchor..ip], ip - match_, mc + MINMATCH)], total')
  {
    hide EncodeSequence, EncodeAll, ExpandAll, RestrictedAll, Agree, Hist;
    var s := Sequence(c.m[anchor..ip], ip - match_, mc + MINMATCH);
    AppendSequence(Hist(c), ss, s);
    assert out[..op] == out[..t] + out[t..op];
    AppendMatch(c, anchor, ip, match_, mc + MINMATCH, ss, total, total');
    CostBound(anchor - c.start, ip - anchor, mc);
  }

  lemma AppendMatch(c: Job, anchor: nat, ip: nat, match_: nat, length: nat, ss: seq<Sequence>, total: nat, total': nat)
    requires c.Valid() && c.start <= anchor <= ip && ip + length <= c.End() && length >= MINMATCH
    requires LongMatches(ss) && ExpandAll(Hist(c), ss) == c.m[c.low..anchor]
    requires RestrictedAll(Hist(c), ss, total) && total <= total'
    requires IsMatch(c, ip, match_) && Agree(c.m, ip, match_, length)
    requires ip - c.low + MFLIMIT <= total' && ip - c.low + length + LASTLITERALS <= total'
    ensures var ss' := ss + [Sequence(c.m[anchor..ip], ip - match_, length)];
            ExpandAll(Hist(c), ss') == c.m[c.low..ip + length] && RestrictedAll(Hist(c), ss', total')
  {
    hide ExpandAll, RestrictedAll, LongMatches, Agree, Hist;
    var s := Sequence(c.m[anchor..ip], ip - match_, length);
    var hist := Hist(c);
    AppendSequence(hist, ss, s);
    ExpandsSequence(c, anchor, ip, match_, length);
    RestrictedMonotone(hist, ss, total, total');
    AppendRestricted(hist, ss, s, total');
  }

  lemma ExpandsSequence(c: Job, anchor: nat, ip: nat, match_: nat, length: nat)
    requires c.Valid() && c.start <= anchor <= ip && ip + length <= c.End()
    requires IsMatch(c, ip, match_) && Agree(c.m, ip, match_, length)
    ensures Expand(c.m[c.low..anchor], Sequence(c.m[anchor..ip], ip - match_, length)) == c.m[c.low..ip + length]
  {
    hide ByteCopy, Agree;
    assert c.m[c.low..anchor] + c.m[anchor..ip] == c.m[c.low..ip];
    ExpandsMatch(c, ip, match_, length);
  }

  lemma ExpandsMatch(c: Job, ip: nat, match_: nat, length: nat)
    requires c.Valid() && IsMatch(c, ip, match_) && Agree(c.m, ip, match_, length)
    ensures ByteCopy(c.m[c.low..ip], ip - match_, length) == c.m[c.low..ip + length]
  {
    var out, r := c.m[c.low..ip], c.m[c.low..ip + length];
    assert forall k :: 0 <= k < |r| ==> r[k] == c.m[c.low + k];
    forall k | |out| <= k < |r| ensures r[k] == r[k - (ip - match_)] {
      var j := c.low + k;
      assert c.m[j] == c.m[j - (ip - match_)];
    }
    ByteCopyUnique(out, ip - match_, length, r);
  }

  lemma BlockExpands(c: Job, anchor: nat, end: nat, ss: seq<Sequence>)
    requires c.Valid() && c.start <= anchor <= end <= c.End() && LongMatches(ss) && ExpandAll(Hist(c), ss) == c.m[c.low..anchor]
    ensures ExpandBlock(Hist(c), Block(ss, c.m[anchor..end])) == Hist(c) + c.m[c.start..end]
  {
    hide ExpandAll;
    assert c.m[c.low..anchor] + c.m[anchor..end] == c.m[c.low..c.start] + c.m[c.start..end];
  }

  lemma BlockEncodes(out: seq<byte>, op: nat, end: nat, ss: seq<Sequence>, last: seq<byte>)
    requires op <= end <= |out| && LongMatches(ss) && out[..op] == EncodeAll(ss) && out[op..end] == EncodeLast(last)
    ensures EncodeBlock(Block(ss, last)) == out[..end] && LastToken(Block(ss, last)) == op
  {
    hide EncodeAll, EncodeLast;
    assert out[..end] == out[..op] + out[op..end];
  }

  lemma AllRestricted(hist: seq<byte>, ss: seq<Sequence>, total: nat, size: nat)
    requires RestrictedAll(hist, ss, total) && (ss == [] || total <= size)
    ensures RestrictedAll(hist, ss, size)
  {
    hide RestrictedAll;
    if ss != [] {
      RestrictedMonotone(hist, ss, total, size);
    } else {
      NothingRestricted(hist, ss, size);
    }
  }

  /** The block is complete once the last literals follow. */
  lemma CompleteBlock(out: seq<byte>, c: Job, op: nat, end: nat, anchor: nat, last: nat, ss: seq<Sequence>, total: nat)
    returns (b: Block)
    requires Emitted(out, c, op, anchor, ss, total) && op <= end <= |out|
    requires anchor + last <= c.End() && (ss == [] || total <= anchor + last - c.low)
    requires out[op..end] == EncodeLast(c.m[anchor..anchor + last])
    ensures Represents(b, out[..end], Hist(c), c.m[c.start..anchor + last])
    ensures IsBlockFor(out[..end], Hist(c), c.m[c.start..anchor + last])
    ensures LongMatches(b.sequences) && LastToken(b) == op && b == Block(ss, c.m[anchor..anchor + last])
  {
    hide EncodeLast, EncodeAll, ExpandAll, RestrictedAll, EncodeBlock, ExpandBlock, LastToken, Hist, Represents, IsBlockFor, LongMatches;
    var end' := anchor + last;
    b := Block(ss, c.m[anchor..end']);
    BlockExpands(c, anchor, end', ss);
    BlockEncodes(out, op, end, ss, b.last);
    HistSize(c);
    AllRestricted(Hist(c), ss, total, end' - c.low);
    BlockRepresents(b, out[..end], Hist(c), c.m[c.start..end'], end' - c.low);
  }

  lemma BlockRepresents(b: Block, bytes: seq<byte>, hist: seq<byte>, data: seq<byte>, size: nat)
    requires LongMatches(b.sequences) && size == |hist| + |data| && RestrictedAll(hist, b.sequences, size)
    requires EncodeBlock(b) == bytes && ExpandBlock(hist, b) == hist + data
    ensures Represents(b, bytes, hist, data) && IsBlockFor(bytes, hist, data)
  {
    hide EncodeBlock, ExpandBlock, RestrictedAll, LongMatches;
    assert Represents(b, bytes, hist, data);
  }

  lemma HistSize(c: Job)
    requires c.Valid()
    ensures |Hist(c)| == c.start - c.low
  {
  }

  lemma BlockWitness(bytes: seq<byte>, hist: seq<byte>, data: seq<byte>, b: Block)
    requires Restricted(hist, b) && EncodeBlock(b) == bytes && ExpandBlock(hist, b) == hist + data
    ensures IsBlockFor(bytes, hist, data)
  {
    assert Represents(b, bytes, hist, data);
  }

  lemma NothingRestricted(hist: seq<byte>, ss: seq<Sequence>, total: nat)
    requires ss == []
    ensures RestrictedAll(hist, ss, total)
  {
  }

  // ----- One match, and the matches that follow it without literals -----

  /** Sizes: what the encoder writes for the input up to `anchor + lit + mc + 4` fits the bound. */
  lemma RoomForMatch(a: nat, lit: nat, mc: nat, size: nat, t: nat)
    requires t <= a + a / 255 && a + lit + mc + MINMATCH + LASTLITERALS <= size
    ensures t + 1 + (lit + 240) / 255 + lit + 2 + (mc + 240) / 255 + 3 <= size + size / 255 + 16
    ensures t + 1 + (lit + 240) / 255 + lit + 2 + 6 + mc / 256 <= size + size / 255 + 16
  {
    CostBound(a, lit, mc);
    assert (a + lit + mc + MINMATCH) / 255 <= size / 255;
    assert mc / 256 <= (mc + 240) / 255 + mc;
    assert a / 255 + (lit + 240) / 255 <= size / 255 + 1;
  }

  /** The state at the label _next_match: literals from `anchor` to `ip` are written, a match for `ip`
      is known, the `reach` bytes stepped back over by the catch-up loop are known to match, and there is
      room for the offset. */
  ghost predicate AtMatch(out: seq<byte>, c: Job, limit: nat, t: nat, op: nat, anchor: nat, ip: nat, match_: nat, reach: nat,
                          ss: seq<Sequence>) {
    && c.Valid() && Emitted(out, c, t, anchor, ss, c.Total())
    && op + 2 <= limit <= |out|
    && anchor <= ip && ip + reach <= c.MfLimit()
    && IsMatch(c, ip, match_) && Agree(c.m, ip, match_, reach + MINMATCH)
    && op == t + 1 + (ip - anchor + 240) / 255 + (ip - anchor)
    && Pending(out, t, op, c.m[anchor..ip])
  }

  lemma LongerAgreement(c: Job, ip: nat, match_: nat, reach: nat, limit: nat, mc: nat)
    requires c.Valid() && IsMatch(c, ip, match_) && Agree(c.m, ip, match_, reach + MINMATCH)
    requires ip + reach + MINMATCH <= limit
    requires IsCommonLength(c.m, ip + MINMATCH, match_ + MINMATCH, limit, mc)
    ensures Agree(c.m, ip, match_, mc + MINMATCH) && reach <= mc && ip + MINMATCH + mc <= limit
  {
  }

  method EncodeOneMatch(c: Job, dest: array<byte>, maxOutputSize: nat, limited: bool, t: nat, op0: nat, ghost anchor: nat,
                        ip0: nat, match_: nat, ghost reach: nat, ghost ss: seq<Sequence>)
    returns (ok: bool, ip: nat, op: nat, ghost ss': seq<Sequence>, ghost code: nat)
    requires AtMatch(dest[..], c, StoreLimit(c.size, limited, maxOutputSize), t, op0, anchor, ip0, match_, reach, ss)
    modifies dest
    ensures !ok ==> limited && maxOutputSize < CompressBound(c.size)
    ensures ok ==> ip0 + reach + MINMATCH <= ip && ss' != [] && c.Valid()
                   && Emitted(dest[..], c, op, ip, ss', c.Total())
    ensures ok ==> op0 + 2 <= op && forall i :: op + 3 <= i < dest.Length ==> dest[i] == old(dest[i])
    ensures ok && limited ==> op + 3 <= maxOutputSize + Overrun(c.size)
    ensures c.Valid() && IsCommonLength(c.m, ip0 + MINMATCH, match_ + MINMATCH, c.End() - LASTLITERALS, code)
    ensures ok <==> !limited || PassesLimit(op0 + 2, code, maxOutputSize)
    ensures ok ==> ip == ip0 + MINMATCH + code && IsTailOf(Untested(op0 + 2, code, 0), ss', op, c.size)
    ensures ok ==> anchor <= ip0 && match_ < ip0 && ss' == ss + [Sequence(c.m[anchor..ip0], ip0 - match_, code + MINMATCH)]
    ensures ok && limited ==> Left(dest[..], old(dest[..]), maxOutputSize, Untested(op0 + 2, code, 0), 0)
    ensures !ok ==> ss' == ss && dest[op0..op0 + 2] == Le16(ip0 - match_) && Emitted(dest[..], c, t, anchor, ss, c.Total())
    ensures !ok ==> forall i :: 0 <= i < dest.Length && !(op0 <= i < op0 + 2) ==> dest[i] == old(dest[i])
    ensures forall i :: StoreLimit(c.size, limited, maxOutputSize) <= i < dest.Length ==> dest[i] == old(dest[i])
  {
    hide Emitted, IsMatch, Agree, IsCommonLength, CompressBound, EncodeSequence, Pending, StoreLimit;
    hide ScratchEnd, PassesLimit, Le16, Extra, Overrun, Left, IsTailOf, Hist;
    ip, op, ss' := ip0, op0, ss;
    var matchLimit := c.End() - LASTLITERALS;
    IsMatchBounds(c, ip, match_);
    EmittedBounds(dest[..], c, t, anchor, ss);
    WriteLe16(dest, op, ip - match_);
    PendingFrame(old(dest[..]), dest[..], t, op, c.m[anchor..ip]);
    EmittedFrame(old(dest[..]), dest[..], c, t, anchor, ss, c.Total());
    var mc := Count(c.m, ip + MINMATCH, match_ + MINMATCH, matchLimit);
    LongerAgreement(c, ip, match_, reach, matchLimit, mc);
    MatchRoom(c, t, anchor, ip, op + 2, mc, limited, maxOutputSize);
    if limited && !PassesLimit(op + 2, mc, maxOutputSize) {
      return false, ip, op, ss, mc;
    }
    ghost var out := dest[..];
    op, ss' := EncodeLength(c, dest, t, op, anchor, ip, match_, mc, ss, maxOutputSize);
    if limited {
      LeftEarlier(dest[..], out, old(dest[..]), maxOutputSize, Untested(op0 + 2, mc, 0));
    }
    return true, ip + MINMATCH + mc, op, ss', mc;
  }

  /** The length of a match completes its sequence; what it stores is the tail for a limit it passes. */
  method EncodeLength(c: Job, dest: array<byte>, t: nat, op0: nat, ghost anchor: nat, ip: nat, match_: nat, mc: nat, ghost ss: seq<Sequence>,
                      ghost limit: nat)
    returns (op: nat, ghost ss': seq<Sequence>)
    requires c.Valid() && Emitted(dest[..], c, t, anchor, ss, c.Total()) && anchor <= ip && IsMatch(c, ip, match_)
    requires Agree(c.m, ip, match_, mc + MINMATCH) && ip + MINMATCH + mc + LASTLITERALS <= c.End() && ip + MFLIMIT <= c.End()
    requires t < op0 && ScratchEnd(op0 + 2, mc, true) <= dest.Length && c.start <= anchor && match_ < ip
    requires Pending(dest[..], t, op0, c.m[anchor..ip]) && dest[op0..op0 + 2] == Le16(ip - match_)
    modifies dest
    ensures op == op0 + 2 + (mc + 240) / 255 && ss' != [] && Emitted(dest[..], c, op, ip + MINMATCH + mc, ss', c.Total())
    ensures ss' == ss + [Sequence(c.m[anchor..ip], ip - match_, mc + MINMATCH)]
    ensures IsTailOf(Untested(op0 + 2, mc, 0), ss', op, c.size)
    ensures PassesLimit(op0 + 2, mc, limit) ==> Left(dest[..], old(dest[..]), limit, Untested(op0 + 2, mc, 0), 0)
    ensures forall i :: ScratchEnd(op0 + 2, mc, true) <= i < dest.Length ==> dest[i] == old(dest[i])
  {
    hide Emitted, IsMatch, Agree, EncodeSequence, Pending, ScratchEnd, PassesLimit, Le16, Extra, Left, IsTailOf, Hist;
    EmittedBounds(dest[..], c, t, anchor, ss);
    op := EncodeMatch(dest, t, op0, ip - match_, mc, true, c.m[anchor..ip]);
    EmittedFrame(old(dest[..]), dest[..], c, t, anchor, ss, c.Total());
    EmitSequence(dest[..], c, t, op, anchor, ip, match_, mc, ss, c.Total(), c.Total());
    ss' := ss + [Sequence(c.m[anchor..ip], ip - match_, mc + MINMATCH)];
    TailOfLast(ss, ss'[|ss|], op0 + 2, mc, op, c.size);
    if PassesLimit(op0 + 2, mc, limit) {
      LeftLength(dest[..], old(dest[..]), limit, Untested(op0 + 2, mc, 0), op);
    }
  }

  /** The stores of a match whose literals start at `anchor` and whose length goes to `op`. */
  lemma MatchRoom(c: Job, t: nat, anchor: nat, ip: nat, op: nat, mc: nat, limited: bool, maxOutputSize: nat)
    requires c.Valid() && c.start <= anchor <= ip && ip + mc + MINMATCH + LASTLITERALS <= c.End()
    requires t <= anchor - c.start + (anchor - c.start) / 255
    requires op == t + 1 + (ip - anchor + 240) / 255 + (ip - anchor) + 2
    ensures limited && !PassesLimit(op, mc, maxOutputSize) ==> maxOutputSize < CompressBound(c.size)
    ensures !limited || PassesLimit(op, mc, maxOutputSize) ==>
              ScratchEnd(op, mc, true) <= StoreLimit(c.size, limited, maxOutputSize)
    ensures limited && PassesLimit(op, mc, maxOutputSize) ==> op + (mc + 240) / 255 + 3 <= maxOutputSize + Overrun(c.size)
  {
    hide StoreLimit, ScratchEnd, Overrun;
    RoomForMatch(anchor - c.start, ip - anchor, mc, c.size, t);
    CompressBoundIs(c.size);
    if !limited {
      BelowStoreLimit(ScratchEnd(op, mc, true), c.size, limited, maxOutputSize);
    } else if PassesLimit(op, mc, maxOutputSize) {
      PassedLimit(op, mc, maxOutputSize, c.size);
      BelowStoreLimit(ScratchEnd(op, mc, true), c.size, limited, maxOutputSize);
    }
  }

  lemma IsMatchBounds(c: Job, ip: nat, match_: nat)
    requires IsMatch(c, ip, match_)
    ensures c.start <= ip && c.low <= match_ < ip && ip - match_ <= MAX_DISTANCE
  {
  }

  lemma CompressBoundIs(size: nat)
    requires size <= MAX_INPUT_SIZE
    ensures CompressBound(size) == size + size / 255 + 16
  {
  }

  lemma EmittedBounds(out: seq<byte>, c: Job, op: nat, anchor: nat, ss: seq<Sequence>)
    requires c.Valid() && Emitted(out, c, op, anchor, ss, c.Total())
    ensures c.start <= anchor <= c.End() && op <= |out|
    ensures op <= anchor - c.start + (anchor - c.start) / 255
    ensures ss != [] ==> anchor + LASTLITERALS <= c.End()
    ensures ss == [] ==> op == 0
  {
  }

  datatype ChainEnd = EndOfInput | Resume | NoRoom

  /** The match at `ip` that goes on to the end of the region where matches may end. */
  ghost predicate GoesToEnd(c: Job, ip: nat, match_: nat)
    requires c.Valid()
  {
    ip + MINMATCH + LASTLITERALS <= c.End() && match_ <= ip && Agree(c.m, ip, match_, c.End() - LASTLITERALS - ip)
  }

  lemma AgreeAt(m: seq<byte>, p: nat, q: nat, n: nat, k: nat)
    requires Agree(m, p, q, n) && k < n
    ensures p + k < |m| && q + k < |m| && m[p + k] == m[q + k]
  {
  }

  lemma GoesToEndCode(c: Job, ip: nat, match_: nat, mc: nat)
    requires c.Valid() && GoesToEnd(c, ip, match_)
    requires IsCommonLength(c.m, ip + MINMATCH, match_ + MINMATCH, c.End() - LASTLITERALS, mc)
    ensures mc == c.End() - LASTLITERALS - MINMATCH - ip
  {
    hide Agree;
    if ip + MINMATCH + mc < c.End() - LASTLITERALS {
      AgreeAt(c.m, ip, match_, c.End() - LASTLITERALS - ip, MINMATCH + mc);
    }
  }

  /** What happens at a match that goes to the end: it is the last, if there is room for it. */
  predicate EndsAt(c: Job, ip: nat, op: nat, maxOutputSize: nat, limited: bool, end: ChainEnd, tail: Tail)
    requires ip + MINMATCH + LASTLITERALS <= c.End()
  {
    var mc := c.End() - LASTLITERALS - MINMATCH - ip;
    if limited && !PassesLimit(op + 2, mc, maxOutputSize) then end == NoRoom && tail == Tested
    else end == EndOfInput && tail == Untested(op + 2, mc, 0)
  }

  /** The loop through _next_match: matches that follow one another without literals.  Behind all but
      the last of them there was another test of the limit, so the last makes up the tail. */
  method EncodeMatches(c: Job, dest: array<byte>, table: array<nat>, maxOutputSize: nat, limited: bool, t0: nat, op0: nat,
                       ghost anchor0: nat, ip0: nat, match0: nat, ghost reach0: nat, ghost ss0: seq<Sequence>, ghost plan: Plan)
    returns (end: ChainEnd, ip: nat, op: nat, ghost ss: seq<Sequence>, ghost tail: Tail, ghost written: nat, ghost until: nat)
    requires AtMatch(dest[..], c, StoreLimit(c.size, limited, maxOutputSize), t0, op0, anchor0, ip0, match0, reach0, ss0)
    requires TableBelow(table[..], c, ip0 + reach0 + 1) && (limited ==> op0 + 2 <= maxOutputSize)
    requires PlannedAt(c, plan, ss0, table[..], anchor0, ip0, match0)
    modifies dest, table
    ensures forall i :: StoreLimit(c.size, limited, maxOutputSize) <= i < dest.Length ==> dest[i] == old(dest[i])
    ensures end == NoRoom ==> limited && maxOutputSize < CompressBound(c.size)
    ensures c.Valid() && Emitted(dest[..], c, written, until, ss, c.Total()) && IsTailOf(tail, ss, written, c.size)
    ensures limited ==> Left(dest[..], old(dest[..]), maxOutputSize, tail, 0)
    ensures GoesToEnd(c, ip0, match0) ==> EndsAt(c, ip0, op0, maxOutputSize, limited, end, tail)
    ensures end == NoRoom ==> TooLong(c, plan, maxOutputSize)
    ensures end == EndOfInput ==> plan == Plan(ss, ip)
    ensures end == Resume ==> PlannedFrom(c, plan, ss, table[..], ip, ip + 1)
    ensures end != NoRoom ==> tail.Untested? && tail.next == 0
    ensures end != NoRoom ==> ip0 + reach0 < ip && ss != [] && written == op && until == ip
    ensures end != NoRoom ==> op0 + 2 <= op && forall i :: op + 6 <= i < dest.Length ==> dest[i] == old(dest[i])
    ensures end == Resume ==> ip <= c.MfLimit() && TableBelow(table[..], c, ip + 1)
    ensures end != Resume ==> TableBelow(table[..], c, c.End() + 1)
  {
    hide AtMatch, Emitted, IsMatch, Agree, CompressBound, TableBelow, StoreLimit, Accepts, Overrun;
    hide Left, Pauses, PassesLimit, IsTailOf, GoesToEnd, EndsAt, PlannedAt, PlannedFrom, PlannedNext, TooLong;
    ghost var limit := StoreLimit(c.size, limited, maxOutputSize);
    var t: nat, match_: nat := t0, match0;
    ghost var anchor, reach, before := anchor0, reach0, ss0;
    op, ip, tail := op0, ip0, Tested;
    AtMatchBounds(dest[..], c, limit, t, op, anchor, ip, match_, reach, before);
    NoTail(before, t, c.size);
    if limited {
      PauseBegins(dest[..], maxOutputSize, op, ip - match_);
    }
    while true
      invariant AtMatch(dest[..], c, limit, t, op, anchor, ip, match_, reach, before)
      invariant forall i :: limit <= i < dest.Length ==> dest[i] == old(dest[i])
      invariant TableBelow(table[..], c, ip + reach + 1)
      invariant ip0 + reach0 <= ip + reach && op0 <= op
      invariant forall i :: op + 6 <= i < dest.Length ==> dest[i] == old(dest[i])
      invariant PlannedAt(c, plan, before, table[..], anchor, ip, match_)
      invariant IsTailOf(tail, before, t, c.size)
      invariant limited ==> Pauses(dest[..], old(dest[..]), maxOutputSize, tail, op, ip - match_)
      invariant tail.Tested? ==> ip == ip0 && match_ == match0 && op == op0
      invariant GoesToEnd(c, ip0, match0) ==> tail.Tested?
      decreases c.End() - ip
    {
      AtMatchBounds(dest[..], c, limit, t, op, anchor, ip, match_, reach, before);
      ghost var ipAtTurn, out := ip, dest[..];
      var ok;
      ok, ip, op, ss, tail := EncodeTurn(c, dest, maxOutputSize, limited, t, op, anchor, ip, match_, reach, before, old(dest[..]), tail,
                                           plan, table[..]);
      if !ok {
        TableBelowMonotone(table[..], c, ipAtTurn + reach + 1, c.End() + 1);
        return NoRoom, ip, op, ss, tail, t, anchor;
      }
      EmittedBounds(dest[..], c, op, ip, ss);
      TableBelowMonotone(table[..], c, ipAtTurn + reach + 1, ip);
      if ip > c.MfLimit() {
        PlanEnds(c, plan, ss, table[..], ip);
        TableBelowMonotone(table[..], c, ip, c.End() + 1);
        return EndOfInput, ip, op, ss, tail, op, ip;
      }
      out := dest[..];
      var more, candidate := MatchFollows(c, dest, table, maxOutputSize, limited, op, ip, ss, plan);
      if !more {
        return Resume, ip, op, ss, tail, op, ip;
      }
      TailGoesOn(tail, ss, op, c.size, ip - candidate);
      if limited {
        PauseStarts(dest[..], out, old(dest[..]), maxOutputSize, tail, op, ip - candidate);
      }
      t, op, match_, tail := op, op + 1, candidate, tail.(next := ip - candidate);
      anchor, reach, before := ip, 0, ss;
    }
  }

  /** One match, and what it does to the tail of a run that began with the output `first`. */
  method EncodeTurn(c: Job, dest: array<byte>, maxOutputSize: nat, limited: bool, t: nat, op0: nat, ghost anchor: nat,
                    ip0: nat, match_: nat, ghost reach: nat, ghost ss: seq<Sequence>, ghost first: seq<byte>, ghost tail: Tail,
                    ghost plan: Plan, ghost table: seq<nat>)
    returns (ok: bool, ip: nat, op: nat, ghost ss': seq<Sequence>, ghost tail': Tail)
    requires AtMatch(dest[..], c, StoreLimit(c.size, limited, maxOutputSize), t, op0, anchor, ip0, match_, reach, ss)
    requires IsTailOf(tail, ss, t, c.size) && (limited ==> Pauses(dest[..], first, maxOutputSize, tail, op0, ip0 - match_))
    requires PlannedAt(c, plan, ss, table, anchor, ip0, match_)
    modifies dest
    ensures !ok ==> limited && maxOutputSize < CompressBound(c.size) && ss' == ss && tail' == tail && Emitted(dest[..], c, t, anchor, ss, c.Total())
    ensures ok ==> ip0 + reach + MINMATCH <= ip && ss' != [] && c.Valid() && Emitted(dest[..], c, op, ip, ss', c.Total())
                   && tail'.Untested? && tail'.next == 0 && tail'.op == op0 + 2 && IsTailOf(tail', ss', op, c.size)
    ensures ok ==> op0 + 2 <= op && forall i :: op + 3 <= i < dest.Length ==> dest[i] == old(dest[i])
    ensures ok && limited ==> op + 3 <= maxOutputSize + Overrun(c.size)
    ensures limited ==> Left(dest[..], first, maxOutputSize, tail', 0)
    ensures c.Valid() && if ok then PlannedNext(c, plan, ss', table, ip) else TooLong(c, plan, maxOutputSize)
    ensures GoesToEnd(c, ip0, match_) ==>
              EndsAt(c, ip0, op0, maxOutputSize, limited, if ok then EndOfInput else NoRoom, if ok then tail' else Tested)
    ensures GoesToEnd(c, ip0, match_) && ok ==> ip > c.MfLimit()
    ensures forall i :: StoreLimit(c.size, limited, maxOutputSize) <= i < dest.Length ==> dest[i] == old(dest[i])
  {
    hide AtMatch, Emitted, IsMatch, Agree, CompressBound, StoreLimit, Overrun, Left, Pauses, PassesLimit, IsCommonLength, IsTailOf, GoesToEnd, Le16, MatchAt;
    hide PlannedAt, PlannedNext, TooLong;
    AtMatchSizes(dest[..], c, StoreLimit(c.size, limited, maxOutputSize), t, op0, anchor, ip0, match_, reach, ss);
    AtMatchBounds(dest[..], c, StoreLimit(c.size, limited, maxOutputSize), t, op0, anchor, ip0, match_, reach, ss);
    ghost var code;
    ok, ip, op, ss', code := EncodeOneMatch(c, dest, maxOutputSize, limited, t, op0, anchor, ip0, match_, reach, ss);
    CodeIsPlanned(c, anchor, ip0, match_, code);
    if GoesToEnd(c, ip0, match_) {
      GoesToEndBounds(c, ip0, match_);
      GoesToEndCode(c, ip0, match_, code);
    }
    tail' := if ok then Untested(op0 + 2, code, 0) else tail;
    if ok {
      PlanGoesOn(c, plan, ss, table, anchor, ip0, match_, ss');
    } else {
      TurnTooLong(c, plan, ss, table, anchor, ip0, match_, t, maxOutputSize);
    }
    if !ok {
      PauseEnds(dest[..], old(dest[..]), first, maxOutputSize, tail, op0, ip0 - match_);
    } else if limited {
      PausePasses(dest[..], old(dest[..]), first, maxOutputSize, tail, op0, ip0 - match_, tail');
    }
  }

  lemma CodeIsPlanned(c: Job, anchor: nat, ip: nat, match_: nat, code: nat)
    requires c.Valid() && c.start <= anchor <= ip <= c.MfLimit() && match_ < ip
    requires IsCommonLength(c.m, ip + MINMATCH, match_ + MINMATCH, c.End() - LASTLITERALS, code)
    ensures MatchAt(c, anchor, ip, match_) == Sequence(c.m[anchor..ip], ip - match_, code + MINMATCH)
  {
    CommonLengthUnique(c.m, ip + MINMATCH, match_ + MINMATCH, c.End() - LASTLITERALS, code);
  }

  lemma AtMatchSizes(out: seq<byte>, c: Job, limit: nat, t: nat, op: nat, anchor: nat, ip: nat, match_: nat, reach: nat,
                     ss: seq<Sequence>)
    requires AtMatch(out, c, limit, t, op, anchor, ip, match_, reach, ss)
    ensures LongMatches(ss) && t == |EncodeAll(ss)| && op == t + 1 + (ip - anchor + 240) / 255 + (ip - anchor)
  {
    hide Pending, Agree, RestrictedAll;
    assert |out[..t]| == t;
  }

  // ----- Along the plan -----

  /** The plan is the sequences so far, and the rest from a match on. */
  ghost predicate PlannedAt(c: Job, plan: Plan, before: seq<Sequence>, table: seq<nat>, anchor: nat, ip: nat, match_: int) {
    && Shaped(c, table, anchor, ip) && ip <= c.MfLimit() && 0 <= match_ < ip && LongMatches(plan.ss)
    && plan == Behind(before, AfterChain(c, Chain(c, table, anchor, ip, match_)))
  }

  /** The same from a search hit on. */
  ghost predicate PlannedHit(c: Job, plan: Plan, before: seq<Sequence>, table: seq<nat>, anchor: nat, hit: nat, match_: int) {
    && Shaped(c, table, anchor, hit) && hit <= c.MfLimit() && 0 <= match_ < hit && LongMatches(plan.ss)
    && plan == Behind(before, FromHit(c, table, anchor, hit, match_))
  }

  /** The same from a search on. */
  ghost predicate PlannedFrom(c: Job, plan: Plan, before: seq<Sequence>, table: seq<nat>, anchor: nat, ip: nat) {
    && Shaped(c, table, anchor, ip) && ip <= c.MfLimit() + 1 && LongMatches(plan.ss)
    && plan == Behind(before, PlanFrom(c, table, anchor, ip, HashPosition(c.m, ip, c.table)))
  }

  /** The planned block does not fit the limit. */
  ghost predicate TooLong(c: Job, plan: Plan, maxOutputSize: nat) {
    c.Valid() && plan.anchor <= c.End() && LongMatches(plan.ss) && maxOutputSize < PlanSize(c, plan)
  }

  lemma PlanBegins(c: Job, plan: Plan, table: seq<nat>, anchor: nat, ip: nat)
    requires Shaped(c, table, anchor, ip) && ip <= c.MfLimit() + 1
    requires plan == PlanFrom(c, table, anchor, ip, HashPosition(c.m, ip, c.table))
    ensures PlannedFrom(c, plan, [], table, anchor, ip)
  {
    hide PlanFrom, HashPosition;
    BehindNone(plan);
  }

  lemma PlanProbed(c: Job, plan: Plan, before: seq<Sequence>, table: seq<nat>, anchor: nat, ip: nat, found: bool, hit: nat,
                   match_: nat, table': seq<nat>)
    requires PlannedFrom(c, plan, before, table, anchor, ip)
    requires Probed(c, table, ip, HashPosition(c.m, ip, c.table), 1, 64) == if found then HitAt(hit, match_, table') else NoHit
    ensures if found then PlannedHit(c, plan, before, table', anchor, hit, match_) else plan == Plan(before, anchor)
  {
    hide Probed, HashPosition, FromHit;
    BehindEnd(before, [], anchor);
    assert before + [] == before;
  }

  lemma HitCaughtUp(c: Job, plan: Plan, before: seq<Sequence>, table: seq<nat>, anchor: nat, hit: nat, match0: nat, ip: nat, match_: nat)
    requires PlannedHit(c, plan, before, table, anchor, hit, match0) && (ip, match_) == CaughtUp(c, anchor, hit, match0)
    ensures PlannedAt(c, plan, before, table, anchor, ip, match_)
  {
    hide Chain, AfterChain, CaughtUp;
  }

  lemma LiteralsTooLong(out: seq<byte>, c: Job, plan: Plan, before: seq<Sequence>, table: seq<nat>, t: nat, anchor: nat, ip: nat,
                        match_: nat, maxOutputSize: nat)
    requires PlannedAt(c, plan, before, table, anchor, ip, match_) && Emitted(out, c, t, anchor, before, c.Total())
    requires maxOutputSize < t + 1 + (ip - anchor) + (2 + 1 + LASTLITERALS) + (ip - anchor) / 255
    ensures TooLong(c, plan, maxOutputSize)
  {
    hide Chain, AfterChain, MatchAt, RestrictedAll, ExpandAll;
    assert |out[..t]| == t;
    TestsNeed(c, plan, before, table, anchor, ip, match_);
  }

  lemma TurnTooLong(c: Job, plan: Plan, before: seq<Sequence>, table: seq<nat>, anchor: nat, ip: nat, match_: nat, t: nat,
                    maxOutputSize: nat)
    requires PlannedAt(c, plan, before, table, anchor, ip, match_) && LongMatches(before) && t == |EncodeAll(before)|
    requires !PassesLimit(t + 1 + (ip - anchor + 240) / 255 + (ip - anchor) + 2, MatchAt(c, anchor, ip, match_).matchLength - MINMATCH, maxOutputSize)
    ensures TooLong(c, plan, maxOutputSize)
  {
    hide Chain, AfterChain, MatchAt;
    TestsNeed(c, plan, before, table, anchor, ip, match_);
  }

  /** The same behind a match that ends at `ip`: the end, another match, or another search. */
  ghost predicate PlannedNext(c: Job, plan: Plan, ss: seq<Sequence>, table: seq<nat>, ip: nat) {
    && Shaped(c, table, c.start, ip)
    && if ip > c.MfLimit() then plan == Plan(ss, ip)
       else
         && ip >= c.start + 2
         && var (candidate, table') := Recorded(c, table, ip);
            if Takes(c, ip, candidate, true) then PlannedAt(c, plan, ss, table', ip, ip, candidate)
            else PlannedFrom(c, plan, ss, table', ip, ip + 1)
  }

  lemma PlanEnds(c: Job, plan: Plan, ss: seq<Sequence>, table: seq<nat>, ip: nat)
    requires PlannedNext(c, plan, ss, table, ip) && ip > c.MfLimit()
    ensures plan == Plan(ss, ip)
  {
  }

  lemma PlanRecorded(c: Job, plan: Plan, ss: seq<Sequence>, table: seq<nat>, ip: nat, candidate: int, table': seq<nat>)
    requires PlannedNext(c, plan, ss, table, ip) && ip <= c.MfLimit()
    requires var h, h2 := HashPosition(c.m, ip, c.table), HashPosition(c.m, ip - 2, c.table);
             && h < |table| && h2 < |table| && candidate == c.base + table[h2 := ip - 2 - c.base][h]
             && table' == table[h2 := ip - 2 - c.base][h := ip - c.base]
    ensures if Takes(c, ip, candidate, true) then PlannedAt(c, plan, ss, table', ip, ip, candidate)
            else PlannedFrom(c, plan, ss, table', ip, ip + 1)
  {
    hide PlannedAt, PlannedFrom, Takes, HashPosition;
  }

  /** After a match: the end, another match, or another search. */
  lemma PlanGoesOn(c: Job, plan: Plan, before: seq<Sequence>, table: seq<nat>, anchor: nat, ip: nat, match_: nat, ss: seq<Sequence>)
    requires PlannedAt(c, plan, before, table, anchor, ip, match_) && ss == before + [MatchAt(c, anchor, ip, match_)]
    ensures PlannedNext(c, plan, ss, table, ip + MatchAt(c, anchor, ip, match_).matchLength)
  {
    hide Chain, AfterChain, MatchAt, Recorded, Accepts, PlanFrom, HashPosition;
    AfterMatch(c, table, anchor, ip, match_);
    var s := MatchAt(c, anchor, ip, match_);
    var end := ip + s.matchLength;
    if end > c.MfLimit() {
      BehindEnd(before, [s], end);
    } else {
      var (candidate, table') := Recorded(c, table, end);
      if Takes(c, end, candidate, true) {
        BehindBoth(before, [s], AfterChain(c, Chain(c, table', end, end, candidate)));
      } else {
        BehindBoth(before, [s], PlanFrom(c, table', end, end + 1, HashPosition(c.m, end + 1, c.table)));
      }
    }
  }

  lemma GoesToEndBounds(c: Job, ip: nat, match_: nat)
    requires c.Valid() && GoesToEnd(c, ip, match_)
    ensures ip + MINMATCH + LASTLITERALS <= c.End()
  {
  }

  lemma RoomForToken(out: seq<byte>, c: Job, limited: bool, maxOutputSize: nat, t: nat, ip: nat, ss: seq<Sequence>)
    requires c.Valid() && Emitted(out, c, t, ip, ss, c.Total()) && ip <= c.MfLimit()
    requires limited ==> t + 3 <= maxOutputSize + Overrun(c.size)
    ensures t + 3 <= StoreLimit(c.size, limited, maxOutputSize)
  {
    hide Emitted;
    EmittedBounds(out, c, t, ip, ss);
  }

  lemma ChainedAtMatch(out: seq<byte>, out': seq<byte>, c: Job, limit: nat, t: nat, ip: nat, match_: nat, ss: seq<Sequence>)
    requires c.Valid() && Emitted(out, c, t, ip, ss, c.Total()) && t + 3 <= limit <= |out| == |out'|
    requires ip <= c.MfLimit() && IsMatch(c, ip, match_)
    requires out' == out[t := 0]
    ensures AtMatch(out', c, limit, t, t + 1, ip, ip, match_, 0, ss)
  {
    hide Emitted, Pending;
    EmittedBounds(out, c, t, ip, ss);
    EmittedFrame(out, out', c, t, ip, ss, c.Total());
    PendingNothing(out', t, c.m[ip..ip]);
  }

  /** The test for a match right behind the last one; a token is stored for it. */
  method MatchFollows(c: Job, dest: array<byte>, table: array<nat>, ghost maxOutputSize: nat, ghost limited: bool,
                      op: nat, ip: nat, ghost ss: seq<Sequence>, ghost plan: Plan)
    returns (more: bool, candidate: nat)
    requires c.Valid() && Emitted(dest[..], c, op, ip, ss, c.Total()) && c.start + 2 <= ip <= c.MfLimit() && TableBelow(table[..], c, ip)
    requires limited ==> op + 3 <= maxOutputSize + Overrun(c.size)
    requires StoreLimit(c.size, limited, maxOutputSize) <= dest.Length && PlannedNext(c, plan, ss, table[..], ip)
    modifies dest, table
    ensures TableBelow(table[..], c, ip + 1)
    ensures if more then PlannedAt(c, plan, ss, table[..], ip, ip, candidate) else PlannedFrom(c, plan, ss, table[..], ip, ip + 1)
    ensures op < dest.Length && dest[..] == if more then old(dest[..])[op := 0] else old(dest[..])
    ensures more ==> candidate < ip && op + 3 <= StoreLimit(c.size, limited, maxOutputSize)
                     && AtMatch(dest[..], c, StoreLimit(c.size, limited, maxOutputSize), op, op + 1, ip, ip, candidate, 0, ss)
  {
    hide AtMatch, Emitted, IsMatch, TableBelow, StoreLimit, Accepts, Overrun, HashPosition, Takes, PlannedNext, PlannedAt, PlannedFrom;
    TableBelowLength(table[..], c, ip);
    ghost var before := table[..];
    RoomForToken(dest[..], c, limited, maxOutputSize, op, ip, ss);
    PutPosition(c, table, ip - 2, ip);
    var found := NextCandidate(c, table, ip);
    TakesAccepted(c, ip, found, true);
    PlanRecorded(c, plan, ss, before, ip, found, table[..]);
    if !Accepts(c, ip, found, true) {
      return false, 0;
    }
    AcceptedIsMatch(c, ip, found, true);
    IsMatchBounds(c, ip, found);
    StartMatch(c, dest, StoreLimit(c.size, limited, maxOutputSize), op, ip, found, ss);
    return true, found;
  }

  /** A token for a match that follows at once. */
  method StartMatch(c: Job, dest: array<byte>, ghost limit: nat, t: nat, ghost ip: nat, ghost match_: nat, ghost ss: seq<Sequence>)
    requires c.Valid() && Emitted(dest[..], c, t, ip, ss, c.Total()) && t + 3 <= limit <= dest.Length
    requires ip <= c.MfLimit() && IsMatch(c, ip, match_)
    modifies dest
    ensures AtMatch(dest[..], c, limit, t, t + 1, ip, ip, match_, 0, ss)
    ensures dest[..] == old(dest[..])[t := 0]
  {
    hide Emitted, AtMatch, IsMatch;
    ghost var out := dest[..];
    dest[t] := 0;
    ChainedAtMatch(out, dest[..], c, limit, t, ip, match_, ss);
  }

  lemma EmptyLength(n: nat)
    requires n == 0
    ensures Token(n, 0) == 0 && Extra(n) == []
  {
  }

  lemma PendingNothing(out: seq<byte>, t: nat, literals: seq<byte>)
    requires t < |out| && out[t] == 0 && |literals| == 0
    ensures Pending(out, t, t + 1, literals)
  {
    hide Token, Extra;
    var token, x := Token(|literals|, 0), Extra(|literals|);
    EmptyLength(|literals|);
    assert out[t..t + 1] == [token] + (x + literals);
  }

  lemma AtMatchBounds(out: seq<byte>, c: Job, limit: nat, t: nat, op: nat, anchor: nat, ip: nat, match_: nat, reach: nat,
                      ss: seq<Sequence>)
    requires AtMatch(out, c, limit, t, op, anchor, ip, match_, reach, ss)
    ensures c.Valid() && c.start <= anchor <= ip && ip + reach <= c.MfLimit() && op + 2 <= limit <= |out| && match_ < ip
  {
  }

  lemma TableBelowMonotone(table: seq<nat>, c: Job, ip: nat, later: nat)
    requires TableBelow(table, c, ip) && ip <= later
    ensures TableBelow(table, c, later)
  {
  }

  // ----- A whole block -----

  datatype Directive = NoDict | WithPrefix64k | UsingExtDict

  /** The switch on the dictionary directive: where table entries count from, and how far back matches
      may reach. */
  function MakeJob(m: seq<byte>, start: nat, size: nat, t: TableType, dict: Directive, dictSmall: bool,
                   currentOffset: nat, dictSize: nat): Job
    requires dictSize <= start
  {
    match dict
    case NoDict => Job(m, start, size, t, start, start, dictSmall)
    case WithPrefix64k => Job(m, start, size, t, start - currentOffset, start - dictSize, dictSmall)
    case UsingExtDict => Job(m, start, size, t, start - currentOffset, start, dictSmall)
  }

  lemma RoomForLiterals(a: nat, lit: nat, size: nat, t: nat)
    requires t <= a + a / 255 && a + lit + MFLIMIT <= size
    ensures t + 1 + (lit + 240) / 255 + CopyEnd(lit) <= size + size / 255 + 16
    ensures t + 1 + lit + (2 + 1 + LASTLITERALS) + lit / 255 <= size + size / 255 + 16
  {
    assert a / 255 + (lit + 240) / 255 <= size / 255 + 1;
    assert a / 255 + lit / 255 <= size / 255;
  }

  /** The literal test keeps all stores of the literals, and the offset, below the limit itself. */
  lemma LiteralRoom(c: Job, op: nat, anchor: nat, lit: nat, limited: bool, maxOutputSize: nat)
    requires c.Valid() && c.start <= anchor && anchor + lit <= c.MfLimit() && op <= anchor - c.start + (anchor - c.start) / 255
    ensures var passes := op + 1 + lit + (2 + 1 + LASTLITERALS) + lit / 255 <= maxOutputSize;
            && (limited && !passes ==> maxOutputSize < CompressBound(c.size))
            && (!limited || passes ==>
                  && op + 1 + (lit + 240) / 255 + CopyEnd(lit) <= StoreLimit(c.size, limited, maxOutputSize)
                  && op + 1 + (lit + 240) / 255 + lit + 2 <= StoreLimit(c.size, limited, maxOutputSize))
            && (passes ==> op + 1 + (lit + 240) / 255 + CopyEnd(lit) <= maxOutputSize && op + 1 + (lit + 240) / 255 + lit + 2 <= maxOutputSize)
  {
    hide StoreLimit, CopyEnd;
    RoomForLiterals(anchor - c.start, lit, c.size, op);
    CompressBoundIs(c.size);
    CopyStaysInside(lit);
    var x, y := op + 1 + (lit + 240) / 255 + CopyEnd(lit), op + 1 + (lit + 240) / 255 + lit + 2;
    if !limited || op + 1 + lit + (2 + 1 + LASTLITERALS) + lit / 255 <= maxOutputSize {
      BelowStoreLimit(x, c.size, limited, maxOutputSize);
      BelowStoreLimit(y, c.size, limited, maxOutputSize);
    }
  }

  lemma RoomForLast(a: nat, last: nat, op: nat)
    requires op <= a + a / 255
    ensures op + 1 + (last + 240) / 255 + last <= a + last + (a + last) / 255 + 2
  {
  }

  /** From a search hit to the label _next_match: catch up, then write the literals. */
  method EncodePending(c: Job, dest: array<byte>, maxOutputSize: nat, limited: bool, op0: nat, anchor: nat,
                       ip0: nat, match0: nat, ghost ss: seq<Sequence>)
    returns (ok: bool, ip: nat, match_: nat, op: nat)
    requires c.Valid() && Emitted(dest[..], c, op0, anchor, ss, c.Total())
    requires StoreLimit(c.size, limited, maxOutputSize) <= dest.Length
    requires anchor <= ip0 <= c.MfLimit() && IsMatch(c, ip0, match0)
    modifies dest
    ensures !ok ==> limited && maxOutputSize < CompressBound(c.size) && dest[..] == old(dest[..])
    ensures !ok ==> maxOutputSize < op0 + 1 + (ip - anchor) + (2 + 1 + LASTLITERALS) + (ip - anchor) / 255
    ensures match0 < ip0 && (ip, match_) == CaughtUp(c, anchor, ip0, match0)
    ensures ok && limited ==> op0 + 1 + (2 + 1 + LASTLITERALS) <= maxOutputSize && op + 2 <= maxOutputSize
    ensures ok && limited ==> forall i :: maxOutputSize <= i < dest.Length ==> dest[i] == old(dest[i])
    ensures ok ==> ip <= ip0 && op0 < op
                   && AtMatch(dest[..], c, StoreLimit(c.size, limited, maxOutputSize), op0, op, anchor, ip, match_, ip0 - ip, ss)
    ensures ok ==> forall i :: op + 8 <= i < dest.Length ==> dest[i] == old(dest[i])
    ensures forall i :: StoreLimit(c.size, limited, maxOutputSize) <= i < dest.Length ==> dest[i] == old(dest[i])
  {
    hide Emitted, Agree, CompressBound, CopyEnd, Pending, StoreLimit, IsMatch;
    op := op0;
    EmittedBounds(dest[..], c, op0, anchor, ss);
    ip, match_ := CatchUp(c, anchor, ip0, match0);
    var litLength := ip - anchor;
    LiteralRoom(c, op, anchor, litLength, limited, maxOutputSize);
    if limited && op + 1 + litLength + (2 + 1 + LASTLITERALS) + litLength / 255 > maxOutputSize {
      return false, ip, match_, op;
    }
    CopyStaysInside(litLength);
    op := EncodeLiterals(dest, op, c.m, anchor, litLength);
    EmittedFrame(old(dest[..]), dest[..], c, op0, anchor, ss, c.Total());
    assert anchor + litLength == ip;
    return true, ip, match_, op;
  }

  lemma CopyStaysInside(length: nat)
    ensures CopyEnd(length) <= length + 8 && (length >= 1 ==> CopyEnd(length) <= length + 7)
  {
  }

  /** The last literals: everything from `anchor` on. */
  method FinishBlock(c: Job, dest: array<byte>, maxOutputSize: nat, limited: bool, op0: nat, anchor: nat, ghost ss: seq<Sequence>)
    returns (r: nat)
    requires c.Valid() && Emitted(dest[..], c, op0, anchor, ss, c.Total())
    requires StoreLimit(c.size, limited, maxOutputSize) <= dest.Length
    modifies dest
    ensures r == 0 ==> dest[..] == old(dest[..])
    ensures op0 <= dest.Length && forall i :: 0 <= i < op0 ==> dest[i] == old(dest[i])
    ensures c.start <= anchor <= c.End() && LongMatches(ss)
    ensures var n := PlanSize(c, Plan(ss, anchor)); r == if limited && n > maxOutputSize then 0 else n
    ensures r > 0 ==> Represents(PlanBlock(c, Plan(ss, anchor)), dest[..r], Hist(c), c.m[c.start..c.End()])
    ensures r == 0 ==> limited && maxOutputSize < CompressBound(c.size)
    ensures r > 0 ==> op0 + Slack(ss) <= r <= c.size + c.size / 255 + 2 && (limited ==> r <= maxOutputSize)
    ensures r <= StoreLimit(c.size, limited, maxOutputSize)
    ensures r > 0 ==> IsBlockFor(dest[..r], Hist(c), c.m[c.start..c.End()])
    ensures r > 0 ==> forall i :: r <= i < dest.Length ==> dest[i] == old(dest[i])
  {
    hide Emitted, CompressBound, EncodeLast, IsBlockFor, EncodeAll, Represents;
    EmittedBounds(dest[..], c, op0, anchor, ss);
    EmittedSize(dest[..], c, op0, anchor, ss);
    CompressBoundIs(c.size);
    var lastRun := c.End() - anchor;
    RoomForLast(anchor - c.start, lastRun, op0);
    if limited && op0 + lastRun + 1 + (lastRun + 240) / 255 > maxOutputSize {
      return 0;
    }
    r := EncodeLastLiterals(dest, op0, c.m, anchor, lastRun);
    EmittedFrame(old(dest[..]), dest[..], c, op0, anchor, ss, c.Total());
    ghost var b := CompleteBlock(dest[..], c, op0, r, anchor, lastRun, ss, c.Total());
  }

  lemma EmittedSize(out: seq<byte>, c: Job, op: nat, anchor: nat, ss: seq<Sequence>)
    requires c.Valid() && Emitted(out, c, op, anchor, ss, c.Total())
    ensures LongMatches(ss) && op == |EncodeAll(ss)|
  {
    hide RestrictedAll, ExpandAll;
    assert |out[..op]| == op;
  }

  /** An input of equal bytes, without history, long enough for a match. */
  ghost predicate AllEqual(c: Job) {
    c.Valid() && c.base == c.low == c.start && c.size >= 14 && forall i :: c.start <= i < c.End() ==> c.m[i] == c.m[c.start]
  }

  /** Its tail: one literal, and one match for the rest but the last literals, if that passes the test. */
  function EqualTail(size: nat, maxOutputSize: nat): Tail
    requires size >= 14
  {
    if PassesLimit(4, size - 10, maxOutputSize) then Untested(4, size - 10, 0) else Tested
  }

  /** Its first candidate is accepted. */
  lemma EqualAccepts(c: Job, table: seq<nat>, hash: nat)
    requires AllEqual(c) && TableBelow(table, c, c.start + 1) && hash < |table|
    ensures table[hash] == 0 && FirstAccepted(c, table, c.start + 1, hash)
  {
    assert c.base + table[hash] < c.start + 1;
  }

  /** And caught up nowhere, it goes to the end. */
  lemma EqualGoesToEnd(c: Job, ip: nat, match_: nat)
    requires AllEqual(c) && ip <= c.start + 1 && IsMatch(c, ip, match_)
    ensures ip == c.start + 1 && match_ == c.start && GoesToEnd(c, ip, match_)
  {
  }

  lemma {:induction false} EqualLength(c: Job, p: nat, q: nat, limit: nat)
    requires AllEqual(c) && c.start <= q <= p <= limit <= c.End()
    ensures CommonLength(c.m, p, q, limit) == limit - p
    decreases limit - p
  {
    if p < limit {
      EqualLength(c, p + 1, q + 1, limit);
    }
  }

  /** Its block: one literal, one match and the last five literals. */
  lemma EqualPlan(c: Job, table: seq<nat>)
    requires AllEqual(c) && TableBelow(table, c, c.start + 1)
    ensures Shaped(c, table, c.start, c.start)
    ensures PlanOf(c, table) == Plan([Sequence(c.m[c.start..c.start + 1], 1, c.size - 6)], c.End() - LASTLITERALS)
    ensures PlanSize(c, PlanOf(c, table)) == 10 + (c.size - 10 + 240) / 255
  {
    hide AllEqual, FirstAccepted, HashPosition, EncodeAll, EncodeSequence, Accepts;
    EqualFacts(c);
    var ip, h := c.start + 1, HashPosition(c.m, c.start + 1, c.table);
    var t := Put(c, table, c.start, HashPosition(c.m, c.start, c.table));
    PutBelow(c, table, HashPosition(c.m, c.start, c.table));
    EqualAccepts(c, t, h);
    EqualTaken(c, t, h);
    EqualLength(c, ip + MINMATCH, c.start + MINMATCH, c.End() - LASTLITERALS);
    var ss := [Sequence(c.m[c.start..ip], 1, c.size - 6)];
    assert Probed(c, t, ip, h, 1, 64) == HitAt(ip, c.start, Put(c, t, ip, h));
    assert CaughtUp(c, c.start, ip, c.start) == (ip, c.start);
    assert MatchAt(c, c.start, ip, c.start) == ss[0];
    AfterMatch(c, Put(c, t, ip, h), c.start, ip, c.start);
    assert FromHit(c, Put(c, t, ip, h), c.start, ip, c.start) == Plan(ss, c.End() - LASTLITERALS);
    assert PlanFrom(c, t, c.start, ip, h) == FromHit(c, Put(c, t, ip, h), c.start, ip, c.start);
    OneSequence(ss);
  }

  lemma EqualFacts(c: Job)
    requires AllEqual(c)
    ensures c.Valid() && c.base == c.low == c.start && c.size >= 14
  {
  }

  lemma PutBelow(c: Job, table: seq<nat>, h: nat)
    requires c.Valid() && TableBelow(table, c, c.start + 1) && h < |table|
    ensures TableBelow(Put(c, table, c.start, h), c, c.start + 1) && |table| == TableSize(c.table)
  {
  }

  lemma EqualTaken(c: Job, table: seq<nat>, h: nat)
    requires AllEqual(c) && TableBelow(table, c, c.start + 1) && h < |table| && table[h] == 0
    requires FirstAccepted(c, table, c.start + 1, h)
    ensures Takes(c, c.start + 1, c.base + table[h], c.table != ByU16) && c.start + 2 <= c.MfLimit()
  {
  }

  lemma OneSequence(ss: seq<Sequence>)
    requires |ss| == 1 && ss[0].matchLength >= MINMATCH
    ensures LongMatches(ss) && |EncodeAll(ss)| == |EncodeSequence(ss[0])|
  {
    hide EncodeSequence;
    assert ss[..0] == [];
  }

  /** From a search hit on: catch up, literals, then matches.  The test of the literals is behind the
      tail so far. */
  method EncodeHit(c: Job, dest: array<byte>, table: array<nat>, maxOutputSize: nat, limited: bool, op0: nat, anchor: nat,
                   hit: nat, match0: nat, ghost ss0: seq<Sequence>, ghost first: seq<byte>, ghost tail0: Tail, ghost plan: Plan)
    returns (end: ChainEnd, ip: nat, op: nat, ghost ss: seq<Sequence>, ghost tail: Tail, ghost written: nat, ghost until: nat)
    requires c.Valid() && Emitted(dest[..], c, op0, anchor, ss0, c.Total()) && StoreLimit(c.size, limited, maxOutputSize) <= dest.Length
    requires anchor <= hit < c.MfLimit() && IsMatch(c, hit, match0) && TableBelow(table[..], c, hit + 1)
    requires IsTailOf(tail0, ss0, op0, c.size) && (tail0.Untested? ==> tail0.next == 0)
    requires limited ==> Left(dest[..], first, maxOutputSize, tail0, 0)
    requires PlannedHit(c, plan, ss0, table[..], anchor, hit, match0)
    modifies dest, table
    ensures end == NoRoom ==> TooLong(c, plan, maxOutputSize)
    ensures end == EndOfInput ==> plan == Plan(ss, ip)
    ensures end == Resume ==> PlannedFrom(c, plan, ss, table[..], ip, ip + 1)
    ensures forall i :: StoreLimit(c.size, limited, maxOutputSize) <= i < dest.Length ==> dest[i] == old(dest[i])
    ensures end == NoRoom ==> limited && maxOutputSize < CompressBound(c.size)
    ensures Emitted(dest[..], c, written, until, ss, c.Total()) && IsTailOf(tail, ss, written, c.size)
    ensures limited ==> Left(dest[..], first, maxOutputSize, tail, 0)
    ensures AllEqual(c) && anchor == c.start && hit == c.start + 1 && op0 == 0 && tail0 == Tested ==>
              end != Resume && (limited ==> tail == EqualTail(c.size, maxOutputSize))
    ensures end != NoRoom ==> tail.Untested? && tail.next == 0 && hit < ip && ss != [] && written == op && until == ip
    ensures end != NoRoom ==> op0 < op && forall i :: op + 6 <= i < dest.Length ==> dest[i] == old(dest[i])
    ensures end == Resume ==> ip <= c.MfLimit() && TableBelow(table[..], c, ip + 1)
    ensures end != Resume ==> TableBelow(table[..], c, c.End() + 1)
  {
    hide Emitted, IsMatch, AtMatch, Agree, CompressBound, TableBelow, StoreLimit, Left, IsTailOf, AllEqual, GoesToEnd, PlannedAt, PlannedFrom, PlannedHit, TooLong, CaughtUp;
    ghost var limit := StoreLimit(c.size, limited, maxOutputSize);
    var ok, match_;
    ok, ip, match_, op := EncodePending(c, dest, maxOutputSize, limited, op0, anchor, hit, match0, ss0);
    HitCaughtUp(c, plan, ss0, table[..], anchor, hit, match0, ip, match_);
    if !ok {
      LiteralsTooLong(dest[..], c, plan, ss0, table[..], op0, anchor, ip, match_, maxOutputSize);
      TableBelowMonotone(table[..], c, hit + 1, c.End() + 1);
      return NoRoom, ip, op, ss0, tail0, op0, anchor;
    }
    if limited {
      TailTested(dest[..], old(dest[..]), first, maxOutputSize, tail0, ss0, op0, c.size);
    }
    if AllEqual(c) && hit == c.start + 1 {
      AtMatchIsMatch(dest[..], c, limit, op0, op, anchor, ip, match_, hit - ip, ss0);
      EqualGoesToEnd(c, ip, match_);
    }
    ghost var out := dest[..];
    end, ip, op, ss, tail, written, until := EncodeMatches(c, dest, table, maxOutputSize, limited, op0, op, anchor, ip, match_, hit - ip, ss0, plan);
    if limited {
      LeftFrom(dest[..], out, first, maxOutputSize, tail);
    }
  }

  /** The main loop: search, catch up, literals, then matches; until the search gives up, a match ends
      past the limit, or the output is full. */
  method EncodeSequences(c: Job, dest: array<byte>, table: array<nat>, maxOutputSize: nat, limited: bool)
    returns (ok: bool, anchor: nat, op: nat, ghost ss: seq<Sequence>, ghost tail: Tail, ghost written: nat, ghost until: nat)
    requires c.Valid() && c.size > MFLIMIT && StoreLimit(c.size, limited, maxOutputSize) <= dest.Length
    requires TableBelow(table[..], c, c.start + 1)
    modifies dest, table
    ensures TableBelow(table[..], c, c.End() + 1)
    ensures forall i :: StoreLimit(c.size, limited, maxOutputSize) <= i < dest.Length ==> dest[i] == old(dest[i])
    ensures |old(table[..])| == TableSize(c.table)
    ensures if ok then PlanOf(c, old(table[..])) == Plan(ss, anchor) else TooLong(c, PlanOf(c, old(table[..])), maxOutputSize)
    ensures !ok ==> limited && maxOutputSize < CompressBound(c.size)
    ensures Emitted(dest[..], c, written, until, ss, c.Total()) && IsTailOf(tail, ss, written, c.size)
    ensures limited ==> Left(dest[..], old(dest[..]), maxOutputSize, tail, 0)
    ensures limited && AllEqual(c) ==> tail == EqualTail(c.size, maxOutputSize)
    ensures ok ==> anchor == until && op == written && (tail.Untested? ==> tail.next == 0)
    ensures ok ==> forall i :: op + Slack(ss) <= i < dest.Length ==> dest[i] == old(dest[i])
  {
    hide Emitted, IsMatch, AtMatch, Agree, CompressBound, TableBelow, StoreLimit, Left, IsTailOf, AllEqual, GoesToEnd, HashPosition, FirstAccepted;
    hide PlannedHit, PlannedFrom, PlanFrom, TooLong, Probed;
    TableBelowLength(table[..], c, c.start + 1);
    ghost var plan := PlanOf(c, table[..]);
    ghost var limit := StoreLimit(c.size, limited, maxOutputSize);
    anchor, op, ss, tail := c.start, 0, [], Tested;
    written, until := op, anchor;
    EmittedNothing(dest[..], c, c.Total());
    LeftNothing(dest[..], dest[..], maxOutputSize);
    NoTail(ss, op, c.size);
    PutPosition(c, table, c.start, c.start + 1);
    var ip := c.start + 1;
    var forwardH: nat := HashPosition(c.m, ip, c.table);
    PlanBegins(c, plan, table[..], c.start, ip);
    while true
      invariant Emitted(dest[..], c, op, anchor, ss, c.Total()) && written == op && until == anchor
      invariant anchor <= ip && c.start < ip <= c.MfLimit() + 1
      invariant TableBelow(table[..], c, ip) && forwardH == HashPosition(c.m, ip, c.table)
      invariant PlannedFrom(c, plan, ss, table[..], anchor, ip)
      invariant forall i :: op + Slack(ss) <= i < dest.Length ==> dest[i] == old(dest[i])
      invariant forall i :: limit <= i < dest.Length ==> dest[i] == old(dest[i])
      invariant limited ==> Left(dest[..], old(dest[..]), maxOutputSize, tail, 0)
      invariant IsTailOf(tail, ss, op, c.size) && (tail.Untested? ==> tail.next == 0)
      invariant AllEqual(c) ==> ip == c.start + 1 && anchor == c.start && op == 0 && tail == Tested
      decreases c.End() - ip
    {
      TableBelowLength(table[..], c, ip);
      if AllEqual(c) {
        EqualAccepts(c, table[..], forwardH);
      }
      var found, match_;
      ghost var probe, before := ip, table[..];
      found, ip, match_ := FindMatch(c, table, ip, forwardH);
      PlanProbed(c, plan, ss, before, anchor, probe, found, ip, match_, table[..]);
      if !found {
        return true, anchor, op, ss, tail, written, until;
      }
      var end;
      end, ip, op, ss, tail, written, until := EncodeHit(c, dest, table, maxOutputSize, limited, op, anchor, ip, match_, ss, old(dest[..]), tail, plan);
      if end == NoRoom {
        return false, anchor, op, ss, tail, written, until;
      }
      anchor := ip;
      if end == EndOfInput {
        return true, anchor, op, ss, tail, written, until;
      }
      ip := ip + 1;
      forwardH := HashPosition(c.m, ip, c.table);
    }
  }

  lemma AtMatchIsMatch(out: seq<byte>, c: Job, limit: nat, t: nat, op: nat, anchor: nat, ip: nat, match_: nat, reach: nat,
                       ss: seq<Sequence>)
    requires AtMatch(out, c, limit, t, op, anchor, ip, match_, reach, ss)
    ensures IsMatch(c, ip, match_) && op == t + 1 + (ip - anchor + 240) / 255 + (ip - anchor)
  {
  }

  lemma TableBelowLength(table: seq<nat>, c: Job, ip: nat)
    requires TableBelow(table, c, ip)
    ensures |table| == TableSize(c.table)
  {
  }

  /** LZ4_compress_generic with acceleration 1.  With limited output a result of 0 means the block did
      not fit, which cannot happen when the limit is at least the documented bound; otherwise 0 means
      the input is too large.  A positive result is the length of a block that stands for the input
      after its history, and nothing past it has been disturbed.  No store, kept or not, lies past
      `StoreLimit`; at and past the limit lies exactly the tail, whose last match ends the sequences
      `ss` that stand for the input up to `until`. */
  method CompressGeneric(m: seq<byte>, start: nat, size: nat, dest: array<byte>, maxOutputSize: nat, limited: bool,
                         t: TableType, dict: Directive, dictSmall: bool, table: array<nat>,
                         currentOffset: nat, dictSize: nat)
    returns (r: nat, ghost tail: Tail, ghost ss: seq<Sequence>, ghost until: nat)
    requires start + size <= |m| && dictSize <= start && StoreLimit(size, limited, maxOutputSize) <= dest.Length
    requires dict == UsingExtDict ==> dictSize == 0 && currentOffset == 0
    requires size <= MAX_INPUT_SIZE && (t == ByU16 ==> size < LIMIT_64K) ==>
               MakeJob(m, start, size, t, dict, dictSmall, currentOffset, dictSize).Valid()
    requires TableBelow(table[..], MakeJob(m, start, size, t, dict, dictSmall, currentOffset, dictSize), start + 1)
    modifies dest, table
    ensures TableBelow(table[..], MakeJob(m, start, size, t, dict, dictSmall, currentOffset, dictSize), start + size + 1)
    ensures r == 0 ==> || size > MAX_INPUT_SIZE || (t == ByU16 && size >= LIMIT_64K)
                       || (limited && maxOutputSize < CompressBound(size))
    ensures r > 0 ==> size <= MAX_INPUT_SIZE && r <= size + size / 255 + 2 && (limited ==> r <= maxOutputSize)
    ensures size <= MAX_INPUT_SIZE && (t == ByU16 ==> size < LIMIT_64K) ==>
              Gives(r, dest[..], MakeJob(m, start, size, t, dict, dictSmall, currentOffset, dictSize), old(table[..]), maxOutputSize, limited)
    ensures r > 0 ==> var low := MakeJob(m, start, size, t, dict, dictSmall, currentOffset, dictSize).low;
                      IsBlockFor(dest[..r], m[low..start], m[start..start + size])
    ensures size > MAX_INPUT_SIZE ==> dest[..] == old(dest[..])
    ensures r > 0 ==> forall i :: r <= i < dest.Length ==> dest[i] == old(dest[i])
    ensures r <= StoreLimit(size, limited, maxOutputSize)
    ensures forall i :: StoreLimit(size, limited, maxOutputSize) <= i < dest.Length ==> dest[i] == old(dest[i])
    ensures limited ==> Left(dest[..], old(dest[..]), maxOutputSize, tail, 0)
    ensures limited && r > 0 ==> Keeps(tail, maxOutputSize)
    ensures var low := MakeJob(m, start, size, t, dict, dictSmall, currentOffset, dictSize).low;
            IsRun(tail, ss, dest[..], m, low, start, until, size)
    ensures limited && size < 134655 ==> forall i :: maxOutputSize <= i < dest.Length ==> dest[i] == old(dest[i])
    ensures limited && size <= MAX_INPUT_SIZE && (t == ByU16 ==> size < LIMIT_64K)
            && AllEqual(MakeJob(m, start, size, t, dict, dictSmall, currentOffset, dictSize)) ==>
              tail == EqualTail(size, maxOutputSize)
  {
    hide Emitted, CompressBound, TableBelow, IsBlockFor, StoreLimit, Left, AllEqual, IsTailOf, IsRun, Keeps, Gives, MakeJob;
    var c := MakeJob(m, start, size, t, dict, dictSmall, currentOffset, dictSize);
    JobParts(m, start, size, t, dict, dictSmall, currentOffset, dictSize);
    TableBelowMonotone(table[..], c, start + 1, start + size + 1);
    TableBelowLength(table[..], c, start + 1);
    ss, tail, until := [], Tested, start;
    LeftNothing(dest[..], dest[..], maxOutputSize);
    NoRun(dest[..], m, c.low, start, size);
    if size > MAX_INPUT_SIZE {
      return 0, tail, ss, until;
    }
    if t == ByU16 && size >= LIMIT_64K {
      return 0, tail, ss, until;
    }
    r, tail, ss, until := CompressJob(c, dest, table, maxOutputSize, limited);
  }

  lemma JobParts(m: seq<byte>, start: nat, size: nat, t: TableType, dict: Directive, dictSmall: bool, currentOffset: nat, dictSize: nat)
    requires dictSize <= start
    ensures var c := MakeJob(m, start, size, t, dict, dictSmall, currentOffset, dictSize);
            c.m == m && c.start == start && c.size == size && c.table == t && c.low <= start
  {
  }

  /** The planned block is the result if it fits; there is none otherwise. */
  ghost predicate Gives(r: nat, out: seq<byte>, c: Job, table: seq<nat>, maxOutputSize: nat, limited: bool) {
    && Shaped(c, table, c.start, c.start)
    && var plan := PlanOf(c, table);
       && r == (if limited && PlanSize(c, plan) > maxOutputSize then 0 else PlanSize(c, plan))
       && (r > 0 ==> r <= |out| && Represents(PlanBlock(c, plan), out[..r], c.m[c.low..c.start], c.m[c.start..c.End()]))
  }

  /** The same once the input is not refused. */
  method CompressJob(c: Job, dest: array<byte>, table: array<nat>, maxOutputSize: nat, limited: bool)
    returns (r: nat, ghost tail: Tail, ghost ss: seq<Sequence>, ghost until: nat)
    requires c.Valid() && TableBelow(table[..], c, c.start + 1) && StoreLimit(c.size, limited, maxOutputSize) <= dest.Length
    modifies dest, table
    ensures TableBelow(table[..], c, c.End() + 1)
    ensures Gives(r, dest[..], c, old(table[..]), maxOutputSize, limited)
    ensures r == 0 ==> limited && maxOutputSize < CompressBound(c.size)
    ensures r > 0 ==> r <= c.size + c.size / 255 + 2 && (limited ==> r <= maxOutputSize)
    ensures r > 0 ==> IsBlockFor(dest[..r], c.m[c.low..c.start], c.m[c.start..c.End()])
    ensures r > 0 ==> forall i :: r <= i < dest.Length ==> dest[i] == old(dest[i])
    ensures r <= StoreLimit(c.size, limited, maxOutputSize)
    ensures forall i :: StoreLimit(c.size, limited, maxOutputSize) <= i < dest.Length ==> dest[i] == old(dest[i])
    ensures limited ==> Left(dest[..], old(dest[..]), maxOutputSize, tail, 0)
    ensures limited && r > 0 ==> Keeps(tail, maxOutputSize)
    ensures IsRun(tail, ss, dest[..], c.m, c.low, c.start, until, c.size)
    ensures limited && c.size < 134655 ==> forall i :: maxOutputSize <= i < dest.Length ==> dest[i] == old(dest[i])
    ensures limited && AllEqual(c) ==> tail == EqualTail(c.size, maxOutputSize)
  {
    hide Emitted, CompressBound, TableBelow, IsBlockFor, StoreLimit, Left, AllEqual, IsTailOf, IsRun, Keeps, PlanFrom;
    hide Represents, EncodeAll, HashPosition, EqualTail, Gives, PlanOf, TooLong;
    TableBelowMonotone(table[..], c, c.start + 1, c.End() + 1);
    TableBelowLength(table[..], c, c.start + 1);
    ShortPlan(c, table[..]);
    ss, tail, until := [], Tested, c.start;
    LeftNothing(dest[..], dest[..], maxOutputSize);
    NoTail(ss, 0, c.size);
    var anchor, op := c.start, 0;
    ghost var written := 0;
    EmittedNothing(dest[..], c, c.Total());
    if c.size >= MFLIMIT + 1 {
      var ok;
      ok, anchor, op, ss, tail, written, until := EncodeSequences(c, dest, table, maxOutputSize, limited);
      EmittedIsRun(dest[..], c, written, until, ss, tail);
      if !ok {
        if limited && c.size < 134655 {
          ShortInputKeeps(dest[..], old(dest[..]), maxOutputSize, tail, ss, written, c.size);
        }
        NothingGiven(dest[..], c, old(table[..]), maxOutputSize, limited);
        return 0, tail, ss, until;
      }
    } else if AllEqual(c) {
      EqualIsLong(c);
    }
    ghost var out := dest[..];
    r := FinishBlock(c, dest, maxOutputSize, limited, op, anchor, ss);
    PlanGiven(r, dest[..], c, old(table[..]), maxOutputSize, limited, ss, anchor);
    EmittedFrame(out, dest[..], c, op, anchor, ss, c.Total());
    EmittedIsRun(dest[..], c, op, anchor, ss, tail);
    if limited {
      LeftStays(dest[..], out, old(dest[..]), maxOutputSize, tail);
      if r > 0 {
        TailKept(tail, ss, op, c.size, r, maxOutputSize);
      }
      if c.size < 134655 {
        ShortInputKeeps(dest[..], old(dest[..]), maxOutputSize, tail, ss, op, c.size);
      }
    }
  }

  lemma ShortPlan(c: Job, table: seq<nat>)
    requires c.Valid() && |table| == TableSize(c.table)
    ensures c.size < MFLIMIT + 1 ==> PlanOf(c, table) == Plan([], c.start)
  {
  }

  lemma NothingGiven(out: seq<byte>, c: Job, table: seq<nat>, maxOutputSize: nat, limited: bool)
    requires Shaped(c, table, c.start, c.start) && limited && TooLong(c, PlanOf(c, table), maxOutputSize)
    ensures Gives(0, out, c, table, maxOutputSize, limited)
  {
    hide PlanOf, PlanSize, Represents;
  }

  lemma PlanGiven(r: nat, out: seq<byte>, c: Job, table: seq<nat>, maxOutputSize: nat, limited: bool, ss: seq<Sequence>, anchor: nat)
    requires Shaped(c, table, c.start, c.start) && PlanOf(c, table) == Plan(ss, anchor) && LongMatches(ss) && anchor <= c.End()
    requires var n := PlanSize(c, Plan(ss, anchor)); r == if limited && n > maxOutputSize then 0 else n
    requires r > 0 ==> r <= |out| && Represents(PlanBlock(c, Plan(ss, anchor)), out[..r], Hist(c), c.m[c.start..c.End()])
    ensures Gives(r, out, c, table, maxOutputSize, limited)
  {
    hide PlanOf, PlanSize, Represents;
  }

  /** The first bytes of the output are the sequences `ss`, for the input up to `until`, and `tail` is
      theirs. */
  ghost predicate IsRun(tail: Tail, ss: seq<Sequence>, out: seq<byte>, m: seq<byte>, low: nat, start: nat, until: nat, size: nat) {
    && low <= start <= until <= start + size <= |m| && LongMatches(ss) && |EncodeAll(ss)| <= |out|
    && out[..|EncodeAll(ss)|] == EncodeAll(ss) && ExpandAll(m[low..start], ss) == m[low..until]
    && IsTailOf(tail, ss, |EncodeAll(ss)|, size)
  }

  lemma NoRun(out: seq<byte>, m: seq<byte>, low: nat, start: nat, size: nat)
    requires low <= start && start + size <= |m|
    ensures IsRun(Tested, [], out, m, low, start, start, size)
  {
  }

  lemma EmittedIsRun(out: seq<byte>, c: Job, op: nat, anchor: nat, ss: seq<Sequence>, tail: Tail)
    requires c.Valid() && Emitted(out, c, op, anchor, ss, c.Total()) && IsTailOf(tail, ss, op, c.size)
    ensures IsRun(tail, ss, out, c.m, c.low, c.start, anchor, c.size)
  {
    hide IsTailOf, RestrictedAll;
  }

  lemma EqualIsLong(c: Job)
    requires AllEqual(c)
    ensures c.size >= MFLIMIT + 1
  {
  }
}
