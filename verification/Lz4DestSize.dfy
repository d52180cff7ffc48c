/** LZ4_compress_destSize_generic: fills a given output size with as much input as it can.  Matches may
    be cut short and the last literals shrunk; what is proved is that the result still decodes, with
    exactly the consumed input size as capacity, and that no store leaves the target. */
module Lz4DestSize {
  import opened Lz4Block
  import opened Lz4Matcher
  import opened Lz4Writer
  import opened Lz4Encoder
  import opened Lz4Plan

  /** What must still fit after the last sequence: `total` is where the parsing restrictions of the
      sequences so far end, and a token with that many literals fits the target. */
  ghost predicate RoomLeft(c: Job, ss: seq<Sequence>, total: nat, anchor: nat, op: nat, target: nat) {
    && c.Valid() && c.start <= anchor
    && (ss != [] ==>
          && anchor - c.low + LASTLITERALS <= total <= anchor - c.low + 8
          && total <= c.Total()
          && op + 1 + (total - (anchor - c.low)) <= target)
    && (ss == [] ==> op == 0 && total == 0)
  }

  ghost predicate AtMatchTo(out: seq<byte>, c: Job, t: nat, op: nat, anchor: nat, ip: nat, match_: nat, reach: nat,
                            ss: seq<Sequence>, total: nat, target: nat) {
    && c.Valid() && Emitted(out, c, t, anchor, ss, total) && target <= |out|
    && total <= anchor - c.low + 8
    && anchor <= ip && ip + reach <= c.MfLimit()
    && IsMatch(c, ip, match_) && Agree(c.m, ip, match_, reach + MINMATCH)
    && op == t + 1 + (ip - anchor + 240) / 255 + (ip - anchor)
    && op + 2 + 8 + 1 <= target
    && Pending(out, t, op, c.m[anchor..ip])
  }

  /** The cut: the match code that makes the sequence end exactly 6 bytes before the target. */
  lemma CutFits(op: nat, mc: nat, target: nat)
    requires op + 9 <= target && op + (mc + 240) / 255 > target - (LASTLITERALS + 1)
    ensures var cut := 14 + (target - (LASTLITERALS + 1) - op) * 255;
            14 <= cut <= mc && op + (cut + 240) / 255 == target - (LASTLITERALS + 1)
  {
  }

  /** The match code to write at `op`: the common length, or what the target allows. */
  method ChooseLength(c: Job, ip: nat, match_: nat, op: nat, target: nat, ghost reach: nat) returns (mc: nat)
    requires c.Valid() && IsMatch(c, ip, match_) && ip + reach <= c.MfLimit() && Agree(c.m, ip, match_, reach + MINMATCH)
    requires op + 9 <= target
    ensures Agree(c.m, ip, match_, mc + MINMATCH) && ip + MINMATCH + mc + LASTLITERALS <= c.End()
    ensures op + (mc + 240) / 255 + LASTLITERALS + 1 <= target
    ensures op + (mc + 240) / 255 + 12 <= target ==> reach <= mc
    ensures match_ < ip && ip <= c.MfLimit()
    ensures var full := CommonLength(c.m, ip + MINMATCH, match_ + MINMATCH, c.End() - LASTLITERALS);
            op + (full + 240) / 255 + LASTLITERALS + 1 <= target ==> mc == full
  {
    hide Agree, IsMatch, CommonLength;
    var matchLimit := c.End() - LASTLITERALS;
    var oMaxMatch := target - (LASTLITERALS + 1);
    IsMatchBounds(c, ip, match_);
    mc := Count(c.m, ip + MINMATCH, match_ + MINMATCH, matchLimit);
    LongerAgreement(c, ip, match_, reach, matchLimit, mc);
    CommonLengthBound(c, ip + MINMATCH, match_ + MINMATCH, matchLimit, mc);
    CommonLengthUnique(c.m, ip + MINMATCH, match_ + MINMATCH, matchLimit, mc);
    if op + (mc + 240) / 255 > oMaxMatch {
      CutFits(op, mc, target);
      ghost var full := mc;
      mc := 14 + (oMaxMatch - op) * 255;
      ShorterAgreement(c.m, ip, match_, full + MINMATCH, mc + MINMATCH);
    }
  }

  /** One match, cut short if its length would not fit; then fewer than 12 bytes are left and the block
      must end. */
  method EncodeOneMatchTo(c: Job, dest: array<byte>, target: nat, t: nat, op0: nat, ghost anchor: nat, ip0: nat, match_: nat,
                          ghost reach: nat, ghost ss: seq<Sequence>, ghost total: nat, ghost plan: Plan, ghost table: seq<nat>)
    returns (ip: nat, op: nat, ghost ss': seq<Sequence>, ghost total': nat)
    requires AtMatchTo(dest[..], c, t, op0, anchor, ip0, match_, reach, ss, total, target) && target <= dest.Length
    requires Fitting(c, plan, target) ==> PlannedAt(c, plan, ss, table, anchor, ip0, match_)
    modifies dest
    ensures ip0 + MINMATCH <= ip && ss' != []
    ensures c.Valid() && Emitted(dest[..], c, op, ip, ss', total') && RoomLeft(c, ss', total', ip, op, target)
    ensures op + 12 <= target ==> ip0 + reach + MINMATCH <= ip
    ensures Fitting(c, plan, target) ==> PlannedNext(c, plan, ss', table, ip)
    ensures FirstRoom(ss, target) ==> FirstRoom(ss', target)
    ensures forall i :: target <= i < dest.Length ==> dest[i] == old(dest[i])
  {
    hide Emitted, Agree, IsMatch, IsCommonLength, EncodeSequence, Pending, Le16, ScratchEnd, RoomLeft, Fitting, PlannedAt, PlannedNext, MatchAt, EncodeAll, CommonLength;
    ip, op := ip0, op0;
    AtMatchToBounds(dest[..], c, t, op, anchor, ip, match_, reach, ss, total, target);
    EmittedCount(dest[..], c, t, anchor, ss, total);
    IsMatchBounds(c, ip, match_);
    WriteLe16(dest, op, ip - match_);
    PendingFrame(old(dest[..]), dest[..], t, op, c.m[anchor..ip]);
    var mc := ChooseLength(c, ip, match_, op + 2, target, reach);
    op := EncodeMatch(dest, t, op, ip - match_, mc, false, c.m[anchor..ip]);
    EmittedFrame(old(dest[..]), dest[..], c, t, anchor, ss, total);
    total' := ip + MINMATCH + mc - c.low + if mc >= 3 then LASTLITERALS else 8 - mc;
    EmitSequence(dest[..], c, t, op, anchor, ip, match_, mc, ss, total, total');
    ss' := ss + [Sequence(c.m[anchor..ip], ip - match_, mc + MINMATCH)];
    RoomAfter(c, ss', total', ip, mc, op0, op, target);
    if Fitting(c, plan, target) {
      WholeTurn(c, plan, ss, table, anchor, ip, match_, t, mc, target, ss');
    }
    ip := ip + MINMATCH + mc;
  }

  /** A first match leaves room for a second one. */
  predicate FirstRoom(ss: seq<Sequence>, target: nat) {
    ss != [] ==> 12 + |ss[0].literals| <= target
  }

  /** The planned block fits the target, with three bytes to spare for the tests on the way. */
  ghost predicate Fitting(c: Job, plan: Plan, target: nat) {
    c.Valid() && plan.anchor <= c.End() && LongMatches(plan.ss) && PlanSize(c, plan) + 3 <= target
  }

  lemma EmittedCount(out: seq<byte>, c: Job, op: nat, anchor: nat, ss: seq<Sequence>, total: nat)
    requires Emitted(out, c, op, anchor, ss, total)
    ensures LongMatches(ss) && op == |EncodeAll(ss)|
  {
    hide RestrictedAll, ExpandAll;
    assert |out[..op]| == op;
  }

  /** Then no match is cut. */
  lemma WholeMatch(c: Job, plan: Plan, before: seq<Sequence>, table: seq<nat>, anchor: nat, ip: nat, match_: nat, t: nat, mc: nat,
                   target: nat)
    requires Fitting(c, plan, target) && PlannedAt(c, plan, before, table, anchor, ip, match_)
    requires LongMatches(before) && t == |EncodeAll(before)| && c.start <= anchor <= ip <= c.MfLimit() && match_ < ip
    requires var full := CommonLength(c.m, ip + MINMATCH, match_ + MINMATCH, c.End() - LASTLITERALS);
             t + 1 + (ip - anchor + 240) / 255 + (ip - anchor) + 2 + (full + 240) / 255 + LASTLITERALS + 1 <= target ==> mc == full
    ensures MatchAt(c, anchor, ip, match_) == Sequence(c.m[anchor..ip], ip - match_, mc + MINMATCH)
  {
    hide EncodeAll, CommonLength, MatchAt, PlannedAt, Fitting;
    PlannedNeeds(c, plan, before, table, anchor, ip, match_, t, target);
    MatchAtIs(c, anchor, ip, match_);
  }

  lemma WholeTurn(c: Job, plan: Plan, before: seq<Sequence>, table: seq<nat>, anchor: nat, ip: nat, match_: nat, t: nat, mc: nat,
                  target: nat, ss: seq<Sequence>)
    requires Fitting(c, plan, target) && PlannedAt(c, plan, before, table, anchor, ip, match_)
    requires LongMatches(before) && t == |EncodeAll(before)| && c.start <= anchor <= ip <= c.MfLimit() && match_ < ip
    requires var full := CommonLength(c.m, ip + MINMATCH, match_ + MINMATCH, c.End() - LASTLITERALS);
             t + 1 + (ip - anchor + 240) / 255 + (ip - anchor) + 2 + (full + 240) / 255 + LASTLITERALS + 1 <= target ==> mc == full
    requires ss == before + [Sequence(c.m[anchor..ip], ip - match_, mc + MINMATCH)]
    ensures PlannedNext(c, plan, ss, table, ip + MINMATCH + mc)
  {
    hide EncodeAll, CommonLength, MatchAt, PlannedAt, Fitting, PlannedNext;
    WholeMatch(c, plan, before, table, anchor, ip, match_, t, mc, target);
    PlanGoesOn(c, plan, before, table, anchor, ip, match_, ss);
  }

  lemma MatchAtIs(c: Job, anchor: nat, ip: nat, match_: nat)
    requires c.Valid() && c.start <= anchor <= ip <= c.MfLimit() && match_ < ip
    ensures MatchAt(c, anchor, ip, match_)
         == Sequence(c.m[anchor..ip], ip - match_,
                     CommonLength(c.m, ip + MINMATCH, match_ + MINMATCH, c.End() - LASTLITERALS) + MINMATCH)
  {
  }

  lemma PlannedNeeds(c: Job, plan: Plan, before: seq<Sequence>, table: seq<nat>, anchor: nat, ip: nat, match_: nat, t: nat, target: nat)
    requires Fitting(c, plan, target) && PlannedAt(c, plan, before, table, anchor, ip, match_)
    requires LongMatches(before) && t == |EncodeAll(before)|
    ensures c.Valid() && c.start <= anchor <= ip <= c.MfLimit() && match_ < ip
    ensures t + 1 + (ip - anchor + 240) / 255 + (ip - anchor) + 2 + (MatchAt(c, anchor, ip, match_).matchLength - MINMATCH + 240) / 255
              + 1 + LASTLITERALS + 3 <= target
  {
    hide EncodeAll, Chain, AfterChain, MatchAt, PlanSize, Behind;
    TestsNeed(c, plan, before, table, anchor, ip, match_);
  }

  /** Nor is anything given up before the literals, */
  lemma LiteralsGo(c: Job, plan: Plan, before: seq<Sequence>, table: seq<nat>, anchor: nat, ip: nat, match_: nat, t: nat, target: nat)
    requires Fitting(c, plan, target) && PlannedAt(c, plan, before, table, anchor, ip, match_)
    requires LongMatches(before) && t == |EncodeAll(before)|
    ensures t + 1 + (ip - anchor + 240) / 255 + (ip - anchor) <= target - 2 - 8 - 1
  {
    hide EncodeAll, MatchAt, PlannedAt, Fitting;
    PlannedNeeds(c, plan, before, table, anchor, ip, match_, t, target);
  }

  /** nor behind a match. */
  lemma MatchesGo(c: Job, plan: Plan, ss: seq<Sequence>, table: seq<nat>, ip: nat, op: nat, target: nat)
    requires Fitting(c, plan, target) && PlannedNext(c, plan, ss, table, ip) && ip <= c.MfLimit()
    requires LongMatches(ss) && op == |EncodeAll(ss)|
    ensures op + 12 <= target
  {
    hide EncodeAll, Chain, AfterChain, PlanSize, PlanFrom, Recorded, Accepts, HashPosition;
    var (candidate, table') := Recorded(c, table, ip);
    if Takes(c, ip, candidate, true) {
      TestsNeed(c, plan, ss, table', ip, ip, candidate);
    } else {
      SearchNeeds(c, plan, ss, table', ip);
    }
  }

  /** Behind a match there is room for the literals the restrictions still demand. */
  lemma RoomAfter(c: Job, ss: seq<Sequence>, total: nat, ip: nat, mc: nat, op0: nat, op: nat, target: nat)
    requires c.Valid() && c.start <= ip <= c.MfLimit() && ss != [] && ip + MINMATCH + mc + LASTLITERALS <= c.End()
    requires total == ip + MINMATCH + mc - c.low + if mc >= 3 then LASTLITERALS else 8 - mc
    requires op0 + 2 + 8 + 1 <= target && op == op0 + 2 + (mc + 240) / 255 && op + LASTLITERALS + 1 <= target
    ensures RoomLeft(c, ss, total, ip + MINMATCH + mc, op, target)
  {
  }

  lemma CommonLengthBound(c: Job, p: nat, q: nat, limit: nat, r: nat)
    requires IsCommonLength(c.m, p, q, limit, r)
    ensures p + r <= limit
  {
  }

  lemma ShorterAgreement(m: seq<byte>, p: nat, q: nat, n: nat, shorter: nat)
    requires Agree(m, p, q, n) && shorter <= n
    ensures Agree(m, p, q, shorter)
  {
  }

  /** The loop through _next_match, until the input or the target is used up, or no match follows. */
  method EncodeMatchesTo(c: Job, dest: array<byte>, table: array<nat>, target: nat, t0: nat, op0: nat, ghost anchor0: nat,
                         ip0: nat, match0: nat, ghost reach0: nat, ghost ss0: seq<Sequence>, ghost total0: nat, ghost plan: Plan)
    returns (done: bool, ip: nat, op: nat, ghost ss: seq<Sequence>, ghost total: nat)
    requires AtMatchTo(dest[..], c, t0, op0, anchor0, ip0, match0, reach0, ss0, total0, target) && target <= dest.Length
    requires TableBelow(table[..], c, ip0 + reach0 + 1)
    requires Fitting(c, plan, target) ==> PlannedAt(c, plan, ss0, table[..], anchor0, ip0, match0)
    modifies dest, table
    ensures Fitting(c, plan, target) ==> if done then plan == Plan(ss, ip) else PlannedFrom(c, plan, ss, table[..], ip, ip + 1)
    ensures FirstRoom(ss0, target) ==> FirstRoom(ss, target)
    ensures c.Valid() && Emitted(dest[..], c, op, ip, ss, total) && RoomLeft(c, ss, total, ip, op, target)
    ensures !done ==> ip0 + reach0 < ip <= c.MfLimit() && TableBelow(table[..], c, ip + 1) && op + 12 <= target
    ensures forall i :: target <= i < dest.Length ==> dest[i] == old(dest[i])
  {
    hide AtMatchTo, Emitted, IsMatch, Agree, TableBelow, Fitting, PlannedAt, PlannedFrom, PlannedNext, HashPosition, Accepts, Takes, RoomLeft, FirstRoom;
    var t: nat, match_: nat := t0, match0;
    ghost var anchor, reach, before, totalBefore := anchor0, reach0, ss0, total0;
    op, ip := op0, ip0;
    while true
      invariant AtMatchTo(dest[..], c, t, op, anchor, ip, match_, reach, before, totalBefore, target)
      invariant TableBelow(table[..], c, ip + reach + 1)
      invariant ip0 + reach0 <= ip + reach
      invariant Fitting(c, plan, target) ==> PlannedAt(c, plan, before, table[..], anchor, ip, match_)
      invariant FirstRoom(ss0, target) ==> FirstRoom(before, target)
      invariant forall i :: target <= i < dest.Length ==> dest[i] == old(dest[i])
      decreases c.End() - ip
    {
      AtMatchToBounds(dest[..], c, t, op, anchor, ip, match_, reach, before, totalBefore, target);
      ghost var ipAtTurn := ip;
      ip, op, ss, total := EncodeOneMatchTo(c, dest, target, t, op, anchor, ip, match_, reach, before, totalBefore, plan, table[..]);
      EmittedCount(dest[..], c, op, ip, ss, total);
      if Fitting(c, plan, target) {
        if ip > c.MfLimit() {
          PlanEnds(c, plan, ss, table[..], ip);
        } else {
          MatchesGo(c, plan, ss, table[..], ip, op, target);
        }
      }
      if ip > c.MfLimit() || op + 12 > target {
        return true, ip, op, ss, total;
      }
      TableBelowMonotone(table[..], c, ipAtTurn + reach + 1, ip);
      TableBelowLength(table[..], c, ip);
      ghost var recorded := table[..];
      PutPosition(c, table, ip - 2, ip);
      var candidate := NextCandidate(c, table, ip);
      TakesAccepted(c, ip, candidate, true);
      if Fitting(c, plan, target) {
        PlanRecorded(c, plan, ss, recorded, ip, candidate, table[..]);
      }
      if !Accepts(c, ip, candidate, true) {
        return false, ip, op, ss, total;
      }
      AcceptedIsMatch(c, ip, candidate, true);
      ghost var out := dest[..];
      t, match_ := op, candidate;
      dest[op] := 0;
      op := op + 1;
      ChainedAtMatchTo(out, dest[..], c, t, ip, match_, ss, total, target);
      anchor, reach, before, totalBefore := ip, 0, ss, total;
    }
  }

  lemma AtMatchToBounds(out: seq<byte>, c: Job, t: nat, op: nat, anchor: nat, ip: nat, match_: nat, reach: nat,
                        ss: seq<Sequence>, total: nat, target: nat)
    requires AtMatchTo(out, c, t, op, anchor, ip, match_, reach, ss, total, target)
    ensures c.Valid() && c.start <= anchor <= ip && ip + reach <= c.MfLimit() && match_ < ip
  {
    hide Pending, Agree;
  }

  lemma ChainedAtMatchTo(out: seq<byte>, out': seq<byte>, c: Job, t: nat, ip: nat, match_: nat, ss: seq<Sequence>,
                         total: nat, target: nat)
    requires c.Valid() && Emitted(out, c, t, ip, ss, total) && RoomLeft(c, ss, total, ip, t, target)
    requires ip <= c.MfLimit() && IsMatch(c, ip, match_) && t + 12 <= target <= |out| == |out'|
    requires out' == out[t := 0]
    ensures AtMatchTo(out', c, t, t + 1, ip, ip, match_, 0, ss, total, target)
  {
    hide Emitted, Pending;
    EmittedFrame(out, out', c, t, ip, ss, total);
    PendingNothing(out', t, c.m[ip..ip]);
  }

  /** From a search hit to _next_match, unless the literals leave too little room for a match. */
  method EncodePendingTo(c: Job, dest: array<byte>, target: nat, op0: nat, anchor: nat, ip0: nat, match0: nat,
                         ghost ss: seq<Sequence>, ghost total: nat)
    returns (ok: bool, ip: nat, match_: nat, op: nat)
    requires c.Valid() && Emitted(dest[..], c, op0, anchor, ss, total) && RoomLeft(c, ss, total, anchor, op0, target)
    requires target <= dest.Length && anchor <= ip0 <= c.MfLimit() && IsMatch(c, ip0, match0)
    modifies dest
    ensures ok ==> ip <= ip0 && AtMatchTo(dest[..], c, op0, op, anchor, ip, match_, ip0 - ip, ss, total, target)
    ensures !ok ==> dest[..] == old(dest[..]) && op == op0 && op0 + 1 + (ip - anchor + 240) / 255 + (ip - anchor) > target - 2 - 8 - 1
    ensures match0 < ip0 && (ip, match_) == CaughtUp(c, anchor, ip0, match0)
    ensures forall i :: target <= i < dest.Length ==> dest[i] == old(dest[i])
  {
    hide Emitted, Agree, Pending, Lz4Reference.CopyEnd, CaughtUp;
    op := op0;
    ip, match_ := CatchUp(c, anchor, ip0, match0);
    var litLength := ip - anchor;
    if op + 1 + (litLength + 240) / 255 + litLength > target - 2 - 8 - 1 {
      return false, ip, match_, op;
    }
    CopyStaysInside(litLength);
    op := EncodeLiterals(dest, op, c.m, anchor, litLength);
    EmittedFrame(old(dest[..]), dest[..], c, op0, anchor, ss, total);
    assert anchor + litLength == ip;
    return true, ip, match_, op;
  }

  /** Whether the shrunk last literals use up `room` bytes behind their token. */
  predicate Fills(room: nat) {
    (room + 240) % 255 >= (room + 240) / 255
  }

  /** The shrunk last literals fit the room left for them.  The length bytes are counted before the
      run is shrunk, so a long run may leave a few bytes unused, one and one more per 65025, and leaves
      none exactly when `Fills` holds. */
  lemma LastFits(room: nat)
    ensures var last := room - (room + 240) / 255;
            && 0 <= last && last + (last + 240) / 255 <= room <= last + (last + 240) / 255 + (room + 240) / 65025 + 1
            && (room < 15 ==> last == room) && (room >= 15 ==> last >= 14)
            && (last + (last + 240) / 255 == room <==> Fills(room))
  {
    var x, y := (room + 240) / 255, (room + 240) % 255;
    assert x / 255 == (room + 240) / 65025;
    assert (room - x + 240) / 255 + x / 255 + 1 >= x;
    assert room - x + 240 == 254 * x + y;
    if y >= x {
      assert 255 * x <= 254 * x + y < 255 * (x + 1);
    } else {
      assert 254 * x + y < 255 * x;
    }
  }

  /** Room for fewer than 15 bytes is always used up. */
  lemma ShortRoomFills(room: nat)
    requires room < 15
    ensures Fills(room)
  {
  }

  method FinishTo(c: Job, dest: array<byte>, target: nat, op0: nat, anchor: nat, ghost ss: seq<Sequence>, ghost total: nat)
    returns (r: nat, end: nat, ghost b: Block)
    requires c.Valid() && Emitted(dest[..], c, op0, anchor, ss, total) && RoomLeft(c, ss, total, anchor, op0, target)
    requires 1 <= target <= dest.Length
    modifies dest
    ensures 1 <= r <= target && anchor <= end <= c.End() && op0 < target
    ensures LongMatches(b.sequences) && LastToken(b) == op0 && Represents(b, dest[..r], Hist(c), c.m[c.start..end])
    ensures c.start <= anchor <= c.End() && b == Block(ss, c.m[anchor..end])
    ensures var need := op0 + 1 + (c.End() - anchor + 240) / 255 + (c.End() - anchor);
            (end == c.End() <==> need <= target) && (need <= target ==> r == need)
    ensures end < c.End() ==> (r == target <==> Fills(target - 1 - op0))
    ensures end < c.End() ==> target <= r + (target + 240) / 65025 + 1
    ensures forall i :: target <= i < dest.Length ==> dest[i] == old(dest[i])
  {
    hide Emitted, EncodeLast, IsBlockFor, Represents, LastToken, Fills;
    EmittedAnchor(dest[..], c, op0, anchor, ss, total);
    var lastRun := c.End() - anchor;
    if op0 + 1 + (lastRun + 240) / 255 + lastRun > target {
      var room := target - op0 - 1;
      LastFits(room);
      lastRun := room - (room + 240) / 255;
    }
    r := EncodeLastLiterals(dest, op0, c.m, anchor, lastRun);
    EmittedFrame(old(dest[..]), dest[..], c, op0, anchor, ss, total);
    b := CompleteBlock(dest[..], c, op0, r, anchor, lastRun, ss, total);
    end := anchor + lastRun;
  }

  lemma EmittedAnchor(out: seq<byte>, c: Job, op: nat, anchor: nat, ss: seq<Sequence>, total: nat)
    requires Emitted(out, c, op, anchor, ss, total)
    ensures c.start <= anchor <= c.End() && op <= |out|
  {
  }

  method EncodeSequencesTo(c: Job, dest: array<byte>, table: array<nat>, target: nat)
    returns (anchor: nat, op: nat, ghost ss: seq<Sequence>, ghost total: nat)
    requires c.Valid() && c.size > MFLIMIT && target <= dest.Length
    requires TableBelow(table[..], c, c.start + 1)
    modifies dest, table
    ensures c.Valid() && Emitted(dest[..], c, op, anchor, ss, total) && RoomLeft(c, ss, total, anchor, op, target)
    ensures Shaped(c, old(table[..]), c.start, c.start)
    ensures Fitting(c, PlanOf(c, old(table[..])), target) ==> PlanOf(c, old(table[..])) == Plan(ss, anchor)
    ensures FirstRoom(ss, target)
    ensures forall i :: target <= i < dest.Length ==> dest[i] == old(dest[i])
  {
    hide Emitted, IsMatch, AtMatchTo, Agree, TableBelow, RoomLeft, Fitting, HashPosition, FirstAccepted, Probed, CaughtUp;
    hide PlannedAt, PlannedHit, PlannedFrom, PlanFrom;
    TableBelowLength(table[..], c, c.start + 1);
    ghost var plan := PlanOf(c, table[..]);
    RoomAtStart(c, target);
    anchor, op, ss, total := c.start, 0, [], 0;
    EmittedNothing(dest[..], c, total);
    PutPosition(c, table, c.start, c.start + 1);
    var ip := c.start + 1;
    var forwardH: nat := HashPosition(c.m, ip, c.table);
    PlanBegins(c, plan, table[..], c.start, ip);
    while true
      invariant Emitted(dest[..], c, op, anchor, ss, total) && RoomLeft(c, ss, total, anchor, op, target)
      invariant anchor <= ip && c.start < ip <= c.MfLimit() + 1
      invariant TableBelow(table[..], c, ip) && forwardH == HashPosition(c.m, ip, c.table)
      invariant Fitting(c, plan, target) ==> PlannedFrom(c, plan, ss, table[..], anchor, ip)
      invariant FirstRoom(ss, target)
      invariant forall i :: target <= i < dest.Length ==> dest[i] == old(dest[i])
      decreases c.End() - ip
    {
      TableBelowLength(table[..], c, ip);
      var found, match_;
      ghost var probe, before := ip, table[..];
      found, ip, match_ := FindMatch(c, table, ip, forwardH);
      if Fitting(c, plan, target) {
        PlanProbed(c, plan, ss, before, anchor, probe, found, ip, match_, table[..]);
      }
      if !found {
        return;
      }
      ghost var hit, match0 := ip, match_;
      EmittedCount(dest[..], c, op, anchor, ss, total);
      var t, ok := op, true;
      ok, ip, match_, op := EncodePendingTo(c, dest, target, op, anchor, ip, match_, ss, total);
      if Fitting(c, plan, target) {
        HitCaughtUp(c, plan, ss, table[..], anchor, hit, match0, ip, match_);
        LiteralsGo(c, plan, ss, table[..], anchor, ip, match_, t, target);
      }
      if !ok {
        return;
      }
      var done;
      done, ip, op, ss, total := EncodeMatchesTo(c, dest, table, target, t, op, anchor, ip, match_, hit - ip, ss, total, plan);
      anchor := ip;
      if done {
        return;
      }
      ip := ip + 1;
      forwardH := HashPosition(c.m, ip, c.table);
    }
  }

  lemma RoomAtStart(c: Job, target: nat)
    requires c.Valid()
    ensures RoomLeft(c, [], 0, c.start, 0, target)
  {
  }

  /** A positive result is a block of at most `target` bytes for the first `consumed` bytes of the
      input.  If the block of the plain compressor fits with three bytes to spare, it is that block, for
      the whole input.  If some input is left over, the target is full up to a handful of bytes, and full
      altogether exactly when the room behind the last token `Fills`.  Nothing past the target is
      touched.  The result is 0 only for the three documented refusals. */
  method CompressDestSizeGeneric(m: seq<byte>, dest: array<byte>, target: nat, t: TableType, table: array<nat>)
    returns (r: nat, consumed: nat, ghost b: Block)
    requires target <= dest.Length
    requires table.Length == TableSize(t) && forall h :: 0 <= h < table.Length ==> table[h] == 0
    modifies dest, table
    ensures r == 0 <==> target < 1 || |m| > MAX_INPUT_SIZE || (t == ByU16 && |m| >= LIMIT_64K)
    ensures r <= target && consumed <= |m|
    ensures r > 0 ==> LongMatches(b.sequences) && Represents(b, dest[..r], [], m[..consumed])
    ensures r == 0 ==> consumed == |m|
    ensures r > 0 ==> FirstRoom(b.sequences, target)
    ensures r > 0 ==> TakesAll(DestSizeJob(m, t), old(table[..]), target, r, consumed, b)
    ensures r > 0 && consumed < |m| ==> LastToken(b) < target && (r == target <==> Fills(target - 1 - LastToken(b)))
    ensures r > 0 && consumed < |m| ==> target <= r + (target + 240) / 65025 + 1
    ensures forall i :: target <= i < dest.Length ==> dest[i] == old(dest[i])
  {
    hide Emitted, Represents, LastToken, Fills, PlanOf, RoomLeft, EncodeAll, PlanSize, Fitting, TakesAll;
    b := Block([], []);
    if target < 1 {
      return 0, |m|, b;
    }
    if |m| > MAX_INPUT_SIZE {
      return 0, |m|, b;
    }
    if t == ByU16 && |m| >= LIMIT_64K {
      return 0, |m|, b;
    }
    var c := DestSizeJob(m, t);
    ShortPlan(c, table[..]);
    RoomAtStart(c, target);
    ghost var plan := PlanOf(c, table[..]);
    var anchor, op := 0, 0;
    ghost var ss, total := [], 0;
    EmittedNothing(dest[..], c, total);
    if |m| >= MFLIMIT + 1 {
      anchor, op, ss, total := EncodeSequencesTo(c, dest, table, target);
    }
    EmittedCount(dest[..], c, op, anchor, ss, total);
    r, consumed, b := FinishTo(c, dest, target, op, anchor, ss, total);
    ItTakesAll(c, old(table[..]), target, r, consumed, b, ss, anchor);
    assert m[0..0] == [] && m[0..consumed] == m[..consumed];
  }

  function DestSizeJob(m: seq<byte>, t: TableType): Job {
    MakeJob(m, 0, |m|, t, NoDict, false, 0, 0)
  }

  /** If the planned block fits with three bytes to spare, it is the result, for the whole input. */
  ghost predicate TakesAll(c: Job, table: seq<nat>, target: nat, r: nat, consumed: nat, b: Block) {
    && Shaped(c, table, c.start, c.start)
    && (Fitting(c, PlanOf(c, table), target) ==>
          r == PlanSize(c, PlanOf(c, table)) && consumed == c.size && b == PlanBlock(c, PlanOf(c, table)))
  }

  lemma ItTakesAll(c: Job, table: seq<nat>, target: nat, r: nat, consumed: nat, b: Block, ss: seq<Sequence>, anchor: nat)
    requires Shaped(c, table, c.start, c.start) && c.start == 0 && LongMatches(ss) && anchor <= consumed <= c.End()
    requires Fitting(c, PlanOf(c, table), target) ==> PlanOf(c, table) == Plan(ss, anchor)
    requires b == Block(ss, c.m[anchor..consumed])
    requires var need := |EncodeAll(ss)| + 1 + (c.End() - anchor + 240) / 255 + (c.End() - anchor);
             need <= target ==> consumed == c.End() && r == need
    ensures TakesAll(c, table, target, r, consumed, b)
  {
    hide PlanOf, EncodeAll;
    if Fitting(c, PlanOf(c, table), target) {
      PlanSizeIs(c, ss, anchor);
    }
  }

  lemma PlanSizeIs(c: Job, ss: seq<Sequence>, anchor: nat)
    requires c.Valid() && anchor <= c.End() && LongMatches(ss)
    ensures PlanSize(c, Plan(ss, anchor)) == |EncodeAll(ss)| + 1 + (c.End() - anchor + 240) / 255 + (c.End() - anchor)
  {
  }
}
