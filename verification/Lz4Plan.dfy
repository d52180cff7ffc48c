/** The block LZ4_compress_generic makes, as a function of its input and its table: the same searches,
    without output.  A limit on the output has no part in it. */
module Lz4Plan {
  import opened Lz4Block
  import opened Lz4Matcher
  import Lz4RoundTrip

  /** Sequences, and where the last literals start. */
  datatype Plan = Plan(ss: seq<Sequence>, anchor: nat)

  /** Matches that follow one another, where the last of them ends, and whether the search goes on. */
  datatype Chained = Chained(ss: seq<Sequence>, ip: nat, table: seq<nat>, resume: bool)

  ghost predicate Shaped(c: Job, table: seq<nat>, anchor: nat, ip: nat) {
    c.Valid() && c.start <= anchor <= ip && |table| == TableSize(c.table)
  }

  /** Positions and the candidate for `ip` once the bytes before it are done with. */
  ghost function Recorded(c: Job, table: seq<nat>, ip: nat): (r: (int, seq<nat>))
    requires Shaped(c, table, c.start, ip) && c.start + 2 <= ip <= c.MfLimit()
    ensures |r.1| == |table|
  {
    var h := HashPosition(c.m, ip, c.table);
    var t := Put(c, table, ip - 2, HashPosition(c.m, ip - 2, c.table));
    (c.base + t[h], Put(c, t, ip, h))
  }

  /** The match at `ip` behind the literals from `anchor` on. */
  ghost function MatchAt(c: Job, anchor: nat, ip: nat, match_: int): (s: Sequence)
    requires c.Valid() && c.start <= anchor <= ip <= c.MfLimit() && 0 <= match_ < ip
    ensures s.matchLength >= MINMATCH && ip + s.matchLength + LASTLITERALS <= c.End()
  {
    Sequence(c.m[anchor..ip], ip - match_,
             CommonLength(c.m, ip + MINMATCH, match_ + MINMATCH, c.End() - LASTLITERALS) + MINMATCH)
  }

  /** From a match on, up to where no match follows at once. */
  ghost function Chain(c: Job, table: seq<nat>, anchor: nat, ip: nat, match_: int): (r: Chained)
    requires Shaped(c, table, anchor, ip) && ip <= c.MfLimit() && 0 <= match_ < ip
    ensures LongMatches(r.ss) && r.ss != [] && ip + MINMATCH <= r.ip && r.ip + LASTLITERALS <= c.End()
    ensures |r.table| == |table| && (r.resume ==> r.ip <= c.MfLimit())
    decreases c.End() - ip
  {
    var s := MatchAt(c, anchor, ip, match_);
    var end := ip + s.matchLength;
    if end > c.MfLimit() then Chained([s], end, table, false)
    else
      var (candidate, table') := Recorded(c, table, end);
      if !Takes(c, end, candidate, true) then Chained([s], end, table', true)
      else
        var r := Chain(c, table', end, end, candidate);
        Chained([s] + r.ss, r.ip, r.table, r.resume)
  }

  /** Sequences in front of a plan. */
  ghost function Behind(ss: seq<Sequence>, p: Plan): Plan {
    Plan(ss + p.ss, p.anchor)
  }

  /** The rest of the block from a search at `ip` on. */
  ghost function PlanFrom(c: Job, table: seq<nat>, anchor: nat, ip: nat, h: nat): (r: Plan)
    requires Shaped(c, table, anchor, ip) && ip <= c.MfLimit() + 1 && h < |table|
    ensures LongMatches(r.ss) && anchor <= r.anchor <= c.End() && (r.ss == [] ==> r.anchor == anchor)
    ensures r.ss != [] ==> r.anchor + LASTLITERALS <= c.End()
    decreases c.End() - anchor, 1
  {
    match Probed(c, table, ip, h, 1, 64)
    case NoHit => Plan([], anchor)
    case HitAt(hit, match_, table') => FromHit(c, table', anchor, hit, match_)
  }

  /** The rest from a search hit on. */
  ghost function FromHit(c: Job, table: seq<nat>, anchor: nat, hit: nat, match_: int): (r: Plan)
    requires Shaped(c, table, anchor, hit) && hit <= c.MfLimit() && 0 <= match_ < hit
    ensures LongMatches(r.ss) && anchor <= r.anchor && r.anchor + LASTLITERALS <= c.End() && r.ss != []
    decreases c.End() - anchor, 0
  {
    var (ip, m) := CaughtUp(c, anchor, hit, match_);
    AfterChain(c, Chain(c, table, anchor, ip, m))
  }

  /** The rest behind the first of several matches. */
  ghost function AfterChain(c: Job, r: Chained): (p: Plan)
    requires Shaped(c, r.table, r.ip, r.ip) && LongMatches(r.ss) && r.ss != [] && r.ip + LASTLITERALS <= c.End()
    requires r.resume ==> r.ip <= c.MfLimit()
    ensures LongMatches(p.ss) && r.ip <= p.anchor && p.anchor + LASTLITERALS <= c.End() && p.ss != []
    decreases c.End() - r.ip, 2
  {
    if !r.resume then Plan(r.ss, r.ip)
    else Behind(r.ss, PlanFrom(c, r.table, r.ip, r.ip + 1, HashPosition(c.m, r.ip + 1, c.table)))
  }

  /** The whole block. */
  ghost function PlanOf(c: Job, table: seq<nat>): (r: Plan)
    requires Shaped(c, table, c.start, c.start)
    ensures LongMatches(r.ss) && c.start <= r.anchor <= c.End() && (r.ss != [] ==> r.anchor + LASTLITERALS <= c.End())
  {
    if c.size < MFLIMIT + 1 then Plan([], c.start)
    else
      PlanFrom(c, Put(c, table, c.start, HashPosition(c.m, c.start, c.table)), c.start, c.start + 1,
               HashPosition(c.m, c.start + 1, c.table))
  }

  ghost function PlanBlock(c: Job, p: Plan): (b: Block)
    requires c.Valid() && p.anchor <= c.End()
    ensures b.sequences == p.ss
  {
    Block(p.ss, c.m[p.anchor..c.End()])
  }

  /** The number of its bytes. */
  ghost function PlanSize(c: Job, p: Plan): (n: nat)
    requires c.Valid() && p.anchor <= c.End() && LongMatches(p.ss)
  {
    |EncodeAll(p.ss)| + 1 + (c.End() - p.anchor + 240) / 255 + (c.End() - p.anchor)
  }

  lemma BlockSize(c: Job, p: Plan)
    requires c.Valid() && p.anchor <= c.End() && LongMatches(p.ss)
    ensures PlanSize(c, p) == |EncodeBlock(PlanBlock(c, p))|
  {
    hide EncodeAll, EncodeLast;
    assert |EncodeLast(c.m[p.anchor..c.End()])| == 1 + (c.End() - p.anchor + 240) / 255 + (c.End() - p.anchor);
  }

  // ----- How a plan unfolds -----

  lemma BehindNone(p: Plan)
    ensures Behind([], p) == p
  {
    assert [] + p.ss == p.ss;
  }

  lemma BehindBoth(a: seq<Sequence>, b: seq<Sequence>, p: Plan)
    ensures Behind(a, Behind(b, p)) == Behind(a + b, p)
  {
    assert a + (b + p.ss) == (a + b) + p.ss;
  }

  lemma BehindEnd(a: seq<Sequence>, b: seq<Sequence>, anchor: nat)
    ensures Behind(a, Plan(b, anchor)) == Plan(a + b, anchor)
  {
  }

  /** One match, and what is behind it. */
  lemma AfterMatch(c: Job, table: seq<nat>, anchor: nat, ip: nat, match_: int)
    requires Shaped(c, table, anchor, ip) && ip <= c.MfLimit() && 0 <= match_ < ip
    ensures var s := MatchAt(c, anchor, ip, match_);
            var end, rest := ip + s.matchLength, AfterChain(c, Chain(c, table, anchor, ip, match_));
            if end > c.MfLimit() then rest == Plan([s], end)
            else
              var (candidate, table') := Recorded(c, table, end);
              if Takes(c, end, candidate, true) then rest == Behind([s], AfterChain(c, Chain(c, table', end, end, candidate)))
              else rest == Behind([s], PlanFrom(c, table', end, end + 1, HashPosition(c.m, end + 1, c.table)))
  {
    hide Recorded, Accepts, MatchAt, PlanFrom, HashPosition;
    var s := MatchAt(c, anchor, ip, match_);
    var end := ip + s.matchLength;
    if end <= c.MfLimit() {
      var (candidate, table') := Recorded(c, table, end);
      if Takes(c, end, candidate, true) {
        var r := Chain(c, table', end, end, candidate);
        if r.resume {
          BehindBoth([s], r.ss, PlanFrom(c, r.table, r.ip, r.ip + 1, HashPosition(c.m, r.ip + 1, c.table)));
        } else {
          BehindEnd([s], r.ss, r.ip);
        }
      }
    }
  }

  lemma ChainFirst(c: Job, table: seq<nat>, anchor: nat, ip: nat, match_: int)
    requires Shaped(c, table, anchor, ip) && ip <= c.MfLimit() && 0 <= match_ < ip
    ensures AfterChain(c, Chain(c, table, anchor, ip, match_)).ss[0] == MatchAt(c, anchor, ip, match_)
  {
    hide Recorded, Takes, MatchAt, PlanFrom, HashPosition;
  }

  lemma FirstFits(ss: seq<Sequence>, before: seq<Sequence>, s: Sequence)
    requires LongMatches(ss) && before + [s] <= ss
    ensures LongMatches(before) && s.matchLength >= MINMATCH
    ensures |EncodeAll(before)| + |EncodeSequence(s)| <= |EncodeAll(ss)|
  {
    hide EncodeAll, EncodeSequence;
    assert ss[..|before| + 1] == before + [s] && ss[|before|] == s;
    assert forall i :: 0 <= i < |before| ==> before[i] == ss[i];
    Lz4RoundTrip.EncodeAllPrefix(ss, |before| + 1);
    AppendSequence([], before, s);
  }

  /** A plan needs room for its next match, one more token and the last five literals. */
  lemma MatchNeeds(c: Job, plan: Plan, before: seq<Sequence>, table: seq<nat>, anchor: nat, ip: nat, match_: int)
    requires Shaped(c, table, anchor, ip) && ip <= c.MfLimit() && 0 <= match_ < ip
    requires plan == Behind(before, AfterChain(c, Chain(c, table, anchor, ip, match_)))
    requires LongMatches(plan.ss)
    ensures plan.anchor <= c.End() && LongMatches(before)
    ensures PlanSize(c, plan) >= |EncodeAll(before)| + |EncodeSequence(MatchAt(c, anchor, ip, match_))| + 1 + LASTLITERALS
  {
    hide EncodeAll, EncodeSequence, MatchAt, Chain, AfterChain;
    ChainFirst(c, table, anchor, ip, match_);
    var rest := AfterChain(c, Chain(c, table, anchor, ip, match_));
    assert before + [rest.ss[0]] <= plan.ss;
    FirstFits(plan.ss, before, rest.ss[0]);
  }

  /** So the tests of the limit never ask for more than the whole block takes. */
  lemma TestsNeed(c: Job, plan: Plan, before: seq<Sequence>, table: seq<nat>, anchor: nat, ip: nat, match_: int)
    requires Shaped(c, table, anchor, ip) && ip <= c.MfLimit() && 0 <= match_ < ip
    requires plan == Behind(before, AfterChain(c, Chain(c, table, anchor, ip, match_)))
    requires LongMatches(plan.ss)
    ensures plan.anchor <= c.End() && LongMatches(before)
    ensures var t, lit, mc := |EncodeAll(before)|, ip - anchor, MatchAt(c, anchor, ip, match_).matchLength - MINMATCH;
            && t + 1 + lit + (2 + 1 + LASTLITERALS) + lit / 255 <= PlanSize(c, plan)
            && t + 1 + (lit + 240) / 255 + lit + 2 + (1 + LASTLITERALS) + mc / 256 <= PlanSize(c, plan)
            && t + 1 + (lit + 240) / 255 + lit + 2 + (mc + 240) / 255 + (1 + LASTLITERALS) <= PlanSize(c, plan)
  {
    hide EncodeAll, PlanSize, Chain, AfterChain, Behind;
    MatchNeeds(c, plan, before, table, anchor, ip, match_);
    hide EncodeSequence;
    var s := MatchAt(c, anchor, ip, match_);
    assert |s.literals| == ip - anchor;
    assert |EncodeSequence(s)| == 3 + (|s.literals| + 240) / 255 + |s.literals| + (s.matchLength + 236) / 255;
    Quotients(|s.literals|, s.matchLength - MINMATCH);
  }

  lemma Quotients(lit: nat, mc: nat)
    ensures lit / 255 <= (lit + 240) / 255 && mc / 256 <= (mc + 240) / 255
  {
  }

  /** Twelve bytes behind a match need nine more of output. */
  lemma SearchNeeds(c: Job, plan: Plan, before: seq<Sequence>, table: seq<nat>, ip: nat)
    requires Shaped(c, table, c.start, ip) && ip <= c.MfLimit() && LongMatches(plan.ss)
    requires plan == Behind(before, PlanFrom(c, table, ip, ip + 1, HashPosition(c.m, ip + 1, c.table)))
    ensures plan.anchor <= c.End() && LongMatches(before) && PlanSize(c, plan) >= |EncodeAll(before)| + 9
  {
    hide EncodeAll, EncodeSequence, Probed, FromHit, HashPosition;
    var rest := PlanFrom(c, table, ip, ip + 1, HashPosition(c.m, ip + 1, c.table));
    if rest.ss == [] {
      assert before + [] == before;
    } else {
      assert before + [rest.ss[0]] <= plan.ss;
      FirstFits(plan.ss, before, rest.ss[0]);
      assert |EncodeSequence(rest.ss[0])| >= 3;
    }
  }

  // ----- Inputs without a repeated byte -----

  ghost predicate NoByteTwice(c: Job) {
    c.Valid() && forall i, j :: c.low <= i < j < c.End() ==> c.m[i] != c.m[j]
  }

  lemma {:induction false} NoneProbed(c: Job, table: seq<nat>, ip: nat, h: nat, step: nat, nb: nat)
    requires NoByteTwice(c) && c.start <= ip && step >= 1 && nb >= 64 && |table| == TableSize(c.table) && h < |table|
    ensures Probed(c, table, ip, h, step, nb) == NoHit
    decreases c.End() - ip
  {
    hide HashPosition, Accepts;
    if ip + step <= c.MfLimit() {
      var candidate := c.base + table[h];
      if Takes(c, ip, candidate, c.table != ByU16) {
        AcceptedIsMatch(c, ip, candidate, c.table != ByU16);
        AgreeFirst(c, ip, candidate);
      }
      NoneProbed(c, Put(c, table, ip, h), ip + step, HashPosition(c.m, ip + step, c.table), nb / 64, nb + 1);
    }
  }

  lemma AgreeFirst(c: Job, ip: nat, match_: int)
    requires IsMatch(c, ip, match_)
    ensures c.low <= match_ < ip && ip < |c.m| && c.m[ip] == c.m[match_]
  {
    assert c.m[ip] == c.m[ip - (ip - match_)];
  }

  lemma NoSequences()
    ensures LongMatches([]) && EncodeAll([]) == []
  {
  }

  /** Their block is literals alone. */
  lemma LiteralPlan(c: Job, table: seq<nat>)
    requires c.Valid() && NoByteTwice(c) && |table| == TableSize(c.table)
    ensures PlanOf(c, table) == Plan([], c.start) && PlanSize(c, PlanOf(c, table)) == 1 + (c.size + 240) / 255 + c.size
  {
    hide HashPosition, Probed, EncodeAll, Put, NoByteTwice;
    NoSequences();
    if c.size >= MFLIMIT + 1 {
      NoneProbed(c, Put(c, table, c.start, HashPosition(c.m, c.start, c.table)), c.start + 1, HashPosition(c.m, c.start + 1, c.table), 1, 64);
    }
  }
}
