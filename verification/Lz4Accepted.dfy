/** Which inputs the decoder accepts: what it reads is always a block, whose offsets stay inside the
    history and the output so far, and in safe mode it accepts exactly those that keep its margins. */
module Lz4Accepted {
  import opened Lz4Block
  import opened Lz4Reference
  import opened Lz4RoundTrip
  import Lz4Decoder
  import Lz4Writer

  /** Last literals, with any low half of the token: the decoder does not look at it. */
  function EncodeLastAs(last: seq<byte>, low: nat): seq<byte>
    requires low < 16
  {
    var token: byte := Nibble(|last|) * 16 + low;
    [token] + (Extra(|last|) + last)
  }

  /** The match of `s` reads what has been produced.  Offset 0 reads zeros. */
  predicate Inside(outLen: nat, s: Sequence) {
    s.matchLength >= MINMATCH && s.offset <= MAX_DISTANCE && s.offset <= outLen + |s.literals|
  }

  // ----- What is read is a length -----

  lemma {:induction false} LiteralRunIs(src: seq<byte>, ip: nat, stop: int, length: nat)
    requires LiteralRun(src, ip, stop, length).Run?
    ensures var r := LiteralRun(src, ip, stop, length);
            && (src[r.ip - 1] != 255 ==> src[ip..r.ip] == LengthBytes(r.length - length))
            && (src[r.ip - 1] == 255 ==> stop <= r.ip && r.length >= length + 255)
    decreases |src| - ip
  {
    var r := LiteralRun(src, ip, stop, length);
    if ip + 1 < stop && src[ip] == 255 {
      LiteralRunIs(src, ip + 1, stop, length + 255);
      assert src[ip..r.ip] == [src[ip]] + src[ip + 1..r.ip];
    } else {
      assert src[ip..r.ip] == [src[ip]];
    }
  }

  lemma {:induction false} MatchRunIs(src: seq<byte>, safe: bool, ip: nat, limit: int, length: nat)
    requires MatchRun(src, safe, ip, limit, length).Run?
    ensures var r := MatchRun(src, safe, ip, limit, length);
            src[ip..r.ip] == LengthBytes(r.length - length) && (safe ==> r.ip <= limit)
    decreases |src| - ip
  {
    var r := MatchRun(src, safe, ip, limit, length);
    if src[ip] == 255 {
      MatchRunIs(src, safe, ip + 1, limit, length + 255);
      assert src[ip..r.ip] == [src[ip]] + src[ip + 1..r.ip];
    } else {
      assert src[ip..r.ip] == [src[ip]];
    }
  }

  /** The literal length, unless it ran into the end of the input. */
  lemma LiteralLengthIs(src: seq<byte>, cfg: Config, ip: nat, length: nat, ip2: nat)
    requires ip < |src| && LiteralLength(src, cfg, src[ip], ip + 1) == Run(ip2, length)
    requires cfg.safe ==> ip2 + length <= cfg.iend
    ensures ip2 <= |src| && src[ip + 1..ip2] == Extra(length) && HighNibble(src[ip]) == Nibble(length)
  {
    if HighNibble(src[ip]) == 15 {
      LiteralRunIs(src, ip + 1, LiteralStop(src, cfg), 15);
    }
  }

  lemma MatchLengthIs(src: seq<byte>, cfg: Config, token: byte, ip: nat, length: nat, ip2: nat)
    requires ip <= |src| && MatchLength(src, cfg, token, ip) == Run(ip2, length)
    ensures ip2 <= |src| && src[ip..ip2] == Extra(length) && LowNibble(token) == Nibble(length)
    ensures cfg.safe && length >= 15 ==> ip2 + LASTLITERALS <= cfg.iend
  {
    if LowNibble(token) == 15 {
      MatchRunIs(src, cfg.safe, ip, cfg.iend - LASTLITERALS, 15);
    }
  }

  // ----- What a step reads is a sequence -----

  lemma TokenIs(token: byte, literalLength: nat, matchCode: nat)
    requires HighNibble(token) == Nibble(literalLength) && LowNibble(token) == Nibble(matchCode)
    ensures token == Token(literalLength, matchCode)
  {
  }

  lemma OffsetIs(src: seq<byte>, ip: nat)
    requires ip + 2 <= |src|
    ensures src[ip..ip + 2] == Le16(ReadLe16(src, ip))
  {
  }

  lemma Two(src: seq<byte>, a: nat, b: nat, c: nat, x: seq<byte>, y: seq<byte>)
    requires a <= b <= c <= |src| && src[a..b] == x && src[b..c] == y
    ensures src[a..c] == x + y
  {
  }

  lemma SequenceIs(s: Sequence)
    requires s.matchLength >= MINMATCH
    ensures EncodeSequence(s)
         == [Token(|s.literals|, s.matchLength - MINMATCH)]
            + (Extra(|s.literals|) + (s.literals + (Le16(s.offset) + Extra(s.matchLength - MINMATCH))))
  {
  }

  lemma Assemble(src: seq<byte>, ip: nat, ip2: nat, ip3: nat, ip4: nat, s: Sequence)
    requires s.matchLength >= MINMATCH && ip + 1 <= ip2 <= ip3 && ip3 + 2 <= ip4 <= |src|
    requires src[ip] == Token(|s.literals|, s.matchLength - MINMATCH) && src[ip + 1..ip2] == Extra(|s.literals|)
    requires src[ip2..ip3] == s.literals && src[ip3..ip3 + 2] == Le16(s.offset)
    requires src[ip3 + 2..ip4] == Extra(s.matchLength - MINMATCH)
    ensures src[ip..ip4] == EncodeSequence(s)
  {
    hide Token, Extra, Le16, EncodeSequence;
    var e, f, x := Extra(s.matchLength - MINMATCH), Le16(s.offset), Extra(|s.literals|);
    SequenceIs(s);
    Two(src, ip3, ip3 + 2, ip4, f, e);
    Two(src, ip2, ip3, ip4, s.literals, f + e);
    Two(src, ip + 1, ip2, ip4, x, s.literals + (f + e));
    assert src[ip..ip + 1] == [src[ip]];
    Two(src, ip, ip + 1, ip4, [src[ip]], x + (s.literals + (f + e)));
  }

  /** The margins of the general path, and the conditions of the fast path. */
  predicate KeepsMargins(cfg: Config, ip: nat, outLen: nat, s: Sequence) {
    var ip3, outEnd := ip + 1 + |Extra(|s.literals|)| + |s.literals|, outLen + |s.literals|;
    && ip3 + 2 + 1 + LASTLITERALS <= cfg.iend
    && outEnd + MFLIMIT <= cfg.oend
    && outEnd + s.matchLength + LASTLITERALS <= cfg.oend
    && (s.matchLength - MINMATCH >= ML_MASK ==> ip3 + 2 + |Extra(s.matchLength - MINMATCH)| + LASTLITERALS <= cfg.iend)
  }

  predicate Short(cfg: Config, ip: nat, outLen: nat, s: Sequence) {
    && cfg.shortcut && |s.literals| < RUN_MASK && s.matchLength - MINMATCH < ML_MASK && s.offset >= 18
    && ip + 1 + 14 + 2 <= cfg.iend && outLen + 14 + 18 <= cfg.oend
  }

  /** What a safe decoder accepts at (ip, outLen). */
  predicate Accepted(cfg: Config, ip: nat, outLen: nat, s: Sequence) {
    Inside(outLen, s) && (Short(cfg, ip, outLen, s) || KeepsMargins(cfg, ip, outLen, s))
  }

  lemma ShortcutReads(src: seq<byte>, cfg: Config, ip: nat, out: seq<byte>) returns (s: Sequence)
    requires cfg.safe && cfg.iend <= |src| && ip < |src| && TakesShortcut(src, cfg, src[ip], ip + 1, |out|)
    ensures var r := ShortcutStep(src, ip, out);
            ip < r.ip <= |src| && Accepted(cfg, ip, |out|, s) && src[ip..r.ip] == EncodeSequence(s) && r.out == Expand(out, s)
  {
    hide ByteCopy, Token, ReadLe16, Le16, EncodeSequence, KeepsMargins;
    var ll := HighNibble(src[ip]);
    var ip3 := ip + 1 + ll;
    s := Sequence(src[ip + 1..ip3], ReadLe16(src, ip3), LowNibble(src[ip]) + MINMATCH);
    TokenIs(src[ip], ll, LowNibble(src[ip]));
    OffsetIs(src, ip3);
    assert src[ip + 1..ip + 1] == Extra(ll) && src[ip3 + 2..ip3 + 2] == Extra(s.matchLength - MINMATCH);
    Assemble(src, ip, ip + 1, ip3, ip3 + 2, s);
  }

  lemma MatchReads(src: seq<byte>, cfg: Config, ip: nat, ip2: nat, ip3: nat, out: seq<byte>) returns (s: Sequence)
    requires ip < |src| && ip + 1 <= ip2 <= ip3 && ip3 + 2 <= |src| && MatchStep(src, cfg, src[ip], ip3, out + src[ip2..ip3]).More?
    requires src[ip + 1..ip2] == Extra(ip3 - ip2) && HighNibble(src[ip]) == Nibble(ip3 - ip2)
    ensures var r := MatchStep(src, cfg, src[ip], ip3, out + src[ip2..ip3]);
            && ip < r.ip <= |src| && Inside(|out|, s) && src[ip..r.ip] == EncodeSequence(s) && r.out == Expand(out, s)
            && s.literals == src[ip2..ip3] && |out| + |s.literals| + s.matchLength + LASTLITERALS <= cfg.oend
            && (cfg.safe && s.matchLength - MINMATCH >= 15 ==> r.ip + LASTLITERALS <= cfg.iend)
  {
    hide ByteCopy, Token, ReadLe16, Le16, EncodeSequence, Extra, LiteralRun, MatchRun;
    var Run(ip4, length) := MatchLength(src, cfg, src[ip], ip3 + 2);
    s := Sequence(src[ip2..ip3], ReadLe16(src, ip3), length + MINMATCH);
    MatchLengthIs(src, cfg, src[ip], ip3 + 2, length, ip4);
    TokenIs(src[ip], ip3 - ip2, length);
    OffsetIs(src, ip3);
    Assemble(src, ip, ip2, ip3, ip4, s);
  }

  /** Every step that goes on has read a sequence, in either mode; in safe mode it keeps the margins. */
  lemma StepReads(src: seq<byte>, cfg: Config, ip: nat, out: seq<byte>) returns (s: Sequence)
    requires (cfg.safe ==> cfg.iend <= |src|) && Step(src, cfg, ip, out).More?
    ensures var r := Step(src, cfg, ip, out);
            && ip < r.ip <= |src| && Inside(|out|, s) && src[ip..r.ip] == EncodeSequence(s) && r.out == Expand(out, s)
            && (cfg.safe ==> Accepted(cfg, ip, |out|, s))
  {
    hide EncodeSequence, Expand, MatchStep, ShortcutStep, HighNibble, LowNibble, Extra, CopyEnd;
    if TakesShortcut(src, cfg, src[ip], ip + 1, |out|) {
      s := ShortcutReads(src, cfg, ip, out);
    } else {
      var Run(ip2, length) := LiteralLength(src, cfg, src[ip], ip + 1);
      LiteralLengthIs(src, cfg, ip, length, ip2);
      s := MatchReads(src, cfg, ip, ip2, ip2 + length, out);
      ExtraSize(src, ip + 1, ip2, length);
    }
  }

  lemma ExtraSize(src: seq<byte>, a: nat, b: nat, n: nat)
    requires a <= b <= |src| && src[a..b] == Extra(n)
    ensures b == a + |Extra(n)|
  {
  }

  /** And one that ends has read last literals. */
  lemma LastReads(src: seq<byte>, cfg: Config, ip: nat, out: seq<byte>) returns (last: seq<byte>, low: nat)
    requires (cfg.safe ==> cfg.iend <= |src|) && Step(src, cfg, ip, out).Done?
    ensures var r := Step(src, cfg, ip, out);
            ip < r.ip <= |src| && low < 16 && src[ip..r.ip] == EncodeLastAs(last, low) && r.out == out + last
  {
    hide MatchStep, ShortcutStep, Extra, CopyEnd, ByteCopy;
    var Run(ip2, length) := LiteralLength(src, cfg, src[ip], ip + 1);
    NoMatchEnds(src, cfg, ip, out);
    LiteralLengthIs(src, cfg, ip, length, ip2);
    last, low := src[ip2..ip2 + length], LowNibble(src[ip]);
    assert src[ip] == HighNibble(src[ip]) * 16 + low;
    AssembleLast(src, ip, ip2, ip2 + length, last, low);
  }

  lemma AssembleLast(src: seq<byte>, ip: nat, ip2: nat, end: nat, last: seq<byte>, low: nat)
    requires low < 16 && ip + 1 <= ip2 <= end <= |src| && src[ip] == Nibble(|last|) * 16 + low
    requires src[ip + 1..ip2] == Extra(|last|) && src[ip2..end] == last
    ensures src[ip..end] == EncodeLastAs(last, low)
  {
    hide Extra;
    var x := Extra(|last|);
    Two(src, ip + 1, ip2, end, x, last);
    assert src[ip..ip + 1] == [src[ip]];
    Two(src, ip, ip + 1, end, [src[ip]], x + last);
  }

  lemma NoMatchEnds(src: seq<byte>, cfg: Config, ip: nat, out: seq<byte>)
    requires (cfg.safe ==> cfg.iend <= |src|) && Step(src, cfg, ip, out).Done?
    ensures ip < |src| && LiteralLength(src, cfg, src[ip], ip + 1).Run?
    ensures var Run(ip2, length) := LiteralLength(src, cfg, src[ip], ip + 1);
            LastStep(src, cfg, ip2, length, out) == Step(src, cfg, ip, out)
  {
    hide ByteCopy, LiteralLength, HighNibble, LowNibble, CopyEnd, IsLast;
  }

  // ----- A sequence in front of others -----

  lemma FrontInit(s: Sequence, ss: seq<Sequence>)
    requires ss != []
    ensures ([s] + ss)[..|ss|] == [s] + ss[..|ss| - 1] && ([s] + ss)[|ss|] == ss[|ss| - 1]
  {
  }

  lemma EncodeAppend(ss: seq<Sequence>, s: Sequence)
    requires LongMatches(ss) && s.matchLength >= MINMATCH
    ensures LongMatches(ss + [s]) && EncodeAll(ss + [s]) == EncodeAll(ss) + EncodeSequence(s)
  {
    hide EncodeSequence;
    assert (ss + [s])[..|ss|] == ss;
  }

  lemma {:induction false} EncodeAllFront(s: Sequence, ss: seq<Sequence>)
    requires LongMatches(ss) && s.matchLength >= MINMATCH
    ensures LongMatches([s] + ss) && EncodeAll([s] + ss) == EncodeSequence(s) + EncodeAll(ss)
  {
    hide EncodeSequence, EncodeAll;
    if ss == [] {
      EncodeAllOfNone(ss);
      EncodeAppend([], s);
      assert [s] + ss == [] + [s];
    } else {
      var init, last := ss[..|ss| - 1], ss[|ss| - 1];
      EncodeAllFront(s, init);
      EncodeAppend(init, last);
      EncodeAppend([s] + init, last);
      assert init + [last] == ss && ([s] + init) + [last] == [s] + ss;
      assert (EncodeSequence(s) + EncodeAll(init)) + EncodeSequence(last) == EncodeSequence(s) + (EncodeAll(init) + EncodeSequence(last));
    }
  }

  lemma {:induction false} ExpandAllFront(hist: seq<byte>, s: Sequence, ss: seq<Sequence>)
    ensures ExpandAll(hist, [s] + ss) == ExpandAll(Expand(hist, s), ss)
  {
    hide Expand;
    if ss == [] {
      assert [s] + ss == [s] && [s][..0] == [];
    } else {
      ExpandAllFront(hist, s, ss[..|ss| - 1]);
      FrontInit(s, ss);
    }
  }

  // ----- What decoding reads -----

  /** From (ip, out) on, sequence by sequence, the decoder's conditions hold. */
  ghost predicate AllAccepted(cfg: Config, ip: nat, out: seq<byte>, ss: seq<Sequence>)
    decreases |ss|
  {
    ss != [] ==>
      && ss[0].matchLength >= MINMATCH
      && (if cfg.safe then Accepted(cfg, ip, |out|, ss[0]) else Inside(|out|, ss[0]))
      && AllAccepted(cfg, ip + |EncodeSequence(ss[0])|, Expand(out, ss[0]), ss[1..])
  }

  /** The bytes from `ip` to `end` are a block, with any low half of its last token, that turns `out`
      into `result`. */
  ghost predicate ReadsBlock(src: seq<byte>, cfg: Config, ip: nat, out: seq<byte>, b: Block, low: nat, end: nat, result: seq<byte>) {
    && LongMatches(b.sequences) && low < 16 && ip <= end <= |src|
    && src[ip..end] == EncodeAll(b.sequences) + EncodeLastAs(b.last, low)
    && result == ExpandBlock(out, b)
    && AllAccepted(cfg, ip, out, b.sequences)
  }

  lemma PrependBlock(src: seq<byte>, cfg: Config, ip: nat, ip': nat, out: seq<byte>, s: Sequence, b: Block, low: nat, end: nat, result: seq<byte>)
    requires ip <= ip' <= |src| && s.matchLength >= MINMATCH && src[ip..ip'] == EncodeSequence(s)
    requires if cfg.safe then Accepted(cfg, ip, |out|, s) else Inside(|out|, s)
    requires ReadsBlock(src, cfg, ip', Expand(out, s), b, low, end, result)
    ensures ReadsBlock(src, cfg, ip, out, Block([s] + b.sequences, b.last), low, end, result)
  {
    hide EncodeSequence, EncodeAll, EncodeLastAs, ExpandAll, Expand, Accepted, Inside;
    EncodeAllFront(s, b.sequences);
    ExpandAllFront(out, s, b.sequences);
    assert src[ip..end] == src[ip..ip'] + src[ip'..end];
    assert ip' == ip + |EncodeSequence(s)|;
    assert ([s] + b.sequences)[1..] == b.sequences;
  }

  lemma JustLast(src: seq<byte>, cfg: Config, ip: nat, out: seq<byte>, last: seq<byte>, low: nat, end: nat)
    requires ip <= end <= |src| && low < 16 && src[ip..end] == EncodeLastAs(last, low)
    ensures ReadsBlock(src, cfg, ip, out, Block([], last), low, end, out + last)
  {
    hide EncodeLastAs;
    assert EncodeAll([]) + EncodeLastAs(last, low) == EncodeLastAs(last, low);
  }

  /** The converse of the round trip: whatever the decoder accepts is a block, and its output is what the
      block stands for. */
  lemma {:induction false} DecodeReads(src: seq<byte>, cfg: Config, ip: nat, out: seq<byte>) returns (b: Block, low: nat)
    requires (cfg.safe ==> cfg.iend <= |src|) && Decode(src, cfg, ip, out).Done?
    ensures var r := Decode(src, cfg, ip, out); ReadsBlock(src, cfg, ip, out, b, low, r.ip, r.out)
    decreases |src| - ip
  {
    hide Step, ReadsBlock, EncodeSequence, EncodeLastAs, Accepted, Expand;
    var s := Step(src, cfg, ip, out);
    if s.More? {
      var first := StepReads(src, cfg, ip, out);
      assert first.matchLength >= MINMATCH by {
        InsideIsLong(|out|, first);
      }
      b, low := DecodeReads(src, cfg, s.ip, s.out);
      PrependBlock(src, cfg, ip, s.ip, out, first, b, low, Decode(src, cfg, ip, out).ip, Decode(src, cfg, ip, out).out);
      b := Block([first] + b.sequences, b.last);
    } else {
      var last;
      last, low := LastReads(src, cfg, ip, out);
      JustLast(src, cfg, ip, out, last, low, s.ip);
      b := Block([], last);
    }
  }

  lemma InsideIsLong(outLen: nat, s: Sequence)
    requires Inside(outLen, s)
    ensures s.matchLength >= MINMATCH
  {
  }

  // ----- What is accepted, exactly -----

  lemma ShortcutTaken(src: seq<byte>, cfg: Config, ip: nat, out: seq<byte>, s: Sequence)
    requires cfg.safe && cfg.iend <= |src| && Inside(|out|, s) && At(src, ip, EncodeSequence(s))
    ensures ip < |src| && (TakesShortcut(src, cfg, src[ip], ip + 1, |out|) <==> Short(cfg, ip, |out|, s))
    ensures Short(cfg, ip, |out|, s) ==> ShortcutStep(src, ip, out) == More(ip + |EncodeSequence(s)|, Expand(out, s))
  {
    hide At, Token, HighNibble, LowNibble, EncodeSequence, ByteCopy, ReadLe16;
    SequenceParts(src, ip, s);
    if |s.literals| < RUN_MASK && s.matchLength - MINMATCH < ML_MASK {
      var ip3 := ip + 1 + |s.literals|;
      AtIs(src, ip + 1, s.literals);
      Le16ReadsBack(src, ip3, s.offset);
      AtIs(src, ip3, Le16(s.offset));
      assert ReadLe16(src, ip + 1 + HighNibble(src[ip])) == s.offset;
    }
  }

  lemma MarginsStep(src: seq<byte>, cfg: Config, ip: nat, out: seq<byte>, s: Sequence)
    requires cfg.safe && cfg.iend <= |src| && ip < |src| && Inside(|out|, s) && At(src, ip, EncodeSequence(s))
    requires KeepsMargins(cfg, ip, |out|, s)
    ensures GeneralStep(src, cfg, ip, out) == More(ip + |EncodeSequence(s)|, Expand(out, s))
  {
    hide At, Token, Extra, HighNibble, LowNibble, EncodeSequence, LiteralLength, MatchLength, MatchStep, ByteCopy, CopyEnd, Le16;
    SequenceParts(src, ip, s);
    var ip2 := ip + 1 + |Extra(|s.literals|)|;
    AtIs(src, ip2, s.literals);
    ReadsLiteralLength(src, cfg, src[ip], ip + 1, |s.literals|);
    CopyStays(|s.literals|);
    assert !IsLast(cfg, ip2 + |s.literals|, |out| + |s.literals|);
    MarginsMatch(src, cfg, ip, ip2 + |s.literals|, out, s);
  }

  lemma CopyStays(length: nat)
    ensures CopyEnd(length) <= length + 8
  {
  }

  lemma MarginsMatch(src: seq<byte>, cfg: Config, ip: nat, ip3: nat, out: seq<byte>, s: Sequence)
    requires cfg.safe && cfg.iend <= |src| && ip < |src| && Inside(|out|, s) && At(src, ip, EncodeSequence(s))
    requires KeepsMargins(cfg, ip, |out|, s) && ip3 == ip + 1 + |Extra(|s.literals|)| + |s.literals|
    ensures ip3 + 2 <= |src| && MatchStep(src, cfg, src[ip], ip3, out + s.literals) == More(ip + |EncodeSequence(s)|, Expand(out, s))
  {
    hide At, Token, Extra, HighNibble, LowNibble, EncodeSequence, MatchLength, ByteCopy, ReadLe16, Le16;
    SequenceParts(src, ip, s);
    Le16ReadsBack(src, ip3, s.offset);
    ReadsMatchLength(src, cfg, src[ip], ip3 + 2, s.matchLength - MINMATCH);
  }

  /** An accepted sequence is read. */
  lemma AcceptedStep(src: seq<byte>, cfg: Config, ip: nat, out: seq<byte>, s: Sequence)
    requires cfg.safe && cfg.iend <= |src| && s.matchLength >= MINMATCH && At(src, ip, EncodeSequence(s))
    requires Accepted(cfg, ip, |out|, s)
    ensures Step(src, cfg, ip, out) == More(ip + |EncodeSequence(s)|, Expand(out, s))
  {
    hide At, EncodeSequence, Expand, Short, KeepsMargins, GeneralStep, ShortcutStep, TakesShortcut, Inside;
    ShortcutTaken(src, cfg, ip, out, s);
    if !Short(cfg, ip, |out|, s) {
      MarginsStep(src, cfg, ip, out, s);
    }
  }

  lemma LastParts(src: seq<byte>, ip: nat, last: seq<byte>, low: nat)
    requires low < 16 && At(src, ip, EncodeLastAs(last, low))
    ensures ip < |src| && HighNibble(src[ip]) == Nibble(|last|)
    ensures At(src, ip + 1, Extra(|last|)) && At(src, ip + 1 + |Extra(|last|)|, last)
    ensures |EncodeLastAs(last, low)| == 1 + |Extra(|last|)| + |last|
  {
    hide At, Extra;
    var token: byte := Nibble(|last|) * 16 + low;
    AtSplit(src, ip, [token], Extra(|last|) + last);
    AtByte(src, ip, token);
    AtSplit(src, ip + 1, Extra(|last|), last);
  }

  /** So are the last literals, if they end the input and fit the output. */
  lemma LastStepReads(src: seq<byte>, cfg: Config, ip: nat, out: seq<byte>, last: seq<byte>, low: nat)
    requires cfg.safe && cfg.iend <= |src| && low < 16 && At(src, ip, EncodeLastAs(last, low))
    requires ip + |EncodeLastAs(last, low)| == cfg.iend && |out| + |last| <= cfg.oend
    ensures Step(src, cfg, ip, out) == Done(cfg.iend, out + last)
  {
    hide At, Extra, EncodeLastAs, LiteralLength, MatchLength, ByteCopy, HighNibble, LowNibble;
    LastParts(src, ip, last, low);
    AtIs(src, ip + 1 + |Extra(|last|)|, last);
    ExtraNone(|last|);
    assert !TakesShortcut(src, cfg, src[ip], ip + 1, |out|);
    ReadsLiteralLength(src, cfg, src[ip], ip + 1, |last|);
  }

  lemma ExtraNone(n: nat)
    ensures |Extra(n)| == 0 <==> n < 15
    ensures n < 15 ==> Nibble(n) == n
  {
  }

  lemma FrontOf(ss: seq<Sequence>)
    requires ss != [] && LongMatches(ss)
    ensures ss == [ss[0]] + ss[1..] && LongMatches(ss[1..]) && EncodeAll(ss) == EncodeSequence(ss[0]) + EncodeAll(ss[1..])
  {
    hide EncodeAll, EncodeSequence;
    assert ss == [ss[0]] + ss[1..];
    EncodeAllFront(ss[0], ss[1..]);
  }

  lemma FirstAt(src: seq<byte>, cfg: Config, ip: nat, out: seq<byte>, b: Block, low: nat, end: nat, result: seq<byte>)
    requires ReadsBlock(src, cfg, ip, out, b, low, end, result) && b.sequences != []
    ensures b.sequences[0].matchLength >= MINMATCH && At(src, ip, EncodeSequence(b.sequences[0]))
    ensures cfg.safe ==> Accepted(cfg, ip, |out|, b.sequences[0])
    ensures ExpandBlock(Expand(out, b.sequences[0]), Block(b.sequences[1..], b.last)) == ExpandBlock(out, b)
    ensures ReadsBlock(src, cfg, ip + |EncodeSequence(b.sequences[0])|, Expand(out, b.sequences[0]), Block(b.sequences[1..], b.last), low, end, result)
  {
    hide EncodeSequence, EncodeAll, EncodeLastAs, ExpandAll, Expand, Accepted, Inside;
    var ss := b.sequences;
    FrontOf(ss);
    ExpandAllFront(out, ss[0], ss[1..]);
    var rest := EncodeAll(ss[1..]) + EncodeLastAs(b.last, low);
    assert src[ip..end] == EncodeSequence(ss[0]) + rest;
    var ip' := ip + |EncodeSequence(ss[0])|;
    assert src[ip..ip'] == src[ip..end][..ip' - ip] && src[ip'..end] == src[ip..end][ip' - ip..];
  }

  lemma {:induction false} AcceptedDecodes(src: seq<byte>, cfg: Config, ip: nat, out: seq<byte>, b: Block, low: nat)
    requires cfg.safe && cfg.iend <= |src|
    requires ReadsBlock(src, cfg, ip, out, b, low, cfg.iend, ExpandBlock(out, b)) && |ExpandBlock(out, b)| <= cfg.oend
    ensures Decode(src, cfg, ip, out) == Done(cfg.iend, ExpandBlock(out, b))
    decreases |b.sequences|
  {
    hide EncodeSequence, EncodeLastAs, Expand, Accepted, Step, At, ReadsBlock, ExpandBlock;
    if b.sequences == [] {
      NoneFirst(src, cfg, ip, out, b, low);
      LastStepReads(src, cfg, ip, out, b.last, low);
    } else {
      var s := b.sequences[0];
      FirstAt(src, cfg, ip, out, b, low, cfg.iend, ExpandBlock(out, b));
      AcceptedStep(src, cfg, ip, out, s);
      AcceptedDecodes(src, cfg, ip + |EncodeSequence(s)|, Expand(out, s), Block(b.sequences[1..], b.last), low);
    }
  }

  lemma NoneFirst(src: seq<byte>, cfg: Config, ip: nat, out: seq<byte>, b: Block, low: nat)
    requires cfg.iend <= |src| && ReadsBlock(src, cfg, ip, out, b, low, cfg.iend, ExpandBlock(out, b)) && b.sequences == []
    ensures At(src, ip, EncodeLastAs(b.last, low)) && ip + |EncodeLastAs(b.last, low)| == cfg.iend
    ensures ExpandBlock(out, b) == out + b.last && low < 16
  {
    hide EncodeLastAs;
    assert EncodeAll(b.sequences) + EncodeLastAs(b.last, low) == EncodeLastAs(b.last, low);
  }

  lemma {:induction false} DoneEnds(src: seq<byte>, cfg: Config, ip: nat, out: seq<byte>)
    requires cfg.safe && cfg.iend <= |src| && ip <= cfg.iend && |out| <= cfg.oend && Decode(src, cfg, ip, out).Done?
    ensures var r := Decode(src, cfg, ip, out); r.ip == cfg.iend && |r.out| <= cfg.oend
    decreases |src| - ip
  {
    hide Step;
    SafeStepBounds(src, cfg, ip, out);
    StepGrows(src, cfg, ip, out);
    var s := Step(src, cfg, ip, out);
    if s.More? {
      DoneEnds(src, cfg, s.ip, s.out);
    }
  }

  /** A safe decoding succeeds if and only if its input is a block, up to the low half of the last token,
      that keeps the decoder's conditions sequence by sequence and whose meaning fits the output; and then
      that meaning is the output. */
  lemma SafeAcceptsIff(src: seq<byte>, cfg: Config, ip: nat, out: seq<byte>)
    requires cfg.safe && cfg.iend <= |src| && ip <= cfg.iend && |out| <= cfg.oend
    ensures Decode(src, cfg, ip, out).Done? <==>
            exists b: Block, low: nat :: ReadsBlock(src, cfg, ip, out, b, low, cfg.iend, ExpandBlock(out, b)) && |ExpandBlock(out, b)| <= cfg.oend
    ensures forall b: Block, low: nat ::
              ReadsBlock(src, cfg, ip, out, b, low, cfg.iend, ExpandBlock(out, b)) && |ExpandBlock(out, b)| <= cfg.oend ==>
                Decode(src, cfg, ip, out) == Done(cfg.iend, ExpandBlock(out, b))
  {
    hide Step, Decode, ReadsBlock, ExpandBlock;
    if Decode(src, cfg, ip, out).Done? {
      var b, low := DecodeReads(src, cfg, ip, out);
      DoneEnds(src, cfg, ip, out);
      ResultIs(src, cfg, ip, out, b, low, Decode(src, cfg, ip, out).ip, Decode(src, cfg, ip, out).out);
    }
    forall b: Block, low: nat
      | ReadsBlock(src, cfg, ip, out, b, low, cfg.iend, ExpandBlock(out, b)) && |ExpandBlock(out, b)| <= cfg.oend
      ensures Decode(src, cfg, ip, out) == Done(cfg.iend, ExpandBlock(out, b))
    {
      AcceptedDecodes(src, cfg, ip, out, b, low);
    }
  }

  lemma ResultIs(src: seq<byte>, cfg: Config, ip: nat, out: seq<byte>, b: Block, low: nat, end: nat, result: seq<byte>)
    requires ReadsBlock(src, cfg, ip, out, b, low, end, result)
    ensures result == ExpandBlock(out, b)
  {
  }

  /** No turn goes on with a match that reads before the start of the history. */
  lemma FarOffsetFails(src: seq<byte>, cfg: Config, ip: nat, out: seq<byte>, s: Sequence)
    requires cfg.safe && cfg.iend <= |src| && s.matchLength >= MINMATCH && s.offset <= MAX_DISTANCE
    requires At(src, ip, EncodeSequence(s)) && s.offset > |out| + |s.literals|
    ensures !Step(src, cfg, ip, out).More?
  {
    hide Step, Extra, Token, Le16;
    if Step(src, cfg, ip, out).More? {
      var t := StepReads(src, cfg, ip, out);
      SameSequence(src, ip, Step(src, cfg, ip, out).ip, s, t);
    }
  }

  /** A sequence can be read in one way only. */
  lemma SameSequence(src: seq<byte>, ip: nat, end: nat, s: Sequence, t: Sequence)
    requires s.matchLength >= MINMATCH && t.matchLength >= MINMATCH && s.offset <= MAX_DISTANCE && t.offset <= MAX_DISTANCE
    requires At(src, ip, EncodeSequence(s)) && ip <= end <= |src| && src[ip..end] == EncodeSequence(t)
    ensures s.literals == t.literals && s.offset == t.offset
  {
    hide At, EncodeSequence, Extra, Token, Nibble, HighNibble, Le16, ReadLe16;
    assert At(src, ip, EncodeSequence(t)) by {
      AtHere(src, ip, end, EncodeSequence(t));
    }
    SequenceParts(src, ip, s);
    SequenceParts(src, ip, t);
    SameLength(src, ip, |s.literals|, |t.literals|, s.matchLength - MINMATCH, t.matchLength - MINMATCH);
    var ip2 := ip + 1 + |Extra(|s.literals|)|;
    AtIs(src, ip2, s.literals);
    AtIs(src, ip2, t.literals);
    Le16ReadsBack(src, ip2 + |s.literals|, s.offset);
    Le16ReadsBack(src, ip2 + |s.literals|, t.offset);
  }

  lemma AtHere(src: seq<byte>, ip: nat, end: nat, bytes: seq<byte>)
    requires ip <= end <= |src| && src[ip..end] == bytes
    ensures At(src, ip, bytes)
  {
  }

  lemma SameLength(src: seq<byte>, ip: nat, a: nat, b: nat, ma: nat, mb: nat)
    requires ip < |src| && src[ip] == Token(a, ma) && src[ip] == Token(b, mb)
    requires At(src, ip + 1, Extra(a)) && At(src, ip + 1, Extra(b))
    ensures a == b
  {
    hide Token;
    assert Nibble(a) == HighNibble(src[ip]) == Nibble(b);
    if a >= 15 {
      var stop := |src| + 1;
      ReadsLiteralRun(src, ip + 1, stop, 15, a - 15);
      ReadsLiteralRun(src, ip + 1, stop, 15, b - 15);
    }
  }

  /** LZ4_decompress_safe on memory that holds its input and perhaps more: with room for output it
      succeeds exactly on such a block, and returns the length of what the block stands for. */
  lemma SafeCallIff(src: seq<byte>, srcSize: nat, hist: seq<byte>, outputSize: nat, r: int)
    requires srcSize <= |src| && outputSize > 0
    requires Lz4Decoder.Returns(r, Lz4Decoder.Outcome(src, srcSize, true, hist, outputSize), true, |hist|)
    ensures var cfg := Lz4Decoder.Setup(true, srcSize, hist, outputSize);
            r >= 0 <==> exists b: Block, low: nat ::
                          ReadsBlock(src, cfg, 0, hist, b, low, srcSize, ExpandBlock(hist, b)) && |ExpandBlock(hist, b)| <= |hist| + outputSize
    ensures var cfg := Lz4Decoder.Setup(true, srcSize, hist, outputSize);
            forall b: Block, low: nat ::
              ReadsBlock(src, cfg, 0, hist, b, low, srcSize, ExpandBlock(hist, b)) && |ExpandBlock(hist, b)| <= |hist| + outputSize ==>
                r == |ExpandBlock(hist, b)| - |hist|
  {
    hide ReadsBlock, ExpandBlock, Decode;
    var cfg := Lz4Decoder.Setup(true, srcSize, hist, outputSize);
    SafeAcceptsIff(src, cfg, 0, hist);
    DecodeExtends(src, cfg, 0, hist);
  }

  lemma {:induction false} DecodeExtends(src: seq<byte>, cfg: Config, ip: nat, out: seq<byte>)
    requires (cfg.safe ==> cfg.iend <= |src|) && |out| <= cfg.oend
    ensures Decode(src, cfg, ip, out).Done? ==> out <= Decode(src, cfg, ip, out).out
    decreases |src| - ip
  {
    hide Step;
    StepGrows(src, cfg, ip, out);
    var s := Step(src, cfg, ip, out);
    if s.More? {
      var first := StepReads(src, cfg, ip, out);
      DecodeExtends(src, cfg, s.ip, s.out);
    }
  }
}
