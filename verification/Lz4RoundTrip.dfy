/** Decoding undoes encoding, for every restricted block and every history; and the fast path for
    short sequences agrees with the general path exactly when the general path accepts. */
module Lz4RoundTrip {
  import opened Lz4Block
  import opened Lz4Reference

  // ----- Reading back a length -----

  lemma {:induction false} ReadsLiteralRun(src: seq<byte>, ip: nat, stop: int, length: nat, n: nat)
    requires ip + |LengthBytes(n)| <= |src| && src[ip..ip + |LengthBytes(n)|] == LengthBytes(n)
    requires ip + |LengthBytes(n)| <= stop
    ensures LiteralRun(src, ip, stop, length) == Run(ip + |LengthBytes(n)|, length + n)
    decreases n
  {
    assert src[ip] == LengthBytes(n)[0];
    if n >= 255 {
      assert src[ip + 1..ip + |LengthBytes(n)|] == LengthBytes(n)[1..] == LengthBytes(n - 255);
      ReadsLiteralRun(src, ip + 1, stop, length + 255, n - 255);
    }
  }

  lemma {:induction false} ReadsMatchRun(src: seq<byte>, safe: bool, ip: nat, limit: int, length: nat, n: nat)
    requires ip + |LengthBytes(n)| <= |src| && src[ip..ip + |LengthBytes(n)|] == LengthBytes(n)
    requires safe ==> ip + |LengthBytes(n)| <= limit
    ensures MatchRun(src, safe, ip, limit, length) == Run(ip + |LengthBytes(n)|, length + n)
    decreases n
  {
    assert src[ip] == LengthBytes(n)[0];
    if n >= 255 {
      assert src[ip + 1..ip + |LengthBytes(n)|] == LengthBytes(n)[1..] == LengthBytes(n - 255);
      ReadsMatchRun(src, safe, ip + 1, limit, length + 255, n - 255);
    }
  }

  /** `bytes` lies in `src` at `ip`. */
  ghost predicate At(src: seq<byte>, ip: nat, bytes: seq<byte>) {
    ip + |bytes| <= |src| && src[ip..ip + |bytes|] == bytes
  }

  lemma AtSplit(src: seq<byte>, ip: nat, a: seq<byte>, b: seq<byte>)
    requires At(src, ip, a + b)
    ensures At(src, ip, a) && At(src, ip + |a|, b)
  {
    assert src[ip..ip + |a|] == src[ip..ip + |a + b|][..|a|] == a;
    assert src[ip + |a|..ip + |a| + |b|] == src[ip..ip + |a + b|][|a|..] == b;
  }

  lemma ReadsLiteralLength(src: seq<byte>, cfg: Config, token: byte, ip: nat, n: nat)
    requires HighNibble(token) == Nibble(n)
    requires At(src, ip, Extra(n))
    requires cfg.safe && n >= 15 ==> ip + |Extra(n)| + 15 <= cfg.iend
    ensures LiteralLength(src, cfg, token, ip) == Run(ip + |Extra(n)|, n)
  {
    if n >= 15 {
      ReadsLiteralRun(src, ip, LiteralStop(src, cfg), 15, n - 15);
    }
  }

  lemma ReadsMatchLength(src: seq<byte>, cfg: Config, token: byte, ip: nat, n: nat)
    requires LowNibble(token) == Nibble(n)
    requires At(src, ip, Extra(n))
    requires cfg.safe && n >= 15 ==> ip + |Extra(n)| + LASTLITERALS <= cfg.iend
    ensures MatchLength(src, cfg, token, ip) == Run(ip + |Extra(n)|, n)
  {
    if n >= 15 {
      ReadsMatchRun(src, cfg.safe, ip, cfg.iend - LASTLITERALS, 15, n - 15);
    }
  }

  // ----- Reading back a sequence -----

  /** A sequence fits at (ip, out) when what follows it leaves room for the last literals. */
  ghost predicate SequenceFits(src: seq<byte>, cfg: Config, ip: nat, out: seq<byte>, s: Sequence) {
    && s.matchLength >= MINMATCH
    && 1 <= s.offset <= MAX_DISTANCE
    && s.offset <= |out| + |s.literals|
    && At(src, ip, EncodeSequence(s))
    && ip + |EncodeSequence(s)| + 1 + LASTLITERALS <= |src|
    && (cfg.safe ==> ip + |EncodeSequence(s)| + 1 + LASTLITERALS <= cfg.iend <= |src|)
    && |out| + |s.literals| + MFLIMIT <= cfg.oend
    && |out| + |s.literals| + s.matchLength + LASTLITERALS <= cfg.oend
  }

  lemma Le16ReadsBack(src: seq<byte>, ip: nat, offset: nat)
    requires At(src, ip, Le16(offset)) && offset <= MAX_DISTANCE
    ensures ReadLe16(src, ip) == offset
  {
    assert src[ip] == src[ip..ip + 2][0] && src[ip + 1] == src[ip..ip + 2][1];
  }

  lemma AtIs(src: seq<byte>, ip: nat, bytes: seq<byte>)
    requires At(src, ip, bytes)
    ensures ip + |bytes| <= |src| && src[ip..ip + |bytes|] == bytes
  {
  }

  lemma AtSplitFive(src: seq<byte>, ip: nat, a: seq<byte>, b: seq<byte>, c: seq<byte>, d: seq<byte>, e: seq<byte>)
    requires At(src, ip, a + (b + (c + (d + e))))
    ensures At(src, ip, a)
    ensures At(src, ip + |a|, b)
    ensures At(src, ip + |a| + |b|, c)
    ensures At(src, ip + |a| + |b| + |c|, d)
    ensures At(src, ip + |a| + |b| + |c| + |d|, e)
  {
    AtSplit(src, ip, a, b + (c + (d + e)));
    AtSplit(src, ip + |a|, b, c + (d + e));
    AtSplit(src, ip + |a| + |b|, c, d + e);
    AtSplit(src, ip + |a| + |b| + |c|, d, e);
  }

  lemma AtByte(src: seq<byte>, ip: nat, x: byte)
    requires At(src, ip, [x])
    ensures ip < |src| && src[ip] == x
  {
    assert src[ip] == src[ip..ip + 1][0];
  }

  lemma SequenceParts(src: seq<byte>, ip: nat, s: Sequence)
    requires s.matchLength >= MINMATCH
    requires At(src, ip, EncodeSequence(s))
    ensures ip < |src| && src[ip] == Token(|s.literals|, s.matchLength - MINMATCH)
    ensures var ip2 := ip + 1 + |Extra(|s.literals|)|;
            var ip3 := ip2 + |s.literals|;
            && At(src, ip + 1, Extra(|s.literals|))
            && At(src, ip2, s.literals)
            && At(src, ip3, Le16(s.offset))
            && At(src, ip3 + 2, Extra(s.matchLength - MINMATCH))
            && ip3 + 2 + |Extra(s.matchLength - MINMATCH)| == ip + |EncodeSequence(s)|
  {
    hide At, Token, Extra, Nibble, HighNibble, LowNibble;
    var token := Token(|s.literals|, s.matchLength - MINMATCH);
    AtSplitFive(src, ip, [token], Extra(|s.literals|), s.literals, Le16(s.offset), Extra(s.matchLength - MINMATCH));
    AtByte(src, ip, token);
  }

  lemma StepReadsSequence(src: seq<byte>, cfg: Config, ip: nat, out: seq<byte>, s: Sequence)
    requires cfg.safe ==> cfg.iend <= |src|
    requires SequenceFits(src, cfg, ip, out, s)
    ensures Step(src, cfg, ip, out) == More(ip + |EncodeSequence(s)|, Expand(out, s))
  {
    hide GeneralStep, ShortcutStep, EncodeSequence, Expand, At, ReadLe16, HighNibble, LowNibble;
    SequenceParts(src, ip, s);
    if TakesShortcut(src, cfg, src[ip], ip + 1, |out|) {
      ShortcutReadsSequence(src, cfg, ip, out, s);
    } else {
      GeneralReadsSequence(src, cfg, ip, out, s);
    }
  }

  lemma ShortcutReadsSequence(src: seq<byte>, cfg: Config, ip: nat, out: seq<byte>, s: Sequence)
    requires cfg.safe && cfg.iend <= |src| && ip < |src| && TakesShortcut(src, cfg, src[ip], ip + 1, |out|)
    requires SequenceFits(src, cfg, ip, out, s)
    ensures ShortcutStep(src, ip, out) == More(ip + |EncodeSequence(s)|, Expand(out, s))
  {
    hide At, Token, HighNibble, LowNibble, EncodeSequence, ByteCopy, ReadLe16, Le16;
    SequenceParts(src, ip, s);
    var x := Extra(|s.literals|);
    var ip2 := ip + 1 + |x|;
    AtIs(src, ip2, s.literals);
    Le16ReadsBack(src, ip2 + |s.literals|, s.offset);
    assert |s.literals| == HighNibble(src[ip]) && |x| == 0;
    assert s.matchLength - MINMATCH == LowNibble(src[ip]);
  }

  lemma GeneralReadsSequence(src: seq<byte>, cfg: Config, ip: nat, out: seq<byte>, s: Sequence)
    requires ip < |src| && (cfg.safe ==> cfg.iend <= |src|)
    requires SequenceFits(src, cfg, ip, out, s)
    ensures GeneralStep(src, cfg, ip, out) == More(ip + |EncodeSequence(s)|, Expand(out, s))
  {
    hide At, Token, Extra, HighNibble, LowNibble, EncodeSequence, LiteralLength, MatchLength, MatchStep, ByteCopy, CopyEnd, Le16;
    SequenceParts(src, ip, s);
    var x := Extra(|s.literals|);
    var ip2 := ip + 1 + |x|;
    var ip3 := ip2 + |s.literals|;
    AtIs(src, ip2, s.literals);
    ReadsLiteralLength(src, cfg, src[ip], ip + 1, |s.literals|);
    assert !IsLast(cfg, ip3, |out| + |s.literals|);
    MatchReadsBack(src, cfg, ip, ip3, out, s);
  }

  lemma MatchReadsBack(src: seq<byte>, cfg: Config, ip: nat, ip3: nat, out: seq<byte>, s: Sequence)
    requires ip < |src| && (cfg.safe ==> cfg.iend <= |src|)
    requires SequenceFits(src, cfg, ip, out, s) && ip3 == ip + 1 + |Extra(|s.literals|)| + |s.literals|
    ensures ip3 + 2 <= |src| && MatchStep(src, cfg, src[ip], ip3, out + s.literals) == More(ip + |EncodeSequence(s)|, Expand(out, s))
  {
    hide At, Token, Extra, HighNibble, LowNibble, EncodeSequence, MatchLength, ByteCopy, ReadLe16, Le16;
    SequenceParts(src, ip, s);
    Le16ReadsBack(src, ip3, s.offset);
    ReadsMatchLength(src, cfg, src[ip], ip3 + 2, s.matchLength - MINMATCH);
  }

  lemma StepReadsLast(src: seq<byte>, cfg: Config, ip: nat, out: seq<byte>, last: seq<byte>)
    requires At(src, ip, EncodeLast(last))
    requires cfg.safe ==> cfg.iend == ip + |EncodeLast(last)| && |out| + |last| <= cfg.oend
    requires !cfg.safe ==> |out| + |last| == cfg.oend
    ensures Step(src, cfg, ip, out) == Done(ip + |EncodeLast(last)|, out + last)
  {
    hide At, Token, Extra, HighNibble, LowNibble, LiteralLength, MatchLength, ByteCopy;
    var token := Token(|last|, 0);
    var x := Extra(|last|);
    AtSplit(src, ip, [token], x + last);
    AtByte(src, ip, token);
    AtSplit(src, ip + 1, x, last);
    AtIs(src, ip + 1 + |x|, last);
    assert !TakesShortcut(src, cfg, src[ip], ip + 1, |out|);
    ReadsLiteralLength(src, cfg, src[ip], ip + 1, |last|);
  }

  // ----- Reading back a block -----

  lemma {:induction false} PrefixStep(hist: seq<byte>, ss: seq<Sequence>, k: nat)
    requires LongMatches(ss) && k < |ss|
    ensures LongMatches(ss[..k]) && LongMatches(ss[..k + 1])
    ensures EncodeAll(ss[..k + 1]) == EncodeAll(ss[..k]) + EncodeSequence(ss[k])
    ensures ExpandAll(hist, ss[..k + 1]) == Expand(ExpandAll(hist, ss[..k]), ss[k])
  {
    hide EncodeSequence, Expand;
    assert ss[..k + 1][..k] == ss[..k];
  }

  lemma {:induction false} EncodeAllPrefix(ss: seq<Sequence>, k: nat)
    requires LongMatches(ss) && k <= |ss|
    ensures LongMatches(ss[..k])
    ensures EncodeAll(ss[..k]) <= EncodeAll(ss)
    decreases |ss| - k
  {
    hide EncodeSequence;
    if k == |ss| {
      assert ss[..k] == ss;
    } else {
      EncodeAllPrefix(ss, k + 1);
      PrefixStep([], ss, k);
    }
  }

  /** The bytes of sequence `k` lie right after those of the sequences before it. */
  lemma SequenceAt(src: seq<byte>, ss: seq<Sequence>, k: nat)
    requires LongMatches(ss) && k < |ss| && EncodeAll(ss) <= src
    ensures LongMatches(ss[..k]) && LongMatches(ss[..k + 1])
    ensures At(src, |EncodeAll(ss[..k])|, EncodeSequence(ss[k]))
    ensures |EncodeAll(ss[..k])| + |EncodeSequence(ss[k])| <= |EncodeAll(ss)|
  {
    hide EncodeSequence, EncodeAll;
    PrefixStep([], ss, k);
    EncodeAllPrefix(ss, k + 1);
    assert EncodeAll(ss[..k]) + EncodeSequence(ss[k]) <= src;
  }

  /** What `Decode` is asked to do with the bytes of `b`. */
  ghost predicate Presents(src: seq<byte>, cfg: Config, hist: seq<byte>, b: Block) {
    && Restricted(hist, b)
    && EncodeBlock(b) <= src
    && (cfg.safe ==> cfg.iend == |EncodeBlock(b)| && |ExpandBlock(hist, b)| <= cfg.oend)
    && (!cfg.safe ==> |ExpandBlock(hist, b)| == cfg.oend)
  }

  /** The last five bytes of a block with a match are literals. */
  lemma LastLiteralsRemain(hist: seq<byte>, b: Block)
    requires Restricted(hist, b) && b.sequences != []
    ensures |b.last| >= LASTLITERALS
  {
    var n := |b.sequences|;
    assert RestrictedAt(hist, b.sequences, n - 1, |ExpandBlock(hist, b)|);
  }

  lemma FitsAt(src: seq<byte>, cfg: Config, hist: seq<byte>, b: Block, k: nat)
    requires Presents(src, cfg, hist, b) && k < |b.sequences|
    ensures LongMatches(b.sequences[..k])
    ensures SequenceFits(src, cfg, |EncodeAll(b.sequences[..k])|, ExpandAll(hist, b.sequences[..k]), b.sequences[k])
  {
    hide At, EncodeSequence, EncodeAll, ExpandAll, Extra;
    var ss := b.sequences;
    LastLiteralsRemain(hist, b);
    assert RestrictedAt(hist, ss, k, |ExpandBlock(hist, b)|);
    assert EncodeAll(ss) <= EncodeBlock(b) <= src;
    SequenceAt(src, ss, k);
  }

  lemma LastAt(src: seq<byte>, cfg: Config, hist: seq<byte>, b: Block)
    requires Presents(src, cfg, hist, b)
    ensures Step(src, cfg, |EncodeAll(b.sequences)|, ExpandAll(hist, b.sequences))
         == Done(|EncodeBlock(b)|, ExpandBlock(hist, b))
  {
    hide EncodeLast, EncodeAll, ExpandAll, Step;
    var ip := |EncodeAll(b.sequences)|;
    assert src[ip..ip + |EncodeLast(b.last)|] == EncodeLast(b.last);
    StepReadsLast(src, cfg, ip, ExpandAll(hist, b.sequences), b.last);
  }

  lemma {:induction false} DecodeFrom(src: seq<byte>, cfg: Config, hist: seq<byte>, b: Block, k: nat)
    requires Presents(src, cfg, hist, b) && k <= |b.sequences|
    ensures LongMatches(b.sequences[..k])
    ensures Decode(src, cfg, |EncodeAll(b.sequences[..k])|, ExpandAll(hist, b.sequences[..k]))
         == Done(|EncodeBlock(b)|, ExpandBlock(hist, b))
    decreases |b.sequences| - k
  {
    hide EncodeAll, ExpandAll, EncodeBlock, ExpandBlock, Step, Expand, EncodeSequence;
    var ss := b.sequences;
    if k == |ss| {
      assert ss[..k] == ss;
      LastAt(src, cfg, hist, b);
    } else {
      FitsAt(src, cfg, hist, b, k);
      PrefixStep(hist, ss, k);
      StepReadsSequence(src, cfg, |EncodeAll(ss[..k])|, ExpandAll(hist, ss[..k]), ss[k]);
      DecodeFrom(src, cfg, hist, b, k + 1);
    }
  }

  /** Round trip: in either decoder mode, with or without the fast path, whatever follows the block
      in memory, decoding the bytes of a restricted block consumes exactly those bytes and yields
      exactly what the block stands for. */
  lemma DecodeInvertsEncode(src: seq<byte>, cfg: Config, hist: seq<byte>, b: Block)
    requires Presents(src, cfg, hist, b)
    ensures Decode(src, cfg, 0, hist) == Done(|EncodeBlock(b)|, ExpandBlock(hist, b))
  {
    DecodeFrom(src, cfg, hist, b, 0);
    assert b.sequences[..0] == [];
  }

  /** A restricted block that adds nothing is the single byte 0 (both decoders test for it first). */
  lemma EmptyBlock(hist: seq<byte>, b: Block)
    requires Restricted(hist, b) && |ExpandBlock(hist, b)| == |hist|
    ensures EncodeBlock(b) == [0]
  {
    hide EncodeAll, ExpandAll, EncodeSequence, EncodeLast, Restricted, RestrictedAll, RestrictedAt, LongMatches;
    ExpandGrows(hist, b.sequences);
    if b.sequences != [] {
      LastLiteralsRemain(hist, b);
    }
    EncodeLastOfNone(b.last);
    assert b.sequences == [];
    EncodeAllOfNone(b.sequences);
  }

  lemma EncodeAllOfNone(ss: seq<Sequence>)
    requires ss == []
    ensures LongMatches(ss) && EncodeAll(ss) == []
  {
    hide EncodeSequence;
  }

  lemma EncodeLastOfNone(last: seq<byte>)
    requires last == []
    ensures EncodeLast(last) == [0]
  {
    hide LengthBytes;
    assert Extra(|last|) == [];
    assert Token(|last|, 0) == 0;
  }

  // ----- The fast path against the general path -----

  /** When the fast path is open, the general path does the same thing if and only if the sequence
      keeps the end-of-block margins; otherwise the general path is an error. */
  lemma ShortcutAgreesIff(src: seq<byte>, cfg: Config, ip: nat, out: seq<byte>)
    requires cfg.safe && cfg.iend <= |src| && ip < |src|
    requires TakesShortcut(src, cfg, src[ip], ip + 1, |out|)
    ensures var ll, ml := HighNibble(src[ip]), LowNibble(src[ip]) + MINMATCH;
            var keepsMargins := ip + 1 + ll + 8 <= cfg.iend && |out| + ll + ml + LASTLITERALS <= cfg.oend;
            && (GeneralStep(src, cfg, ip, out) == ShortcutStep(src, ip, out) <==> keepsMargins)
            && (!keepsMargins ==> GeneralStep(src, cfg, ip, out).Error?)
  {
  }

  lemma GeneralStepIgnoresShortcut(src: seq<byte>, cfg: Config, ip: nat, out: seq<byte>)
    requires ip < |src|
    ensures GeneralStep(src, cfg.(shortcut := true), ip, out) == GeneralStep(src, cfg.(shortcut := false), ip, out)
  {
    hide ByteCopy, HighNibble, LowNibble, CopyEnd, LiteralRun, MatchStep, LastStep;
    forall ip2: nat, t: seq<byte> | ip2 + 2 <= |src|
      ensures MatchStep(src, cfg.(shortcut := true), src[ip], ip2, t) == MatchStep(src, cfg.(shortcut := false), src[ip], ip2, t)
    {
      MatchStepIgnoresShortcut(src, cfg, src[ip], ip2, t);
    }
    forall ip2: nat, n: nat
      ensures LastStep(src, cfg.(shortcut := true), ip2, n, out) == LastStep(src, cfg.(shortcut := false), ip2, n, out)
    {
      LastStepIgnoresShortcut(src, cfg, ip2, n, out);
    }
  }

  lemma MatchStepIgnoresShortcut(src: seq<byte>, cfg: Config, token: byte, ip: nat, out: seq<byte>)
    requires ip + 2 <= |src|
    ensures MatchStep(src, cfg.(shortcut := true), token, ip, out) == MatchStep(src, cfg.(shortcut := false), token, ip, out)
  {
    hide ByteCopy, LowNibble, MatchRun, ReadLe16;
  }

  lemma LastStepIgnoresShortcut(src: seq<byte>, cfg: Config, ip: nat, length: nat, out: seq<byte>)
    ensures LastStep(src, cfg.(shortcut := true), ip, length, out) == LastStep(src, cfg.(shortcut := false), ip, length, out)
  {
  }

  /** Whatever the general path alone accepts, the decoder with the fast path accepts, with the same
      output. */
  lemma {:induction false} GeneralAcceptsImpliesSame(src: seq<byte>, cfg: Config, ip: nat, out: seq<byte>)
    requires cfg.safe && cfg.iend <= |src|
    requires Decode(src, cfg.(shortcut := false), ip, out).Done?
    ensures Decode(src, cfg.(shortcut := true), ip, out) == Decode(src, cfg.(shortcut := false), ip, out)
    decreases |src| - ip
  {
    hide GeneralStep, ShortcutStep;
    var fast, slow := cfg.(shortcut := true), cfg.(shortcut := false);
    assert ip < |src| && !TakesShortcut(src, slow, src[ip], ip + 1, |out|);
    GeneralStepIgnoresShortcut(src, cfg, ip, out);
    if TakesShortcut(src, fast, src[ip], ip + 1, |out|) {
      ShortcutAgreesIff(src, fast, ip, out);
    }
    var s := Step(src, slow, ip, out);
    assert Step(src, fast, ip, out) == s;
    if s.More? {
      GeneralAcceptsImpliesSame(src, cfg, s.ip, s.out);
    }
  }

  /** The converse fails: with 18 bytes of history, this 18-byte block ends in no literals at all.
      The general path rejects it, the fast path accepts it. */
  lemma ShortcutAcceptsMore()
    ensures var hist: seq<byte> := seq(18, _ => 0);
            var src: seq<byte> := [14 * 16] + seq(14, _ => 7) + [18, 0] + [0] + [0, 0];
            && Decode(src, Config(true, 18, 50, true), 0, hist).Done?
            && Decode(src, Config(true, 18, 50, false), 0, hist).Error?
  {
    var hist: seq<byte> := seq(18, _ => 0);
    var src: seq<byte> := [14 * 16] + seq(14, _ => 7) + [18, 0] + [0] + [0, 0];
    assert src[15] == 18 && src[16] == 0 && src[17] == 0;
    var fast, slow := Config(true, 18, 50, true), Config(true, 18, 50, false);
    assert Step(src, slow, 0, hist).Error?;
    var s := Step(src, fast, 0, hist);
    assert s == ShortcutStep(src, 0, hist);
    assert s.More? && s.ip == 17;
    assert Step(src, fast, 17, s.out).Done?;
  }
}
