/** Where LZ4_decompress_safe reads memory behind its input.  Here `src` is the input and nothing else,
    so a step that needs a byte behind it is `Outside`. */
module Lz4InputEnd {
  import opened Lz4Block
  import opened Lz4Reference
  import Lz4Codec
  import Lz4Decoder

  /** A turn that starts here has no token, or a token that announces a length byte that is not there. */
  predicate ReadsBehind(src: seq<byte>, ip: nat)
    requires ip <= |src|
  {
    ip == |src| || (ip + 1 == |src| && HighNibble(src[ip]) == 15)
  }

  /** A turn reads behind the input if and only if it starts in one of these two ways. */
  lemma StepOutsideIff(src: seq<byte>, cfg: Config, ip: nat, out: seq<byte>)
    requires cfg.safe && cfg.iend == |src| && ip <= |src|
    ensures Step(src, cfg, ip, out).Outside? <==> ReadsBehind(src, ip)
  {
    hide ByteCopy, CopyEnd, HighNibble, LowNibble, ReadLe16;
    if ip < |src| && !TakesShortcut(src, cfg, src[ip], ip + 1, |out|) && !ReadsBehind(src, ip) {
      if ip + 1 < |src| {
        SafeLiteralRun(src, ip + 1, cfg.iend - RUN_MASK, 15);
      }
      var Run(ip2, length) := LiteralLength(src, cfg, src[ip], ip + 1);
      if !IsLast(cfg, ip2 + length, |out| + length) {
        SafeMatchRun(src, ip2 + length + 2, cfg.iend - LASTLITERALS, 15);
      }
    }
  }

  /** Decoding from (ip, out) comes to a turn that starts at `p`. */
  ghost predicate Reaches(src: seq<byte>, cfg: Config, ip: nat, out: seq<byte>, p: nat)
    requires cfg.safe && cfg.iend == |src|
    decreases |src| - ip
  {
    ip == p ||
    var s := Step(src, cfg, ip, out);
    s.More? && ip < s.ip <= |src| && Reaches(src, cfg, s.ip, s.out, p)
  }

  /** Some turn that is reached reads behind the input. */
  ghost predicate ComesToReadBehind(src: seq<byte>, cfg: Config, ip: nat, out: seq<byte>)
    requires cfg.safe && cfg.iend == |src|
  {
    exists p :: 0 <= p <= |src| && ReadsBehind(src, p) && Reaches(src, cfg, ip, out, p)
  }

  lemma {:induction false} DecodeOutsideIff(src: seq<byte>, cfg: Config, ip: nat, out: seq<byte>)
    requires cfg.safe && cfg.iend == |src| && ip <= |src| && |out| <= cfg.oend
    ensures Decode(src, cfg, ip, out).Outside? <==> ComesToReadBehind(src, cfg, ip, out)
    decreases |src| - ip
  {
    hide Step, ReadsBehind;
    StepOutsideIff(src, cfg, ip, out);
    var s := Step(src, cfg, ip, out);
    assert ReadsBehind(src, ip) ==> Reaches(src, cfg, ip, out, ip);
    SafeEnds(src, cfg, ip, out);
    if s.More? {
      StepGrows(src, cfg, ip, out);
      SafeStepBounds(src, cfg, ip, out);
      DecodeOutsideIff(src, cfg, s.ip, s.out);
      forall p | 0 <= p <= |src| && ReadsBehind(src, p) && Reaches(src, cfg, s.ip, s.out, p)
        ensures Reaches(src, cfg, ip, out, p)
      {
      }
    }
  }

  lemma SafeEnds(src: seq<byte>, cfg: Config, ip: nat, out: seq<byte>)
    requires cfg.safe && cfg.iend == |src| && ip <= |src|
    ensures !Step(src, cfg, ip, out).More? ==> Decode(src, cfg, ip, out) == Step(src, cfg, ip, out)
    ensures var s := Step(src, cfg, ip, out);
            s.More? && ip < s.ip ==> Decode(src, cfg, ip, out) == Decode(src, cfg, s.ip, s.out)
  {
    hide Step;
  }

  /** A safe call reads behind its input if and only if it has room for output and comes to such a turn. */
  lemma CallReadsBehindIff(src: seq<byte>, hist: seq<byte>, outputSize: nat)
    ensures Lz4Decoder.Outcome(src, |src|, true, hist, outputSize).Outside?
       <==> outputSize > 0 && ComesToReadBehind(src, Lz4Decoder.Setup(true, |src|, hist, outputSize), 0, hist)
  {
    hide Decode, ComesToReadBehind;
    if outputSize > 0 {
      DecodeOutsideIff(src, Lz4Decoder.Setup(true, |src|, hist, outputSize), 0, hist);
    }
  }

  // ----- What the caller sees when memory is there -----

  lemma {:induction false} LiteralRunSame(src: seq<byte>, pad: seq<byte>, ip: nat, stop: int, length: nat)
    requires ip < |src| && stop <= |src|
    ensures LiteralRun(src + pad, ip, stop, length) == LiteralRun(src, ip, stop, length)
    decreases |src| - ip
  {
    if ip + 1 < stop && src[ip] == 255 {
      LiteralRunSame(src, pad, ip + 1, stop, length + 255);
    }
  }

  lemma {:induction false} MatchRunSame(src: seq<byte>, pad: seq<byte>, ip: nat, limit: int, length: nat)
    requires ip <= limit < |src|
    ensures MatchRun(src + pad, true, ip, limit, length) == MatchRun(src, true, ip, limit, length)
    ensures var r := MatchRun(src, true, ip, limit, length); r.RunError? ==> r.ip <= |src|
    decreases |src| - ip
  {
    if ip + 1 <= limit && src[ip] == 255 {
      MatchRunSame(src, pad, ip + 1, limit, length + 255);
    }
  }

  /** Memory behind the input makes no difference to a turn that stays inside, and its error, if any, is
      reported inside the input. */
  lemma StepSame(src: seq<byte>, pad: seq<byte>, cfg: Config, ip: nat, out: seq<byte>)
    requires cfg.safe && cfg.iend == |src| && ip <= |src| && !ReadsBehind(src, ip)
    ensures Step(src + pad, cfg, ip, out) == Step(src, cfg, ip, out)
    ensures var s := Step(src, cfg, ip, out); s.Error? ==> s.ip <= |src|
  {
    hide ByteCopy, HighNibble, LowNibble, LiteralRun, MatchRun;
    var token := src[ip];
    if TakesShortcut(src, cfg, token, ip + 1, |out|) {
      var ll := HighNibble(token);
      assert (src + pad)[ip + 1..ip + 1 + ll] == src[ip + 1..ip + 1 + ll];
    } else {
      GeneralStepSame(src, pad, cfg, ip, out);
    }
  }

  lemma GeneralStepSame(src: seq<byte>, pad: seq<byte>, cfg: Config, ip: nat, out: seq<byte>)
    requires cfg.safe && cfg.iend == |src| && ip <= |src| && !ReadsBehind(src, ip)
    ensures GeneralStep(src + pad, cfg, ip, out) == GeneralStep(src, cfg, ip, out)
    ensures var s := GeneralStep(src, cfg, ip, out); s.Error? ==> s.ip <= |src|
  {
    hide ByteCopy, HighNibble, LowNibble, LiteralRun, MatchRun, MatchStep;
    var token := src[ip];
    if ip + 1 < |src| {
      LiteralRunSame(src, pad, ip + 1, cfg.iend - RUN_MASK, 15);
      SafeLiteralRun(src, ip + 1, cfg.iend - RUN_MASK, 15);
    }
    var Run(ip2, length) := LiteralLength(src, cfg, token, ip + 1);
    assert LiteralLength(src + pad, cfg, token, ip + 1) == Run(ip2, length);
    if IsLast(cfg, ip2 + length, |out| + length) {
      assert ip2 + length == |src| ==> (src + pad)[ip2..ip2 + length] == src[ip2..ip2 + length];
    } else {
      assert (src + pad)[ip2..ip2 + length] == src[ip2..ip2 + length];
      MatchStepSame(src, pad, cfg, token, ip2 + length, out + src[ip2..ip2 + length]);
    }
  }

  lemma MatchStepSame(src: seq<byte>, pad: seq<byte>, cfg: Config, token: byte, ip: nat, out: seq<byte>)
    requires cfg.safe && cfg.iend == |src| && ip + 2 + 1 + LASTLITERALS <= |src|
    ensures MatchStep(src + pad, cfg, token, ip, out) == MatchStep(src, cfg, token, ip, out)
    ensures var s := MatchStep(src, cfg, token, ip, out); s.Error? ==> s.ip <= |src|
  {
    hide ByteCopy, LowNibble, MatchRun;
    MatchRunSame(src, pad, ip + 2, cfg.iend - LASTLITERALS, 15);
  }

  /** A turn that reads behind the input reports an error there. */
  lemma StepBehind(src: seq<byte>, pad: seq<byte>, cfg: Config, ip: nat, out: seq<byte>)
    requires cfg.safe && cfg.iend == |src| && ip <= |src| && ReadsBehind(src, ip) && |pad| >= 2
    ensures var s := Step(src + pad, cfg, ip, out); s.Error? && s.ip > |src|
  {
    hide ByteCopy, LowNibble;
    SafeLiteralRun(src + pad, ip + 1, cfg.iend - RUN_MASK, 15);
  }

  lemma {:induction false} DecodeSame(src: seq<byte>, pad: seq<byte>, cfg: Config, ip: nat, out: seq<byte>)
    requires cfg.safe && cfg.iend == |src| && ip <= |src| && |out| <= cfg.oend && |pad| >= 2
    ensures var r, r' := Decode(src, cfg, ip, out), Decode(src + pad, cfg, ip, out);
            if r.Outside? then r'.Error? && r'.ip > |src| else r' == r && (r.Error? ==> r.ip <= |src|)
    decreases |src| - ip
  {
    hide Step, ReadsBehind;
    StepOutsideIff(src, cfg, ip, out);
    if ReadsBehind(src, ip) {
      StepBehind(src, pad, cfg, ip, out);
    } else {
      StepSame(src, pad, cfg, ip, out);
      var s := Step(src, cfg, ip, out);
      if s.More? {
        StepGrows(src, cfg, ip, out);
        SafeStepBounds(src, cfg, ip, out);
        DecodeSame(src, pad, cfg, s.ip, s.out);
      }
    }
  }

  /** With memory behind the input the call has the same outcome, except that reading there shows as an
      error position behind the input: the caller finds a result below -1 - compressedSize. */
  lemma ResultTells(src: seq<byte>, pad: seq<byte>, hist: seq<byte>, outputSize: nat, r: int)
    requires |pad| >= 2
    requires Lz4Decoder.Returns(r, Lz4Decoder.Outcome(src + pad, |src|, true, hist, outputSize), true, |hist|)
    ensures var o := Lz4Decoder.Outcome(src, |src|, true, hist, outputSize);
            && (o.Outside? <==> r < -1 - |src|)
            && (!o.Outside? ==> Lz4Decoder.Outcome(src + pad, |src|, true, hist, outputSize) == o)
  {
    hide Decode;
    if outputSize > 0 {
      var cfg := Lz4Decoder.Setup(true, |src|, hist, outputSize);
      DecodeSame(src, pad, cfg, 0, hist);
    }
    Lz4Decoder.SafeOutcome(src + pad, |src|, hist, outputSize);
  }

  /** No call on a block, with any capacity that suffices, reads behind it. */
  lemma BlocksStayInside(bytes: seq<byte>, hist: seq<byte>, data: seq<byte>, capacity: nat)
    requires IsBlockFor(bytes, hist, data) && |data| <= capacity
    ensures !Lz4Decoder.Outcome(bytes, |bytes|, true, hist, capacity).Outside?
  {
    hide IsBlockFor, Lz4Decoder.Outcome;
    Lz4Codec.BlockDecodes(bytes, bytes, hist, data, capacity);
  }

  /** One byte of input, and one byte read behind it. */
  lemma OneByteReadsBehind()
    ensures Lz4Decoder.Outcome([0xF0], 1, true, [], 1).Outside?
  {
    var src: seq<byte> := [0xF0];
    var cfg := Lz4Decoder.Setup(true, 1, [], 1);
    assert ReadsBehind(src, 0) && Reaches(src, cfg, 0, [], 0);
    CallReadsBehindIff(src, [], 1);
  }

  /** No input at all, and its token read all the same. */
  lemma EmptyInputReadsBehind()
    ensures Lz4Decoder.Outcome([], 0, true, [], 1).Outside?
  {
    var src: seq<byte> := [];
    var cfg := Lz4Decoder.Setup(true, 0, [], 1);
    assert ReadsBehind(src, 0) && Reaches(src, cfg, 0, [], 0);
    CallReadsBehindIff(src, [], 1);
  }
}
