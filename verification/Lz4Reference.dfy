/** The decoder stated one sequence at a time over byte strings: no over-copying, no overlap tables.
    `Step` takes the branches of LZ4_decompress_generic in their order, so it is defined on every
    input, well formed or not; `Decode` iterates it.  The imperative decoder is proved against it,
    and the round-trip theorems are proved about it. */
module Lz4Reference {
  import opened Lz4Block

  /** `safe` is the source's endOnInputSize; `iend` and `oend` are the ends of the input and of the
      output, both counted from the start of the byte strings given to `Step`; `shortcut` says
      whether the fast path for short sequences is taken. */
  datatype Config = Config(safe: bool, iend: nat, oend: nat, shortcut: bool)

  /** `Outside`: the input makes the decoder leave the memory it was given (possible only when
      !safe, where the source trusts its input). */
  datatype StepResult =
    | More(ip: nat, out: seq<byte>)
    | Done(ip: nat, out: seq<byte>)
    | Error(ip: nat)
    | Outside

  datatype Run = Run(ip: nat, length: nat) | RunError(ip: nat) | RunOutside

  /** The literal-length loop: it stops at a byte other than 255, or when `ip` reaches `stop`. */
  function LiteralRun(src: seq<byte>, ip: nat, stop: int, length: nat): (r: Run)
    ensures r.Run? ==> ip < r.ip <= |src| && length <= r.length
    ensures !r.RunError?
    decreases |src| - ip
  {
    if ip >= |src| then RunOutside
    else if ip + 1 < stop && src[ip] == 255 then LiteralRun(src, ip + 1, stop, length + 255)
    else Run(ip + 1, length + src[ip])
  }

  /** The match-length loop: in safe mode it fails as soon as `ip` passes `limit`. */
  function MatchRun(src: seq<byte>, safe: bool, ip: nat, limit: int, length: nat): (r: Run)
    ensures r.Run? ==> ip < r.ip <= |src| && length <= r.length
    ensures r.Run? && safe ==> r.ip <= limit
    decreases |src| - ip
  {
    if ip >= |src| then RunOutside
    else if safe && ip + 1 > limit then RunError(ip + 1)
    else if src[ip] == 255 then MatchRun(src, safe, ip + 1, limit, length + 255)
    else Run(ip + 1, length + src[ip])
  }

  function LiteralStop(src: seq<byte>, cfg: Config): int {
    if cfg.safe then cfg.iend - RUN_MASK else |src| + 1
  }

  function LiteralLength(src: seq<byte>, cfg: Config, token: byte, ip: nat): (r: Run)
    ensures r.Run? ==> ip <= r.ip && (r.ip <= |src| || r.ip == ip)
    ensures !r.RunError?
  {
    if HighNibble(token) == 15 then LiteralRun(src, ip, LiteralStop(src, cfg), 15) else Run(ip, HighNibble(token))
  }

  function MatchLength(src: seq<byte>, cfg: Config, token: byte, ip: nat): (r: Run)
    ensures r.Run? ==> ip <= r.ip && (r.ip <= |src| || r.ip == ip)
  {
    if LowNibble(token) == 15 then MatchRun(src, cfg.safe, ip, cfg.iend - LASTLITERALS, 15) else Run(ip, LowNibble(token))
  }

  function ReadLe16(src: seq<byte>, ip: nat): (r: nat)
    requires ip + 2 <= |src|
    ensures r <= MAX_DISTANCE
  {
    var low: int, high: int := src[ip], src[ip + 1];
    low + 256 * high
  }

  /** The guard of the fast path; `ip` is already past the token. */
  predicate TakesShortcut(src: seq<byte>, cfg: Config, token: byte, ip: nat, outLen: nat)
    requires cfg.safe ==> cfg.iend <= |src|
  {
    && cfg.shortcut && cfg.safe
    && ip + 14 + 2 <= cfg.iend
    && outLen + 14 + 18 <= cfg.oend
    && HighNibble(token) != 15 && LowNibble(token) != 15
    && 18 <= ReadLe16(src, ip + HighNibble(token)) <= outLen + HighNibble(token)
  }

  /** Literals that end within the last 12 output bytes, or the last 8 input bytes, are the last. */
  predicate IsLast(cfg: Config, ipEnd: nat, outEnd: nat) {
    if cfg.safe then outEnd > cfg.oend - MFLIMIT || ipEnd > cfg.iend - (2 + 1 + LASTLITERALS)
    else outEnd > cfg.oend - WILDCOPYLENGTH
  }

  /** Where an 8-byte-at-a-time copy of `length` bytes stops. */
  function CopyEnd(length: nat): (r: nat)
    ensures length <= r <= length + 8 && 8 <= r
  {
    if length == 0 then 8 else (length + 7) / 8 * 8
  }

  function Step(src: seq<byte>, cfg: Config, ip: nat, out: seq<byte>): StepResult
    requires cfg.safe ==> cfg.iend <= |src|
  {
    if ip >= |src| then Outside
    else if TakesShortcut(src, cfg, src[ip], ip + 1, |out|) then ShortcutStep(src, ip, out)
    else GeneralStep(src, cfg, ip, out)
  }

  function ShortcutStep(src: seq<byte>, ip: nat, out: seq<byte>): StepResult
    requires ip < |src| && ip + 1 + HighNibble(src[ip]) + 2 <= |src|
  {
    var ll := HighNibble(src[ip]);
    More(ip + 1 + ll + 2,
         ByteCopy(out + src[ip + 1..ip + 1 + ll], ReadLe16(src, ip + 1 + ll), LowNibble(src[ip]) + MINMATCH))
  }

  function GeneralStep(src: seq<byte>, cfg: Config, ip: nat, out: seq<byte>): StepResult
    requires ip < |src|
  {
    match LiteralLength(src, cfg, src[ip], ip + 1)
    case RunOutside => Outside
    case RunError(e) => Error(e)
    case Run(ip2, length) =>
      if IsLast(cfg, ip2 + length, |out| + length) then LastStep(src, cfg, ip2, length, out)
      else if ip2 + CopyEnd(length) > |src| || ip2 + length + 2 > |src| then Outside
      else MatchStep(src, cfg, src[ip], ip2 + length, out + src[ip2..ip2 + length])
  }

  function LastStep(src: seq<byte>, cfg: Config, ip: nat, length: nat, out: seq<byte>): StepResult {
    if (if cfg.safe then ip + length != cfg.iend || |out| + length > cfg.oend else |out| + length != cfg.oend) then Error(ip)
    else if ip + length > |src| then Outside
    else Done(ip + length, out + src[ip..ip + length])
  }

  function MatchStep(src: seq<byte>, cfg: Config, token: byte, ip: nat, out: seq<byte>): StepResult
    requires ip + 2 <= |src|
  {
    var offset := ReadLe16(src, ip);
    if offset > |out| then (if cfg.safe then Error(ip + 2) else Outside)
    else
      match MatchLength(src, cfg, token, ip + 2)
      case RunOutside => Outside
      case RunError(e) => Error(e)
      case Run(ip3, length) =>
        if |out| + length + MINMATCH > cfg.oend - LASTLITERALS then Error(ip3)
        else More(ip3, ByteCopy(out, offset, length + MINMATCH))
  }

  function Decode(src: seq<byte>, cfg: Config, ip: nat, out: seq<byte>): StepResult
    requires cfg.safe ==> cfg.iend <= |src|
    decreases |src| - ip
  {
    match Step(src, cfg, ip, out)
    case More(ip', out') => if ip' <= ip then Outside else Decode(src, cfg, ip', out')
    case r => r
  }

  // ----- Every step makes progress and stays inside -----

  lemma StepGrows(src: seq<byte>, cfg: Config, ip: nat, out: seq<byte>)
    requires cfg.safe ==> cfg.iend <= |src|
    requires |out| <= cfg.oend
    ensures var s := Step(src, cfg, ip, out);
            && ((s.More? || s.Done?) ==> ip < s.ip && out <= s.out && |s.out| <= cfg.oend)
            && (s.Error? ==> ip < s.ip)
  {
    hide GeneralStep, ByteCopy, HighNibble, LowNibble;
    if ip < |src| {
      GeneralStepGrows(src, cfg, ip, out);
      if TakesShortcut(src, cfg, src[ip], ip + 1, |out|) {
        var ll := HighNibble(src[ip]);
        var o1 := out + src[ip + 1..ip + 1 + ll];
        ByteCopyPrefix(o1, ReadLe16(src, ip + 1 + ll), LowNibble(src[ip]) + MINMATCH);
        assert out <= o1;
      }
    }
  }

  lemma GeneralStepGrows(src: seq<byte>, cfg: Config, ip: nat, out: seq<byte>)
    requires ip < |src| && |out| <= cfg.oend
    ensures var s := GeneralStep(src, cfg, ip, out);
            && ((s.More? || s.Done?) ==> ip < s.ip && out <= s.out && |s.out| <= cfg.oend)
            && (s.Error? ==> ip < s.ip)
  {
    hide MatchStep, ByteCopy, HighNibble, LowNibble, CopyEnd;
    if LiteralLength(src, cfg, src[ip], ip + 1).Run? {
      var Run(ip2, length) := LiteralLength(src, cfg, src[ip], ip + 1);
      if !IsLast(cfg, ip2 + length, |out| + length) && ip2 + CopyEnd(length) <= |src| && ip2 + length + 2 <= |src| {
        MatchStepGrows(src, cfg, src[ip], ip2 + length, out + src[ip2..ip2 + length]);
      }
    }
  }

  lemma MatchStepGrows(src: seq<byte>, cfg: Config, token: byte, ip: nat, out: seq<byte>)
    requires ip + 2 <= |src|
    ensures var s := MatchStep(src, cfg, token, ip, out);
            && (s.More? ==> ip + 2 <= s.ip && out <= s.out && |s.out| <= cfg.oend)
            && !s.Done?
            && (s.Error? ==> ip + 2 <= s.ip)
  {
    if MatchLength(src, cfg, token, ip + 2).RunError? {
      MatchRunErrorAt(src, cfg.safe, ip + 2, cfg.iend - LASTLITERALS, 15);
    } else if MatchLength(src, cfg, token, ip + 2).Run? {
      ByteCopyPrefix(out, ReadLe16(src, ip), MatchLength(src, cfg, token, ip + 2).length + MINMATCH);
    }
  }

  lemma MatchRunErrorAt(src: seq<byte>, safe: bool, ip: nat, limit: int, length: nat)
    ensures var r := MatchRun(src, safe, ip, limit, length); r.RunError? ==> ip < r.ip
    decreases |src| - ip
  {
  }

  /** A safe turn inside the input goes on inside the input, or ends at its end. */
  lemma SafeStepBounds(src: seq<byte>, cfg: Config, ip: nat, out: seq<byte>)
    requires cfg.safe && cfg.iend <= |src| && ip <= cfg.iend
    ensures var s := Step(src, cfg, ip, out);
            && (s.More? ==> s.ip <= cfg.iend)
            && (s.Done? ==> s.ip == cfg.iend)
  {
    hide ByteCopy, HighNibble, LowNibble, CopyEnd, ReadLe16;
  }

  /** With two bytes of memory behind the input, holding anything, no safe turn leaves it: a token read
      at the end of the input, and one length byte after it. */
  lemma SafeStepStaysInside(src: seq<byte>, cfg: Config, ip: nat, out: seq<byte>)
    requires cfg.safe && cfg.iend + 2 <= |src| && ip <= cfg.iend
    ensures !Step(src, cfg, ip, out).Outside?
  {
    hide ByteCopy, CopyEnd;
    var token := src[ip];
    if !TakesShortcut(src, cfg, token, ip + 1, |out|) {
      SafeLiteralRun(src, ip + 1, cfg.iend - RUN_MASK, 15);
      var Run(ip2, length) := LiteralLength(src, cfg, token, ip + 1);
      if !IsLast(cfg, ip2 + length, |out| + length) {
        SafeMatchRun(src, ip2 + length + 2, cfg.iend - LASTLITERALS, 15);
      }
    }
  }

  lemma SafeLiteralRun(src: seq<byte>, ip: nat, stop: int, length: nat)
    requires ip < |src| && stop <= |src|
    ensures LiteralRun(src, ip, stop, length).Run?
    decreases |src| - ip
  {
  }

  lemma SafeMatchRun(src: seq<byte>, ip: nat, limit: int, length: nat)
    requires ip < |src| && limit < |src|
    ensures !MatchRun(src, true, ip, limit, length).RunOutside?
    decreases |src| - ip
  {
  }

  /** For every input content whatsoever, a safe decode terminates with an error or with an output
      that extends the history, fits the capacity, and consumed the whole input. */
  lemma {:induction false} SafeDecodeTotal(src: seq<byte>, cfg: Config, ip: nat, out: seq<byte>)
    requires cfg.safe && cfg.iend + 2 <= |src| && ip <= cfg.iend && |out| <= cfg.oend
    ensures var r := Decode(src, cfg, ip, out);
            && (r.Done? || r.Error?)
            && (r.Done? ==> r.ip == cfg.iend && out <= r.out && |r.out| <= cfg.oend)
            && (r.Error? ==> ip < r.ip)
    decreases |src| - ip
  {
    hide Step;
    SafeStepStaysInside(src, cfg, ip, out);
    SafeStepBounds(src, cfg, ip, out);
    StepGrows(src, cfg, ip, out);
    var s := Step(src, cfg, ip, out);
    if s.More? {
      SafeDecodeTotal(src, cfg, s.ip, s.out);
    }
  }
}
