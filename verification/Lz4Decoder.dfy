/** LZ4_decompress_generic and its callers, in place over a destination array, proved against the
    one-sequence-at-a-time reference for every input. */
module Lz4Decoder {
  import opened Lz4Block
  import opened Lz4Reference
  import opened Lz4Memory

  const INC32: seq<int> := [0, 1, 2, 1, 0, 4, 4, 4]
  const DEC64: seq<int> := [0, 0, 0, -1, -4, 1, 2, 3]

  // ----- Copying a match -----

  /** `t` repeats itself at distance `offset` on [from, end); distance 0 stands for zeros. */
  ghost predicate Repeats(t: seq<byte>, offset: nat, from: nat, end: nat) {
    && end <= |t| && offset <= from
    && forall k :: from <= k < end ==> t[k] == if offset == 0 then 0 else t[k - offset]
  }

  lemma {:induction false} Chain(t: seq<byte>, offset: nat, from: nat, end: nat, x: nat, j: nat)
    requires Repeats(t, offset, from, end) && offset > 0
    requires x < end && x - j * offset >= from - offset
    ensures x - j * offset >= 0 && t[x] == t[x - j * offset]
    decreases j
  {
    if j > 0 {
      assert j * offset == (j - 1) * offset + offset;
      Chain(t, offset, from, end, x, j - 1);
    }
  }

  /** Bytes that repeat at distance `offset` for the first 8, and at a multiple of it afterwards,
      repeat at distance `offset` throughout. */
  lemma {:induction false} RepeatsAtMultiple(t: seq<byte>, offset: nat, multiple: nat, op: nat, end: nat)
    requires 1 <= offset <= op && op + 8 <= end <= |t|
    requires Repeats(t, offset, op, op + 8)
    requires multiple >= 1 && multiple * offset <= offset + 8
    requires forall k :: op + 8 <= k < end ==> t[k] == t[k - multiple * offset]
    ensures Repeats(t, offset, op, end)
    decreases end
  {
    if end > op + 8 {
      RepeatsAtMultiple(t, offset, multiple, op, end - 1);
      var k := end - 1;
      assert (multiple - 1) * offset == multiple * offset - offset;
      Chain(t, offset, op, k, k - offset, multiple - 1);
    }
  }

  /** What the two tables do: the second half of the first 8 bytes continues the period, and the
      read position is left a multiple of the offset behind. */
  lemma TableFacts(offset: nat)
    requires offset < 8
    ensures |INC32| == |DEC64| == 8
    ensures 0 <= INC32[offset] <= 4 && INC32[offset] <= offset + 4
    ensures offset == 0 ==> INC32[offset] == DEC64[offset] == 0
    ensures offset > 0 ==>
      var back := 4 + offset - INC32[offset];
      var multiple := Multiple(offset);
      && 4 <= back && (back == 4 * offset || back == 2 * offset || back == offset)
      && back <= offset + 4
      && offset + 8 - INC32[offset] + DEC64[offset] == multiple * offset && 8 <= multiple * offset <= offset + 8
  {
    assert offset == 0 || offset == 1 || offset == 2 || offset == 3 || offset == 4 || offset == 5 || offset == 6 || offset == 7;
  }

  ghost function Multiple(offset: nat): (r: nat)
    ensures r >= 1
  {
    if offset == 1 then 8 else if offset == 2 then 4 else if offset == 3 then 3 else if offset < 8 then 2 else 1
  }

  /** Four bytes, one at a time, so that they may overlap. */
  method CopyFour(dst: array<byte>, op: nat, m: nat)
    requires m <= op && op + 4 <= dst.Length
    requires m == op ==> forall k :: op <= k < op + 4 ==> dst[k] == 0
    modifies dst
    ensures Repeats(dst[..], op - m, op, op + 4)
    ensures forall i :: 0 <= i < op || op + 4 <= i < dst.Length ==> dst[i] == old(dst[i])
  {
    dst[op] := dst[m];
    dst[op + 1] := dst[m + 1];
    dst[op + 2] := dst[m + 2];
    dst[op + 3] := dst[m + 3];
  }

  /** Reading the second half at a small multiple of the offset continues its period, up to any `end`. */
  lemma {:induction false} SecondHalf(t: seq<byte>, offset: nat, op: nat, back: nat, end: nat)
    requires op + 4 <= end <= op + 8 <= |t| && Repeats(t, offset, op, op + 4) && back <= op + 4
    requires forall k :: op + 4 <= k < op + 8 ==> t[k] == t[k - back]
    requires if offset == 0 then back == 4 else back <= offset + 4 && (back == 4 * offset || back == 2 * offset || back == offset)
    ensures Repeats(t, offset, op, end)
    decreases end
  {
    if end > op + 4 {
      SecondHalf(t, offset, op, back, end - 1);
      if offset > 0 && back > offset {
        var j := if back == 4 * offset then 3 else 1;
        assert j * offset == back - offset;
        Chain(t, offset, op, end - 1, end - 1 - offset, j);
      }
      var x := end - 1;
      assert t[x] == t[x - back];
      assert t[x] == if offset == 0 then 0 else t[x - offset];
    }
  }

  /** The first 8 bytes of a match whose offset is below 8, by the two tables. */
  method FirstEightByTable(dst: array<byte>, op: nat, offset: nat) returns (m: nat)
    requires offset <= op && offset < 8 && op + 8 <= dst.Length
    requires offset == 0 ==> forall k :: op <= k < op + 4 ==> dst[k] == 0
    modifies dst
    ensures Repeats(dst[..], offset, op, op + 8)
    ensures m <= op && (offset == 0 ==> m == op)
    ensures offset > 0 ==> op + 8 - m == Multiple(offset) * offset <= offset + 8
    ensures forall i :: 0 <= i < op || op + 8 <= i < dst.Length ==> dst[i] == old(dst[i])
  {
    hide INC32, DEC64, Multiple;
    m := op - offset;
    TableFacts(offset);
    CopyFour(dst, op, m);
    ghost var four := dst[..];
    m := m + INC32[offset];
    MemCopy(dst, op + 4, m, 4);
    RepeatsFrame(four, dst[..], offset, op, op + 4);
    SecondHalf(dst[..], offset, op, op + 4 - m, op + 8);
    m := m - DEC64[offset];
  }

  lemma RepeatsFrame(t: seq<byte>, t': seq<byte>, offset: nat, from: nat, end: nat)
    requires Repeats(t, offset, from, end) && end <= |t'| && forall i :: 0 <= i < end ==> t'[i] == t[i]
    ensures Repeats(t', offset, from, end)
  {
  }

  /** The first 8 bytes of a match.  Offsets below 8 go through the two tables, which leave the read
      position at a distance of at least 8 that is a multiple of the offset. */
  method FirstEight(dst: array<byte>, op: nat, offset: nat) returns (m: nat)
    requires offset <= op && op + 8 <= dst.Length
    requires offset == 0 ==> forall k :: op <= k < op + 4 ==> dst[k] == 0
    modifies dst
    ensures Repeats(dst[..], offset, op, op + 8)
    ensures m + 8 <= op + 8
    ensures offset == 0 ==> m == op
    ensures offset > 0 ==> op + 8 - m == Multiple(offset) * offset <= offset + 8
    ensures forall i :: 0 <= i < op || op + 8 <= i < dst.Length ==> dst[i] == old(dst[i])
  {
    m := op - offset;
    if offset < 8 {
      hide Multiple;
      m := FirstEightByTable(dst, op, offset);
    } else {
      MemCopy(dst, op, m, 8);
      m := m + 8;
    }
  }

  /** The rest of the match, read at a fixed distance: close to the end of the output the 8-byte
      moves stop 7 bytes short and single bytes finish the job. */
  method CopyRest(dst: array<byte>, o: nat, m: nat, cpy: nat, oend: nat)
    requires m + 8 <= o <= oend <= dst.Length
    requires cpy <= oend - LASTLITERALS
    requires cpy <= oend - 12 ==> o + 8 <= oend
    modifies dst
    ensures forall k :: o <= k < cpy ==> dst[k] == dst[k - (o - m)]
    ensures forall i :: 0 <= i < o || oend <= i < dst.Length ==> dst[i] == old(dst[i])
  {
    if cpy > oend - 12 {
      var o1, m1 := o, m;
      var copyLimit := oend - (WILDCOPYLENGTH - 1);
      if o < copyLimit {
        WildCopy(dst, o, m, copyLimit);
        m1 := m1 + (copyLimit - o);
        o1 := copyLimit;
      }
      while o1 < cpy
        invariant o <= o1 && m1 + (o - m) == o1
        invariant o1 <= cpy || o1 == copyLimit || o1 == o
        invariant forall k :: o <= k < o1 ==> dst[k] == dst[k - (o - m)]
        invariant forall i :: 0 <= i < o || oend <= i < dst.Length ==> dst[i] == old(dst[i])
      {
        dst[o1] := dst[m1];
        o1, m1 := o1 + 1, m1 + 1;
      }
    } else {
      MemCopy(dst, o, m, 8);
      if cpy > o + 8 {
        WildCopy(dst, o + 8, m + 8, cpy);
      }
    }
  }

  /** Copies a match into place, over-copying past its end but never past `oend`. */
  method CopyMatch(dst: array<byte>, low: nat, op: nat, offset: nat, length: nat, oend: nat) returns (ok: bool)
    requires low <= op && offset <= op - low && op + 8 <= oend <= dst.Length
    requires length >= MINMATCH
    requires offset == 0 ==> forall k :: op <= k < op + 4 ==> dst[k] == 0
    modifies dst
    ensures ok <==> op + length <= oend - LASTLITERALS
    ensures ok ==> dst[low..op + length] == ByteCopy(old(dst[low..op]), offset, length)
    ensures forall i :: 0 <= i < op || oend <= i < dst.Length ==> dst[i] == old(dst[i])
  {
    var cpy := op + length;
    var m := FirstEight(dst, op, offset);
    if cpy > oend - 12 {
      if cpy > oend - LASTLITERALS {
        return false;
      }
    }
    CopyRest(dst, op + 8, m, cpy, oend);
    MatchIsByteCopy(old(dst[low..op]), dst[..], low, op, offset, length, m);
    return true;
  }

  lemma MatchIsByteCopy(out: seq<byte>, t: seq<byte>, low: nat, op: nat, offset: nat, length: nat, m: nat)
    requires low <= op && offset <= op - low && op + length <= |t| && op + 8 <= |t|
    requires out == t[low..op]
    requires Repeats(t, offset, op, op + 8)
    requires m <= op
    requires offset == 0 ==> m == op
    requires offset > 0 ==> op + 8 - m == Multiple(offset) * offset <= offset + 8
    requires forall k :: op + 8 <= k < op + length ==> t[k] == t[k - (op + 8 - m)]
    ensures t[low..op + length] == ByteCopy(out, offset, length)
  {
    hide Multiple;
    var r := t[low..op + length];
    if offset == 0 {
      ByteCopyZero(out, length);
      ZerosContinue(t, op, op + length);
      assert r == out + seq(length, _ => 0);
    } else {
      if op + 8 <= op + length {
        RepeatsAtMultiple(t, offset, Multiple(offset), op, op + length);
      }
      assert forall k :: op <= k < op + length ==> t[k] == t[k - offset];
      assert forall k :: |out| <= k < |r| ==> r[k] == t[low + k];
      assert out <= r;
      ByteCopyUnique(out, offset, length, r);
    }
  }

  lemma {:induction false} ZerosContinue(t: seq<byte>, op: nat, end: nat)
    requires op <= end <= |t| && op + 8 <= |t|
    requires forall k :: op <= k < op + 8 ==> t[k] == 0
    requires forall k :: op + 8 <= k < end ==> t[k] == t[k - 8]
    ensures forall k :: op <= k < end ==> t[k] == 0
    decreases end
  {
    if end > op {
      ZerosContinue(t, op, end - 1);
      assert end - 1 < op + 8 || t[end - 1] == t[end - 1 - 8];
    }
  }

  // ----- One sequence -----

  /** The literal-length loop. */
  method ReadLiteralLength(src: seq<byte>, cfg: Config, token: byte, start: nat) returns (ip: nat, length: nat)
    requires LiteralLength(src, cfg, token, start).Run?
    ensures LiteralLength(src, cfg, token, start) == Run(ip, length)
  {
    ip, length := start, HighNibble(token);
    if length == RUN_MASK {
      var stop := if cfg.safe then cfg.iend - RUN_MASK else |src| + 1;
      var s: byte := src[ip];
      ip, length := ip + 1, length + s;
      while ip < stop && s == 255
        invariant ip <= |src|
        invariant if ip < stop && s == 255
                  then LiteralRun(src, start, stop, 15) == LiteralRun(src, ip, stop, length)
                  else LiteralRun(src, start, stop, 15) == Run(ip, length)
        decreases |src| - ip
      {
        s := src[ip];
        ip, length := ip + 1, length + s;
      }
    }
  }

  /** The match-length loop; in safe mode it gives up as soon as it reads into the last literals. */
  method ReadMatchLength(src: seq<byte>, cfg: Config, token: byte, start: nat) returns (ok: bool, ip: nat, length: nat)
    requires !MatchLength(src, cfg, token, start).RunOutside?
    ensures MatchLength(src, cfg, token, start) == if ok then Run(ip, length) else RunError(ip)
  {
    ok, ip, length := true, start, LowNibble(token);
    if length == ML_MASK {
      ghost var limit := cfg.iend - LASTLITERALS;
      var s: byte := 255;
      while s == 255
        invariant ip <= |src| || s == 255
        invariant if s == 255
                  then MatchRun(src, cfg.safe, start, limit, 15) == MatchRun(src, cfg.safe, ip, limit, length)
                  else MatchRun(src, cfg.safe, start, limit, 15) == Run(ip, length)
        decreases if s == 255 then |src| - ip + 1 else 0
      {
        s := src[ip];
        ip := ip + 1;
        if cfg.safe && ip > cfg.iend - LASTLITERALS {
          return false, ip, length;
        }
        length := length + s;
      }
    }
  }

  /** LZ4_write32 of a 16-bit value, little endian. */
  method WriteOffset32(dst: array<byte>, op: nat, offset: nat)
    requires op + 4 <= dst.Length
    modifies dst
    ensures offset == 0 ==> forall k :: op <= k < op + 4 ==> dst[k] == 0
    ensures offset <= MAX_DISTANCE ==> dst[op..op + 4] == Le16(offset) + [0, 0]
    ensures forall i :: 0 <= i < op || op + 4 <= i < dst.Length ==> dst[i] == old(dst[i])
  {
    dst[op] := offset % 256;
    dst[op + 1] := offset / 256 % 256;
    dst[op + 2] := offset / 65536 % 256;
    dst[op + 3] := offset / 16777216 % 256;
  }

  datatype Status = Continue | Finished | Failed

  /** How a status, an input position and the bytes decoded so far report a reference step. */
  ghost predicate Reports(s: StepResult, status: Status, ip: nat, out: seq<byte>) {
    match status
    case Continue => s == More(ip, out)
    case Finished => s == Done(ip, out)
    case Failed => s == Error(ip)
  }

  method DecodeShortcut(src: seq<byte>, dst: array<byte>, low: nat, cfg: Config, start: nat, o: nat)
    returns (ip: nat, op: nat)
    requires low <= o <= low + cfg.oend <= dst.Length
    requires (cfg.safe ==> cfg.iend <= |src|) && start < |src|
    requires TakesShortcut(src, cfg, src[start], start + 1, o - low)
    modifies dst
    ensures o <= op <= low + cfg.oend
    ensures ShortcutStep(src, start, old(dst[low..o])) == More(ip, dst[low..op])
    ensures forall i :: 0 <= i < o || low + cfg.oend <= i < dst.Length ==> dst[i] == old(dst[i])
  {
    hide ByteCopy, HighNibble, LowNibble, ReadLe16;
    ghost var out := dst[low..o];
    ip, op := start + 1, o;
    var ll, ml := HighNibble(src[start]), LowNibble(src[start]) + MINMATCH;
    var off := ReadLe16(src, ip + ll);
    MemCopyIn(dst, op, src, ip, 16);
    op := op + ll;
    Extended(out, dst[..], low, o, src[ip..ip + ll]);
    ghost var out1 := dst[low..op];
    ShortMatch(dst, low, op, off, ml);
    ip, op := ip + ll + 2, op + ml;
  }

  /** The 18-byte move of a match that does not overlap itself. */
  method ShortMatch(dst: array<byte>, low: nat, op: nat, off: nat, ml: nat)
    requires low <= op && 18 <= off <= op - low && op + 18 <= dst.Length && ml <= 18
    modifies dst
    ensures dst[low..op + ml] == ByteCopy(old(dst[low..op]), off, ml)
    ensures forall i :: 0 <= i < op || op + 18 <= i < dst.Length ==> dst[i] == old(dst[i])
  {
    ghost var out := dst[low..op];
    MemCopy(dst, op, op - off, 18);
    assert dst[low..op] == out;
    ghost var t := dst[..];
    assert dst[low..op + ml] == t[low..op + ml] && dst[low..op] == t[low..op];
    ByteCopyUniqueAt(out, t, low, op, off, ml);
  }

  /** `more` lies behind `out`. */
  lemma Extended(out: seq<byte>, t: seq<byte>, low: nat, o: nat, more: seq<byte>)
    requires low <= o && o + |more| <= |t| && |out| == o - low
    requires forall i :: low <= i < o ==> t[i] == out[i - low]
    requires forall i :: o <= i < o + |more| ==> t[i] == more[i - o]
    ensures t[low..o + |more|] == out + more
  {
  }

  lemma ByteCopyUniqueAt(out: seq<byte>, t: seq<byte>, low: nat, op: nat, offset: nat, length: nat)
    requires low <= op && 1 <= offset <= op - low && op + length <= |t|
    requires out == t[low..op]
    requires forall k :: op <= k < op + length ==> t[k] == t[k - offset]
    ensures t[low..op + length] == ByteCopy(out, offset, length)
  {
    var r := t[low..op + length];
    assert forall k :: |out| <= k < |r| ==> r[k] == t[low + k];
    assert out <= r;
    ByteCopyUnique(out, offset, length, r);
  }

  /** The match half of the general path; `o` is the end of the literals already in place. */
  method DecodeMatch(src: seq<byte>, dst: array<byte>, low: nat, cfg: Config, token: byte, start: nat, o: nat)
    returns (status: Status, ip: nat, op: nat)
    requires low <= o && o + 8 <= low + cfg.oend <= dst.Length
    requires start + 2 <= |src|
    requires !MatchStep(src, cfg, token, start, dst[low..o]).Outside?
    modifies dst
    ensures o <= op <= low + cfg.oend
    ensures Reports(MatchStep(src, cfg, token, start, old(dst[low..o])), status, ip, dst[low..op])
    ensures forall i :: 0 <= i < o || low + cfg.oend <= i < dst.Length ==> dst[i] == old(dst[i])
  {
    hide ByteCopy, LowNibble, ReadLe16, MatchLength;
    ghost var out := dst[low..o];
    ip, op := start, o;
    var offset := ReadLe16(src, ip);
    ip := ip + 2;
    if cfg.safe && offset > op - low {
      return Failed, ip, op;
    }
    WriteOffset32(dst, op, offset);
    assert dst[low..o] == out;
    var ok, length;
    ok, ip, length := ReadMatchLength(src, cfg, token, ip);
    if !ok {
      return Failed, ip, op;
    }
    length := length + MINMATCH;
    ok := CopyMatch(dst, low, op, offset, length, low + cfg.oend);
    if !ok {
      return Failed, ip, op;
    }
    return Continue, ip, op + length;
  }

  method DecodeLast(src: seq<byte>, dst: array<byte>, low: nat, cfg: Config, start: nat, length: nat, o: nat)
    returns (status: Status, ip: nat, op: nat)
    requires low <= o <= low + cfg.oend <= dst.Length
    requires cfg.safe ==> cfg.iend <= |src|
    requires !LastStep(src, cfg, start, length, dst[low..o]).Outside?
    modifies dst
    ensures o <= op <= low + cfg.oend
    ensures Reports(LastStep(src, cfg, start, length, old(dst[low..o])), status, ip, dst[low..op])
    ensures forall i :: 0 <= i < o || low + cfg.oend <= i < dst.Length ==> dst[i] == old(dst[i])
  {
    ip, op := start, o;
    var cpy, oend := op + length, low + cfg.oend;
    if !cfg.safe && cpy != oend {
      return Failed, ip, op;
    }
    if cfg.safe && (ip + length != cfg.iend || cpy > oend) {
      return Failed, ip, op;
    }
    MemCopyIn(dst, op, src, ip, length);
    assert dst[low..cpy] == old(dst[low..o]) + src[ip..ip + length];
    return Finished, ip + length, cpy;
  }

  method DecodeGeneral(src: seq<byte>, dst: array<byte>, low: nat, cfg: Config, start: nat, o: nat)
    returns (status: Status, ip: nat, op: nat)
    requires low <= o <= low + cfg.oend <= dst.Length
    requires (cfg.safe ==> cfg.iend <= |src|) && start < |src|
    requires !GeneralStep(src, cfg, start, dst[low..o]).Outside?
    modifies dst
    ensures o <= op <= low + cfg.oend
    ensures Reports(GeneralStep(src, cfg, start, old(dst[low..o])), status, ip, dst[low..op])
    ensures forall i :: 0 <= i < o || low + cfg.oend <= i < dst.Length ==> dst[i] == old(dst[i])
  {
    hide HighNibble, LiteralLength, MatchStep, LastStep, Reports, CopyEnd;
    ghost var out := dst[low..o];
    var token := src[start];
    var length;
    ip, length := ReadLiteralLength(src, cfg, token, start + 1);
    op := o;
    var cpy := op + length;
    if IsLast(cfg, ip + length, cpy - low) {
      status, ip, op := DecodeLast(src, dst, low, cfg, ip, length, op);
    } else {
      WildCopyIn(dst, op, src, ip, cpy);
      Extended(out, dst[..], low, op, src[ip..ip + length]);
      assert dst[low..cpy] == dst[..][low..cpy];
      status, ip, op := DecodeMatch(src, dst, low, cfg, token, ip + length, cpy);
    }
  }

  /** One turn of the main loop. */
  method DecodeSequence(src: seq<byte>, dst: array<byte>, low: nat, cfg: Config, start: nat, o: nat)
    returns (status: Status, ip: nat, op: nat)
    requires low <= o <= low + cfg.oend <= dst.Length
    requires cfg.shortcut && (cfg.safe ==> cfg.iend <= |src|)
    requires !Step(src, cfg, start, dst[low..o]).Outside?
    modifies dst
    ensures o <= op <= low + cfg.oend
    ensures Reports(Step(src, cfg, start, old(dst[low..o])), status, ip, dst[low..op])
    ensures forall i :: 0 <= i < o || low + cfg.oend <= i < dst.Length ==> dst[i] == old(dst[i])
  {
    hide HighNibble, LowNibble, ReadLe16, GeneralStep, ShortcutStep;
    var token := src[start];
    ip, op := start + 1, o;
    if cfg.safe && ip + 14 + 2 <= cfg.iend && op + 14 + 18 <= low + cfg.oend
       && HighNibble(token) != 15 && LowNibble(token) != 15 {
      var ll := HighNibble(token);
      var off := ReadLe16(src, ip + ll);
      if off >= 18 && op + ll - off >= low {
        ip, op := DecodeShortcut(src, dst, low, cfg, start, o);
        return Continue, ip, op;
      }
    }
    status, ip, op := DecodeGeneral(src, dst, low, cfg, start, o);
  }

  // ----- A whole block -----

  ghost function Setup(safe: bool, srcSize: nat, hist: seq<byte>, outputSize: nat): Config {
    Config(safe, srcSize, |hist| + outputSize, true)
  }

  /** The outcome of a call: an empty output buffer is settled before the loop. */
  ghost function Outcome(src: seq<byte>, srcSize: nat, safe: bool, hist: seq<byte>, outputSize: nat): StepResult
    requires safe ==> srcSize <= |src|
  {
    if outputSize == 0 then
      if safe then (if srcSize == 1 && src[0] == 0 then Done(1, hist) else Error(0))
      else if src == [] then Outside
      else if src[0] == 0 then Done(1, hist) else Error(0)
    else Decode(src, Setup(safe, srcSize, hist, outputSize), 0, hist)
  }

  /** What a call returns for an outcome `o`: safe mode counts output bytes, the other mode counts
      input bytes, an error is the negated input position, minus one. */
  ghost predicate Returns(r: int, o: StepResult, safe: bool, histLength: nat) {
    match o
    case Done(ip, out) => r == if safe then |out| - histLength else ip
    case Error(ip) => r == -1 - ip
    case _ => false
  }

  ghost predicate Holds(dst: seq<byte>, low: nat, o: StepResult) {
    o.Done? ==> low + |o.out| <= |dst| && dst[low..low + |o.out|] == o.out
  }

  method DecodeLoop(src: seq<byte>, dst: array<byte>, dst0: nat, low: nat, cfg: Config)
    returns (finished: bool, ip: nat, op: nat)
    requires low <= dst0 <= low + cfg.oend <= dst.Length
    requires cfg.shortcut && (cfg.safe ==> cfg.iend <= |src|)
    requires !Decode(src, cfg, 0, dst[low..dst0]).Outside?
    modifies dst
    ensures dst0 <= op <= low + cfg.oend
    ensures Decode(src, cfg, 0, old(dst[low..dst0])) == if finished then Done(ip, dst[low..op]) else Error(ip)
    ensures forall i :: 0 <= i < dst0 || low + cfg.oend <= i < dst.Length ==> dst[i] == old(dst[i])
  {
    hide Step;
    ghost var hist := dst[low..dst0];
    ip, op := 0, dst0;
    while true
      invariant dst0 <= op <= low + cfg.oend
      invariant cfg.safe ==> ip <= cfg.iend
      invariant Decode(src, cfg, ip, dst[low..op]) == Decode(src, cfg, 0, hist)
      invariant forall i :: 0 <= i < dst0 || low + cfg.oend <= i < dst.Length ==> dst[i] == old(dst[i])
      decreases |src| - ip
    {
      ghost var s := TurnInside(src, cfg, ip, dst[low..op]);
      var status;
      status, ip, op := DecodeSequence(src, dst, low, cfg, ip, op);
      if status != Continue {
        return status == Finished, ip, op;
      }
    }
  }

  lemma TurnInside(src: seq<byte>, cfg: Config, ip: nat, out: seq<byte>) returns (s: StepResult)
    requires cfg.safe ==> ip <= cfg.iend <= |src|
    requires !Decode(src, cfg, ip, out).Outside? && |out| <= cfg.oend
    ensures s == Step(src, cfg, ip, out) && !s.Outside?
    ensures ip < |src|
    ensures Decode(src, cfg, ip, out) == if s.More? then Decode(src, cfg, s.ip, s.out) else s
    ensures s.More? ==> ip < s.ip && (cfg.safe ==> s.ip <= cfg.iend)
  {
    hide ByteCopy, ShortcutStep, GeneralStep;
    s := Step(src, cfg, ip, out);
    StepGrows(src, cfg, ip, out);
    if cfg.safe {
      SafeStepBounds(src, cfg, ip, out);
    }
  }

  /** LZ4_decompress_generic without an external dictionary.  No byte outside the output buffer
      changes, whatever the input holds. */
  method DecompressGeneric(src: seq<byte>, srcSize: nat, dst: array<byte>, dst0: nat, outputSize: nat,
                           safe: bool, low: nat)
    returns (r: int)
    requires low <= dst0 && dst0 + outputSize <= dst.Length
    requires if safe then srcSize <= |src| else srcSize == 0
    requires !Outcome(src, srcSize, safe, dst[low..dst0], outputSize).Outside?
    modifies dst
    ensures Returns(r, Outcome(src, srcSize, safe, old(dst[low..dst0]), outputSize), safe, dst0 - low)
    ensures Holds(dst[..dst0 + outputSize], low, Outcome(src, srcSize, safe, old(dst[low..dst0]), outputSize))
    ensures forall i :: 0 <= i < dst0 || dst0 + outputSize <= i < dst.Length ==> dst[i] == old(dst[i])
  {
    hide Decode;
    if outputSize == 0 {
      if safe {
        return if srcSize == 1 && src[0] == 0 then 0 else -1;
      }
      return if src[0] == 0 then 1 else -1;
    }
    ghost var hist := dst[low..dst0];
    var cfg := Config(safe, srcSize, dst0 + outputSize - low, true);
    assert cfg == Setup(safe, srcSize, hist, outputSize);
    var finished, ip, op := DecodeLoop(src, dst, dst0, low, cfg);
    assert dst[..dst0 + outputSize][low..op] == dst[low..op];
    return if !finished then -ip - 1 else if safe then op - dst0 else ip;
  }

  /** LZ4_decompress_safe, on every input it does not read behind; `SafeOutcome` and module Lz4InputEnd
      say which these are.  A non-negative result is the number of bytes produced, at most the
      capacity. */
  method DecompressSafe(src: seq<byte>, compressedSize: nat, dst: array<byte>, maxDecompressedSize: nat) returns (r: int)
    requires compressedSize <= |src| && maxDecompressedSize <= dst.Length
    requires !Outcome(src, compressedSize, true, [], maxDecompressedSize).Outside?
    modifies dst
    ensures r <= maxDecompressedSize
    ensures Outcome(src, compressedSize, true, [], maxDecompressedSize)
         == if r >= 0 then Done(compressedSize, dst[..r]) else Error(-1 - r)
    ensures forall i :: maxDecompressedSize <= i < dst.Length ==> dst[i] == old(dst[i])
  {
    assert dst[0..0] == [];
    r := DecompressGeneric(src, compressedSize, dst, 0, maxDecompressedSize, true, 0);
    SafeBounds(src, compressedSize, [], maxDecompressedSize);
    assert r >= 0 ==> dst[..maxDecompressedSize][0..r] == dst[..r];
  }

  /** A safe call that succeeds has consumed its input and kept to its capacity. */
  lemma SafeBounds(src: seq<byte>, srcSize: nat, hist: seq<byte>, outputSize: nat)
    requires srcSize <= |src|
    ensures var o := Outcome(src, srcSize, true, hist, outputSize);
            && !o.More?
            && (o.Done? ==> o.ip == srcSize && hist <= o.out && |o.out| <= |hist| + outputSize)
  {
    if outputSize > 0 {
      SafeDecodeBounds(src, Setup(true, srcSize, hist, outputSize), 0, hist);
    }
  }

  lemma {:induction false} SafeDecodeBounds(src: seq<byte>, cfg: Config, ip: nat, out: seq<byte>)
    requires cfg.safe && ip <= cfg.iend <= |src| && |out| <= cfg.oend
    ensures var r := Decode(src, cfg, ip, out);
            !r.More? && (r.Done? ==> r.ip == cfg.iend && out <= r.out && |r.out| <= cfg.oend)
    decreases |src| - ip
  {
    hide Step;
    SafeStepBounds(src, cfg, ip, out);
    StepGrows(src, cfg, ip, out);
    var s := Step(src, cfg, ip, out);
    if s.More? {
      SafeDecodeBounds(src, cfg, s.ip, s.out);
    }
  }

  /** With two bytes of memory behind the input a safe call has an outcome for every input content: an
      error or a complete decoding within capacity. */
  lemma SafeOutcome(src: seq<byte>, srcSize: nat, hist: seq<byte>, outputSize: nat)
    requires srcSize + 2 <= |src|
    ensures var o := Outcome(src, srcSize, true, hist, outputSize);
            && (o.Done? || o.Error?)
            && (o.Done? ==> o.ip == srcSize && hist <= o.out && |o.out| <= |hist| + outputSize)
  {
    if outputSize > 0 {
      SafeDecodeTotal(src, Setup(true, srcSize, hist, outputSize), 0, hist);
    }
  }

  /** LZ4_decompress_fast: trusts its input, checks only that the output is filled exactly. */
  method DecompressFast(src: seq<byte>, dst: array<byte>, originalSize: nat) returns (r: int)
    requires originalSize <= dst.Length
    requires !Outcome(src, 0, false, [], originalSize).Outside?
    modifies dst
    ensures Outcome(src, 0, false, [], originalSize)
         == if r >= 0 then Done(r, dst[..originalSize]) else Error(-1 - r)
    ensures forall i :: originalSize <= i < dst.Length ==> dst[i] == old(dst[i])
  {
    assert dst[0..0] == [];
    r := DecompressGeneric(src, 0, dst, 0, originalSize, false, 0);
    FastFillsOutput(src, originalSize);
    assert dst[..originalSize][0..originalSize] == dst[..originalSize];
  }

  /** The untrusting check of the other mode: success means the output is exactly full. */
  lemma FastFillsOutput(src: seq<byte>, originalSize: nat)
    ensures var o := Outcome(src, 0, false, [], originalSize); o.Done? ==> |o.out| == originalSize
  {
    if originalSize > 0 {
      FastDecodeFills(src, Setup(false, 0, [], originalSize), 0, []);
    }
  }

  lemma {:induction false} FastDecodeFills(src: seq<byte>, cfg: Config, ip: nat, out: seq<byte>)
    requires !cfg.safe
    ensures var r := Decode(src, cfg, ip, out); r.Done? ==> |r.out| == cfg.oend
    decreases |src| - ip
  {
    FastStepFills(src, cfg, ip, out);
    var s := Step(src, cfg, ip, out);
    if s.More? && ip < s.ip && ip < |src| {
      FastDecodeFills(src, cfg, s.ip, s.out);
    }
  }

  lemma FastStepFills(src: seq<byte>, cfg: Config, ip: nat, out: seq<byte>)
    requires !cfg.safe
    ensures var s := Step(src, cfg, ip, out); s.Done? ==> |s.out| == cfg.oend
  {
    hide ByteCopy, HighNibble, ReadLe16;
  }
}
