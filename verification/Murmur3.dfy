/** Incremental MurmurHash3_x86_32: a running hash, and a carry word whose top bytes are the pending
    input and whose low two bits count them. */
module Murmur3 {

  const C1: bv32 := 0xcc9e2d51
  const C2: bv32 := 0x1b873593

  function Rotl32(x: bv32, r: bv32): bv32
    requires r < 32
  {
    (x << r) | (x >> (32 - r))
  }

  function MixK(k: bv32): bv32 {
    Times(Rotl32(Times(k, C1), 15), C2)
  }

  /** The block step of the algorithm. */
  function Block(h: bv32, k: bv32): bv32 {
    Rotl32(h ^ MixK(k), 13) * 5 + 0xe6546b64
  }

  function Shift16(x: bv32): bv32 {
    x ^ (x >> 16)
  }

  function Shift13(x: bv32): bv32 {
    x ^ (x >> 13)
  }

  function Times(x: bv32, y: bv32): bv32 {
    x * y
  }

  function Fmix(h: bv32): bv32 {
    Shift16(Times(Shift13(Times(Shift16(h), 0x85ebca6b)), 0xc2b2ae35))
  }

  // ----- The direct definition -----

  function Word(b: seq<bv8>): bv32
    requires |b| == 4
  {
    (b[0] as bv32) | ((b[1] as bv32) << 8) | ((b[2] as bv32) << 16) | ((b[3] as bv32) << 24)
  }

  /** The 4-byte blocks of `data`, front to back; a shorter rest is ignored. */
  function Blocks(h: bv32, data: seq<bv8>): bv32
    decreases |data|
  {
    if |data| < 4 then h else Blocks(Block(h, Word(data[..4])), data[4..])
  }

  /** The rest, least significant byte first. */
  function Tail(b: seq<bv8>): bv32
    requires |b| < 4
  {
    if |b| == 0 then 0
    else if |b| == 1 then b[0] as bv32
    else if |b| == 2 then (b[0] as bv32) | ((b[1] as bv32) << 8)
    else (b[0] as bv32) | ((b[1] as bv32) << 8) | ((b[2] as bv32) << 16)
  }

  function Rest(data: seq<bv8>): (r: seq<bv8>)
    ensures |r| == |data| % 4
  {
    data[|data| - |data| % 4..]
  }

  function Length32(n: nat): bv32 {
    (n % 0x1_0000_0000) as bv32
  }

  function MixTail(h: bv32, t: seq<bv8>): bv32
    requires |t| < 4
  {
    if |t| == 0 then h else h ^ MixK(Tail(t))
  }

  /** MurmurHash3_x86_32 of `data`. */
  function Hash(seed: bv32, data: seq<bv8>): bv32 {
    Fmix(MixTail(Blocks(seed, data), Rest(data)) ^ Length32(|data|))
  }

  // ----- The incremental state -----

  /** The top |rest| bytes of `c` are `rest`; what the lower bytes hold is left open. */
  ghost predicate Pending(c: bv32, rest: seq<bv8>)
    requires |rest| < 4
  {
    if |rest| == 0 then true
    else if |rest| == 1 then c >> 24 == Tail(rest)
    else if |rest| == 2 then c >> 16 == Tail(rest)
    else c >> 8 == Tail(rest)
  }

  /** (h, c) stands for the bytes `data` absorbed since `seed`: all whole blocks are in `h`, and `c`
      holds the rest. */
  ghost predicate Holds(h: bv32, c: bv32, seed: bv32, data: seq<bv8>) {
    h == Blocks(seed, data) && Pending(c, Rest(data))
  }

  function CountBits(n: nat): (r: bv32)
    requires n < 4
    ensures r < 4
  {
    if n == 0 then 0 else if n == 1 then 1 else if n == 2 then 2 else 3
  }

  /** The packed carry: the count in the low two bits, the low byte otherwise cleared. */
  ghost predicate Absorbed(h: bv32, carry: bv32, seed: bv32, data: seq<bv8>) {
    Holds(h, carry, seed, data) && carry & 3 == CountBits(|data| % 4)
  }

  lemma {:induction false} BlocksAppend(h: bv32, data: seq<bv8>, k: nat, word: seq<bv8>)
    requires |data| == 4 * k && |word| == 4
    ensures Blocks(h, data + word) == Block(Blocks(h, data), Word(word))
    decreases k
  {
    if k == 0 {
      assert data + word == word && word[..4] == word && |word[4..]| < 4;
    } else {
      assert (data + word)[..4] == data[..4] && (data + word)[4..] == data[4..] + word;
      BlocksAppend(Block(h, Word(data[..4])), data[4..], k - 1, word);
    }
  }

  lemma {:induction false} BlocksIgnoreRest(h: bv32, data: seq<bv8>, rest: seq<bv8>)
    requires |data| % 4 == 0 && |rest| < 4
    ensures Blocks(h, data + rest) == Blocks(h, data)
    decreases |data|
  {
    if |data| >= 4 {
      assert (data + rest)[..4] == data[..4] && (data + rest)[4..] == data[4..] + rest;
      BlocksIgnoreRest(Block(h, Word(data[..4])), data[4..], rest);
    }
  }

  // ----- One byte -----

  function ShiftIn(c: bv32, b: bv8): bv32 {
    (c >> 8) | ((b as bv32) << 24)
  }

  lemma ShiftOne(c: bv32, b: bv8)
    ensures ShiftIn(c, b) >> 24 == b as bv32
  {
  }

  lemma ShiftTwo(c: bv32, b: bv8)
    ensures ShiftIn(c, b) >> 16 == (c >> 24) | ((b as bv32) << 8)
  {
  }

  lemma ShiftThree(c: bv32, b: bv8)
    ensures ShiftIn(c, b) >> 8 == (c >> 16) | ((b as bv32) << 16)
  {
  }

  lemma TailOne(rest: seq<bv8>, b: bv8)
    requires |rest| == 1
    ensures Tail(rest + [b]) == Tail(rest) | ((b as bv32) << 8)
  {
  }

  lemma TailTwo(rest: seq<bv8>, b: bv8)
    requires |rest| == 2
    ensures Tail(rest + [b]) == Tail(rest) | ((b as bv32) << 16)
  {
  }

  lemma ShiftPendingNone(c: bv32, rest: seq<bv8>, b: bv8)
    requires |rest| == 0
    ensures Pending(ShiftIn(c, b), rest + [b])
  {
    ShiftOne(c, b);
  }

  lemma ShiftPendingOne(c: bv32, rest: seq<bv8>, b: bv8)
    requires |rest| == 1 && Pending(c, rest)
    ensures Pending(ShiftIn(c, b), rest + [b])
  {
    hide Tail, ShiftIn;
    TailOne(rest, b);
    ShiftTwo(c, b);
  }

  lemma ShiftPendingTwo(c: bv32, rest: seq<bv8>, b: bv8)
    requires |rest| == 2 && Pending(c, rest)
    ensures Pending(ShiftIn(c, b), rest + [b])
  {
    hide Tail, ShiftIn;
    TailTwo(rest, b);
    ShiftThree(c, b);
  }

  lemma ShiftPending(c: bv32, rest: seq<bv8>, b: bv8)
    requires |rest| < 3 && Pending(c, rest)
    ensures Pending(ShiftIn(c, b), rest + [b])
  {
    hide ShiftIn, Pending;
    if |rest| == 0 {
      ShiftPendingNone(c, rest, b);
    } else if |rest| == 1 {
      ShiftPendingOne(c, rest, b);
    } else {
      ShiftPendingTwo(c, rest, b);
    }
  }

  lemma ShiftWord(c: bv32, rest: seq<bv8>, b: bv8)
    requires |rest| == 3 && Pending(c, rest)
    ensures ShiftIn(c, b) == Word(rest + [b])
  {
  }

  lemma RestGrows(data: seq<bv8>, b: bv8)
    ensures |data| % 4 < 3 ==> Rest(data + [b]) == Rest(data) + [b]
    ensures |data| % 4 == 3 ==> Rest(data + [b]) == []
  {
    var q, r := |data| / 4, |data| % 4;
    if r < 3 {
      assert (4 * q + r + 1) % 4 == r + 1;
      assert (data + [b])[4 * q..] == data[4 * q..] + [b];
    } else {
      assert (4 * q + r + 1) % 4 == 0;
    }
  }

  lemma BlocksGrow(h: bv32, data: seq<bv8>, b: bv8)
    ensures Blocks(h, data + [b])
         == if |data| % 4 == 3 then Block(Blocks(h, data), Word(Rest(data) + [b])) else Blocks(h, data)
  {
    hide Block, Word;
    var n := |data| - |data| % 4;
    var whole, rest := data[..n], Rest(data);
    assert data == whole + rest;
    assert data + [b] == whole + (rest + [b]);
    BlocksIgnoreRest(h, whole, rest);
    if |rest| == 3 {
      BlocksAppend(h, whole, n / 4, rest + [b]);
    } else {
      BlocksIgnoreRest(h, whole, rest + [b]);
    }
  }

  /** One turn of the byte loop; `n` counts the pending bytes.  A completed word is mixed in place, so
      `c` is left holding the mixed word. */
  function PushByte(h: bv32, c: bv32, n: nat, b: bv8): (bv32, bv32, nat) {
    if n + 1 == 4 then (Block(h, ShiftIn(c, b)), MixK(ShiftIn(c, b)), 0) else (h, ShiftIn(c, b), n + 1)
  }

  lemma PushAbsorbs(h: bv32, c: bv32, seed: bv32, data: seq<bv8>, b: bv8)
    requires Holds(h, c, seed, data)
    ensures var (h', c', n') := PushByte(h, c, |data| % 4, b);
            Holds(h', c', seed, data + [b]) && n' == |data + [b]| % 4
  {
    hide Blocks, MixK, Block, ShiftIn, Pending, Rest, Word;
    RestGrows(data, b);
    BlocksGrow(seed, data, b);
    if |data| % 4 == 3 {
      ShiftWord(c, Rest(data), b);
      NothingPending(MixK(ShiftIn(c, b)), Rest(data + [b]));
    } else {
      ShiftPending(c, Rest(data), b);
    }
  }

  lemma NothingPending(c: bv32, rest: seq<bv8>)
    requires |rest| == 0
    ensures Pending(c, rest)
  {
  }

  // ----- The source's loops -----

  /** The byte loop: absorbs `cnt` bytes starting at `ptr`. */
  method DoBytes(key: seq<bv8>, start: nat, cnt: nat, h0: bv32, c0: bv32, n0: nat, ghost seed: bv32, ghost data: seq<bv8>)
    returns (h1: bv32, c: bv32, n: nat)
    requires start + cnt <= |key|
    requires Holds(h0, c0, seed, data) && n0 == |data| % 4
    ensures Holds(h1, c, seed, data + key[start..start + cnt]) && n == |data + key[start..start + cnt]| % 4
  {
    hide Holds;
    h1, c, n := h0, c0, n0;
    var i := 0;
    assert data + key[start..start] == data;
    while i < cnt
      invariant 0 <= i <= cnt
      invariant Holds(h1, c, seed, data + key[start..start + i]) && n == |data + key[start..start + i]| % 4
    {
      ghost var sofar := data + key[start..start + i];
      PushAbsorbs(h1, c, seed, sofar, key[start + i]);
      var (h', c', n') := PushByte(h1, c, n, key[start + i]);
      h1, c, n := h', c', n';
      i := i + 1;
      assert sofar + [key[start + i - 1]] == data + key[start..start + i];
    }
  }

  lemma WholeBlockAbsorbs(h: bv32, c: bv32, seed: bv32, data: seq<bv8>, word: seq<bv8>)
    requires Holds(h, c, seed, data) && |data| % 4 == 0 && |word| == 4
    ensures Holds(Block(h, Word(word)), c, seed, data + word)
  {
    hide Block, Word;
    BlocksAppend(seed, data, |data| / 4, word);
    assert |data + word| % 4 == 0;
    assert |Rest(data + word)| == 0;
  }

  lemma WholeWords(n: nat)
    ensures n / 4 * 4 <= n && n - n / 4 * 4 == n % 4 && (n / 4 * 4) % 4 == 0 && (n < 4 ==> n / 4 * 4 == 0)
  {
  }

  lemma NextWord(n: nat)
    requires n % 4 == 0 && n > 0
    ensures n >= 4 && (n - 4) % 4 == 0
  {
  }

  /** The block loop: with nothing pending, 4 bytes at a time up to the last multiple of 4. */
  method DoBlocks(key: seq<bv8>, start: nat, h0: bv32, ghost c: bv32, ghost seed: bv32, ghost data: seq<bv8>)
    returns (h1: bv32, ptr: nat)
    requires start <= |key| && Holds(h0, c, seed, data)
    requires |key| - start >= 4 ==> |data| % 4 == 0
    ensures start <= ptr <= |key| && |key| - ptr == (|key| - start) % 4
    ensures Holds(h1, c, seed, data + key[start..ptr]) && |data + key[start..ptr]| % 4 == |data| % 4
  {
    hide Holds, Block, Word;
    h1, ptr := h0, start;
    var end := start + (|key| - start) / 4 * 4;
    WholeWords(|key| - start);
    assert data + key[start..start] == data;
    while ptr < end
      invariant start <= ptr <= end && (end - ptr) % 4 == 0
      invariant |data + key[start..ptr]| % 4 == |data| % 4
      invariant Holds(h1, c, seed, data + key[start..ptr])
    {
      NextWord(end - ptr);
      WholeBlockAbsorbs(h1, c, seed, data + key[start..ptr], key[ptr..ptr + 4]);
      assert data + key[start..ptr] + key[ptr..ptr + 4] == data + key[start..ptr + 4];
      h1, ptr := Block(h1, Word(key[ptr..ptr + 4])), ptr + 4;
    }
  }

  /** The carry word handed out: low byte replaced by the count. */
  function Pack(c: bv32, n: nat): bv32
    requires n < 4
  {
    (c & 0xffffff00) | CountBits(n)
  }

  lemma PackCount(c: bv32, n: bv32)
    requires n < 4
    ensures ((c & 0xffffff00) | n) & 3 == n
  {
  }

  lemma PackShift24(c: bv32, n: bv32)
    requires n < 4
    ensures ((c & 0xffffff00) | n) >> 24 == c >> 24
  {
  }

  lemma PackShift16(c: bv32, n: bv32)
    requires n < 4
    ensures ((c & 0xffffff00) | n) >> 16 == c >> 16
  {
  }

  lemma PackShift8(c: bv32, n: bv32)
    requires n < 4
    ensures ((c & 0xffffff00) | n) >> 8 == c >> 8
  {
  }

  lemma PackPendingOne(c: bv32, n: nat, rest: seq<bv8>)
    requires n < 4 && |rest| == 1 && Pending(c, rest)
    ensures Pending(Pack(c, n), rest)
  {
    hide Tail, CountBits;
    PackShift24(c, CountBits(n));
  }

  lemma PackPendingTwo(c: bv32, n: nat, rest: seq<bv8>)
    requires n < 4 && |rest| == 2 && Pending(c, rest)
    ensures Pending(Pack(c, n), rest)
  {
    hide Tail, CountBits;
    PackShift16(c, CountBits(n));
  }

  lemma PackPendingThree(c: bv32, n: nat, rest: seq<bv8>)
    requires n < 4 && |rest| == 3 && Pending(c, rest)
    ensures Pending(Pack(c, n), rest)
  {
    hide Tail, CountBits;
    PackShift8(c, CountBits(n));
  }

  lemma PackKeepsPending(c: bv32, n: nat, rest: seq<bv8>)
    requires n < 4 && |rest| < 4 && Pending(c, rest)
    ensures Pending(Pack(c, n), rest)
  {
    hide Pending, Pack;
    if |rest| == 0 {
      NothingPending(Pack(c, n), rest);
    } else if |rest| == 1 {
      PackPendingOne(c, n, rest);
    } else if |rest| == 2 {
      PackPendingTwo(c, n, rest);
    } else {
      PackPendingThree(c, n, rest);
    }
  }

  lemma PackAbsorbed(h: bv32, c: bv32, n: nat, seed: bv32, data: seq<bv8>)
    requires n == |data| % 4 && Holds(h, c, seed, data)
    ensures Absorbed(h, Pack(c, n), seed, data)
  {
    hide Pending, CountBits;
    PackKeepsPending(c, n, Rest(data));
    PackCount(c, CountBits(n));
  }

  /** The count in the low two bits. */
  function Count(carry: bv32): (n: nat)
    ensures n < 4
  {
    if carry & 3 == 0 then 0 else if carry & 3 == 1 then 1 else if carry & 3 == 2 then 2 else 3
  }

  lemma CountsPending(h: bv32, carry: bv32, seed: bv32, data: seq<bv8>)
    requires Absorbed(h, carry, seed, data)
    ensures Holds(h, carry, seed, data) && Count(carry) == |data| % 4
  {
    hide Holds;
  }

  lemma ToWholeWord(data: seq<bv8>, key: seq<bv8>, n: nat, i: nat)
    requires n == |data| % 4 && i == (4 - n) % 4
    ensures i <= |key| ==> |data + key[..i]| % 4 == 0
    ensures |key| >= 4 || i == 0 ==> i <= |key|
  {
  }

  /** Absorbs bytes up to the next whole word, if `key` has that many. */
  method FillWord(key: seq<bv8>, h0: bv32, c0: bv32, n0: nat, ghost seed: bv32, ghost data: seq<bv8>)
    returns (h1: bv32, c: bv32, n: nat, ptr: nat)
    requires Holds(h0, c0, seed, data) && n0 == |data| % 4
    ensures ptr <= |key| && Holds(h1, c, seed, data + key[..ptr]) && n == |data + key[..ptr]| % 4
    ensures |key| - ptr >= 4 ==> |data + key[..ptr]| % 4 == 0
  {
    hide Holds;
    var i := (4 - n0) % 4;
    ToWholeWord(data, key, n0, i);
    if i != 0 && i <= |key| {
      h1, c, n := DoBytes(key, 0, i, h0, c0, n0, seed, data);
      assert key[0..i] == key[..i];
      return h1, c, n, i;
    }
    assert data + key[..0] == data;
    return h0, c0, n0, 0;
  }

  /** __ina_hash_PMurHash32_Process: absorbs `key`, in whatever pieces it comes. */
  method Process(h0: bv32, carry0: bv32, key: seq<bv8>, ghost seed: bv32, ghost data: seq<bv8>) returns (h1: bv32, carry: bv32)
    requires Absorbed(h0, carry0, seed, data)
    ensures Absorbed(h1, carry, seed, data + key)
  {
    hide Holds, Pack, Absorbed, Count;
    CountsPending(h0, carry0, seed, data);
    var c, n, ptr;
    h1, c, n, ptr := FillWord(key, h0, carry0, Count(carry0), seed, data);
    ghost var sofar, ptr0 := data + key[..ptr], ptr;
    h1, ptr := DoBlocks(key, ptr, h1, c, seed, sofar);
    JoinPieces(data, key, ptr0, ptr);
    sofar := data + key[..ptr];
    h1, c, n := DoBytes(key, ptr, |key| - ptr, h1, c, n, seed, sofar);
    JoinPieces(data, key, ptr, |key|);
    carry := Pack(c, n);
    PackAbsorbed(h1, c, n, seed, data + key);
  }

  lemma JoinPieces(data: seq<bv8>, key: seq<bv8>, i: nat, j: nat)
    requires i <= j <= |key|
    ensures data + key[..i] + key[i..j] == data + key[..j] && (j == |key| ==> key[..j] == key)
  {
    assert key[..i] + key[i..j] == key[..j];
  }

  /** __ina_hash_PMurHash32_Result: mixes in what is pending, then the total length. */
  function Result(h: bv32, carry: bv32, totalLength: bv32): bv32 {
    Fmix(MixPending(h, carry) ^ totalLength)
  }

  function MixPending(h: bv32, carry: bv32): bv32 {
    var n := carry & 3;
    if n == 0 then h
    else if n == 1 then h ^ MixK(carry >> 24)
    else if n == 2 then h ^ MixK(carry >> 16)
    else h ^ MixK(carry >> 8)
  }

  lemma MixesNone(h: bv32, carry: bv32, rest: seq<bv8>)
    requires |rest| == 0 && carry & 3 == 0
    ensures MixPending(h, carry) == MixTail(h, rest)
  {
    hide MixK, Tail;
  }

  lemma MixesOne(h: bv32, carry: bv32, rest: seq<bv8>)
    requires |rest| == 1 && Pending(carry, rest) && carry & 3 == 1
    ensures MixPending(h, carry) == MixTail(h, rest)
  {
    hide MixK, Tail;
  }

  lemma MixesTwo(h: bv32, carry: bv32, rest: seq<bv8>)
    requires |rest| == 2 && Pending(carry, rest) && carry & 3 == 2
    ensures MixPending(h, carry) == MixTail(h, rest)
  {
    hide MixK, Tail;
  }

  lemma MixesThree(h: bv32, carry: bv32, rest: seq<bv8>)
    requires |rest| == 3 && Pending(carry, rest) && carry & 3 == 3
    ensures MixPending(h, carry) == MixTail(h, rest)
  {
    hide MixK, Tail;
  }

  lemma MixesPending(h: bv32, carry: bv32, rest: seq<bv8>)
    requires |rest| < 4 && Pending(carry, rest) && carry & 3 == CountBits(|rest|)
    ensures MixPending(h, carry) == MixTail(h, rest)
  {
    hide MixPending, MixTail, Pending;
    if |rest| == 0 {
      MixesNone(h, carry, rest);
    } else if |rest| == 1 {
      MixesOne(h, carry, rest);
    } else if |rest| == 2 {
      MixesTwo(h, carry, rest);
    } else {
      MixesThree(h, carry, rest);
    }
  }

  /** Finishing any state that absorbed `data` gives the hash of `data`. */
  lemma ResultIsHash(h: bv32, carry: bv32, seed: bv32, data: seq<bv8>)
    requires Absorbed(h, carry, seed, data)
    ensures Result(h, carry, Length32(|data|)) == Hash(seed, data)
  {
    hide Fmix, MixPending, MixTail, Blocks, Length32, Rest, Pending, CountBits;
    MixesPending(h, carry, Rest(data));
  }

  function Concat(pieces: seq<seq<bv8>>): seq<bv8> {
    if pieces == [] then [] else Concat(pieces[..|pieces| - 1]) + pieces[|pieces| - 1]
  }

  /** __ina_hash_PMurHash32. */
  method HashAtOnce(seed: bv32, key: seq<bv8>) returns (r: bv32)
    ensures r == Hash(seed, key)
  {
    hide Absorbed, Hash, Result;
    EmptyAbsorbed(seed);
    assert [] + key == key;
    var h1, carry := Process(seed, 0, key, seed, []);
    ResultIsHash(h1, carry, seed, key);
    return Result(h1, carry, Length32(|key|));
  }

  lemma EmptyAbsorbed(seed: bv32)
    ensures Absorbed(seed, 0, seed, [])
  {
  }

  lemma ConcatNone(pieces: seq<seq<bv8>>)
    ensures Concat(pieces[..0]) == []
  {
  }

  lemma ConcatStep(pieces: seq<seq<bv8>>, k: nat)
    requires k < |pieces|
    ensures Concat(pieces[..k + 1]) == Concat(pieces[..k]) + pieces[k]
  {
    assert pieces[..k + 1][..k] == pieces[..k];
  }

  /** Streaming: however the input is cut into pieces, feeding them one after another and finishing
      gives the hash of the whole. */
  method HashPieces(seed: bv32, pieces: seq<seq<bv8>>) returns (r: bv32)
    ensures r == Hash(seed, Concat(pieces))
  {
    hide Absorbed, Hash, Result, Concat;
    var h1, carry, k, total := seed, 0 as bv32, 0, 0;
    EmptyAbsorbed(seed);
    ConcatNone(pieces);
    while k < |pieces|
      invariant 0 <= k <= |pieces| && total == |Concat(pieces[..k])|
      invariant Absorbed(h1, carry, seed, Concat(pieces[..k]))
    {
      ConcatStep(pieces, k);
      h1, carry := Process(h1, carry, pieces[k], seed, Concat(pieces[..k]));
      total, k := total + |pieces[k]|, k + 1;
    }
    assert pieces[..k] == pieces;
    ResultIsHash(h1, carry, seed, Concat(pieces));
    return Result(h1, carry, Length32(total));
  }

  // ----- What does not depend on the constants: every step can be undone -----

  function Unshift16(x: bv32): bv32 {
    x ^ (x >> 16)
  }

  lemma Shift16Raw(x: bv32)
    ensures Unshift16(x ^ (x >> 16)) == x
  {
  }

  lemma Shift16Back(x: bv32)
    ensures Unshift16(Shift16(x)) == x
  {
    hide Unshift16;
    Shift16Raw(x);
  }

  function Unshift13(x: bv32): bv32 {
    x ^ (x >> 13) ^ (x >> 26)
  }

  lemma Shift13Raw(x: bv32)
    ensures Unshift13(x ^ (x >> 13)) == x
  {
  }

  lemma Shift13Back(x: bv32)
    ensures Unshift13(Shift13(x)) == x
  {
    hide Unshift13;
    Shift13Raw(x);
  }

  lemma RotateBack(x: bv32)
    ensures Rotl32(Rotl32(x, 15), 17) == x && Rotl32(Rotl32(x, 13), 19) == x
  {
  }

  lemma TimesIs(x: bv32, y: bv32)
    ensures Times(x, y) == x * y
  {
  }

  lemma ProductIs(x: bv32, y: bv32, z: bv32)
    ensures Times(x * y, z) == Times(x, y * z)
  {
  }

  lemma TimesOne(x: bv32)
    ensures Times(x, 1) == x
  {
  }

  /** Each factor is odd, so it has an inverse. */
  lemma Inverses()
    ensures Times(0x85ebca6b, 0xa5cb9243) == 1 && Times(0xc2b2ae35, 0x7ed1b41d) == 1
    ensures Times(C1, 0xdee13bb1) == 1 && Times(C2, 0x56ed309b) == 1
  {
  }

  lemma FactorBack(x: bv32, factor: bv32, inverse: bv32)
    requires Times(factor, inverse) == 1
    ensures Times(Times(x, factor), inverse) == x
  {
    hide Times;
    TimesIs(x, factor);
    TimesIs(factor, inverse);
    ProductIs(x, factor, inverse);
    TimesOne(x);
  }

  /** No two states finish in the same hash. */
  lemma FmixApart(h: bv32, h': bv32)
    requires Fmix(h) == Fmix(h')
    ensures h == h'
  {
    FmixBack(h);
    FmixBack(h');
    hide Unfmix, Fmix;
  }

  function Unfmix(x: bv32): bv32 {
    Unshift16(Times(Unshift13(Times(Unshift16(x), 0x7ed1b41d)), 0xa5cb9243))
  }

  lemma FmixBack(h: bv32)
    ensures Unfmix(Fmix(h)) == h
  {
    hide Unshift16, Unshift13, Shift16, Shift13, Times;
    var a := Times(Shift16(h), 0x85ebca6b);
    var b := Times(Shift13(a), 0xc2b2ae35);
    Inverses();
    Shift16Back(b);
    FactorBack(Shift13(a), 0xc2b2ae35, 0x7ed1b41d);
    Shift13Back(a);
    FactorBack(Shift16(h), 0x85ebca6b, 0xa5cb9243);
    Shift16Back(h);
  }

  function Unmix(x: bv32): bv32 {
    Times(Rotl32(Times(x, 0x56ed309b), 17), 0xdee13bb1)
  }

  /** No two words are mixed into the same. */
  lemma MixKBack(k: bv32)
    ensures Unmix(MixK(k)) == k
  {
    hide Rotl32, Times;
    Inverses();
    FactorBack(k, C1, 0xdee13bb1);
    RotateBack(Times(k, C1));
    FactorBack(Rotl32(Times(k, C1), 15), C2, 0x56ed309b);
  }

  function Xor(x: bv32, y: bv32): bv32 {
    x ^ y
  }

  lemma XorBack(x: bv32, y: bv32)
    ensures Xor(Xor(x, y), y) == x && Xor(x, Xor(x, y)) == y
  {
  }

  function Unstep(x: bv32): bv32 {
    (x - 0xe6546b64) * 0xcccccccd
  }

  lemma StepRaw(x: bv32)
    ensures Unstep(x * 5 + 0xe6546b64) == x
  {
  }

  lemma BlockIs(h: bv32, k: bv32)
    ensures Rotl32(Unstep(Block(h, k)), 19) == h ^ MixK(k)
  {
    hide Rotl32, MixK, Unstep;
    var y := Rotl32(h ^ MixK(k), 13);
    StepRaw(y);
    RotateBack(h ^ MixK(k));
  }

  lemma BlockBack(h: bv32, k: bv32)
    ensures Rotl32(Unstep(Block(h, k)), 19) == Xor(h, MixK(k))
  {
    hide Rotl32, MixK, Unstep, Block;
    BlockIs(h, k);
  }

  /** Block steps with the same result differ in the state if and only if they differ in the word. */
  lemma BlockApart(h: bv32, k: bv32, h': bv32, k': bv32)
    requires Block(h, k) == Block(h', k')
    ensures h == h' <==> k == k'
  {
    hide Rotl32, MixK, Unstep, Block, Xor, Unmix;
    BlockBack(h, k);
    BlockBack(h', k');
    XorBack(h, MixK(k));
    XorBack(h', MixK(k'));
    MixKBack(k);
    MixKBack(k');
  }

  lemma WordsApart(a: seq<bv8>, b: seq<bv8>)
    requires |a| == |b| == 4 && Word(a) == Word(b)
    ensures a == b
  {
    WordByte(a);
    WordByte(b);
    assert forall i :: 0 <= i < 4 ==> a[i] == b[i];
  }

  lemma WordByte(a: seq<bv8>)
    requires |a| == 4
    ensures (Word(a) & 0xff) as bv8 == a[0] && ((Word(a) >> 8) & 0xff) as bv8 == a[1]
    ensures ((Word(a) >> 16) & 0xff) as bv8 == a[2] && (Word(a) >> 24) as bv8 == a[3]
  {
  }

  lemma FourBytesHash(seed: bv32, a: seq<bv8>)
    requires |a| == 4
    ensures Hash(seed, a) == Fmix(Xor(Block(seed, Word(a)), Length32(4)))
  {
    hide Fmix, Block, Word, Length32;
    assert a[..4] == a && |a[4..]| == 0 && Rest(a) == [];
    NextBlock(seed, a, Word(a), Block(seed, Word(a)));
    LastBlock(Block(seed, Word(a)), a[4..]);
  }

  /** Two different words of four bytes never hash to the same value. */
  lemma FourBytesApart(seed: bv32, a: seq<bv8>, b: seq<bv8>)
    requires |a| == |b| == 4 && Hash(seed, a) == Hash(seed, b)
    ensures a == b
  {
    hide Hash, Fmix, Block, Word, Length32, Xor;
    FourBytesHash(seed, a);
    FourBytesHash(seed, b);
    var x, y := Block(seed, Word(a)), Block(seed, Word(b));
    FmixApart(Xor(x, Length32(4)), Xor(y, Length32(4)));
    XorBack(x, Length32(4));
    XorBack(y, Length32(4));
    BlockApart(seed, Word(a), seed, Word(b));
    WordsApart(a, b);
  }

  // ----- Published values, one for each length of the rest -----

  lemma NextBlock(h: bv32, data: seq<bv8>, w: bv32, h': bv32)
    requires |data| >= 4 && Word(data[..4]) == w && Block(h, w) == h'
    ensures Blocks(h, data) == Blocks(h', data[4..])
  {
    hide Word, Block;
  }

  lemma LastBlock(h: bv32, data: seq<bv8>)
    requires |data| < 4
    ensures Blocks(h, data) == h
  {
  }

  lemma RestIs(data: seq<bv8>, n: nat)
    requires n <= |data| < n + 4 && n % 4 == 0
    ensures Rest(data) == data[n..]
  {
  }

  lemma Lengths()
    ensures Length32(0) == 0 && Length32(2) == 2 && Length32(3) == 3 && Length32(4) == 4 && Length32(5) == 5 && Length32(13) == 13
  {
  }

  lemma HashIs(seed: bv32, data: seq<bv8>, h: bv32, rest: seq<bv8>, mixed: bv32, length: bv32, value: bv32)
    requires Blocks(seed, data) == h && Rest(data) == rest && MixTail(h, rest) == mixed && Length32(|data|) == length
    requires Fmix(mixed ^ length) == value
    ensures Hash(seed, data) == value
  {
    hide Blocks, MixTail, Fmix, Length32;
  }

  lemma HashOfNothingTail()
    ensures MixTail(0, []) == 0
  {
  }

  lemma HashOfNothingFinal()
    ensures Fmix(0 ^ 0) == 0
  {
    assert 0 ^ 0 == 0 as bv32;
    assert (0 ^ (0 >> 16)) * 0x85ebca6b == 0 as bv32;
    assert (0 ^ (0 >> 13)) * 0xc2b2ae35 == 0 as bv32;
  }

  /** No bytes. */
  lemma HashOfNothing()
    ensures Hash(0, []) == 0
  {
    hide Hash, Blocks, Block, MixTail, Fmix, Word, Rest, Length32;
    var data: seq<bv8> := [];
    LastBlock(0, data[0..]);
    assert data[0..] == data && data[0..] == [];
    RestIs(data, 0);
    HashOfNothingTail();
    HashOfNothingFinal();
    Lengths();
    HashIs(0, data, 0, [], 0, 0, 0);
  }

  lemma HashOfAbcMixed()
    ensures MixK(0x00636261) == 0xa7349db7 && Tail([0x61, 0x62, 0x63]) == 0x00636261
  {
  }

  lemma HashOfAbcTail()
    ensures MixTail(0, [0x61, 0x62, 0x63]) == 0xa7349db7
  {
    hide MixK, Tail;
    HashOfAbcMixed();
  }

  lemma HashOfAbcFinal()
    ensures Fmix(0xa7349db7 ^ 3) == 0xb3dd93fa
  {
    assert 0xa7349db7 ^ 3 == 0xa7349db4 as bv32;
    assert (0xa7349db4 ^ (0xa7349db4 >> 16)) * 0x85ebca6b == 0x4c7d7380 as bv32;
    assert (0x4c7d7380 ^ (0x4c7d7380 >> 13)) * 0xc2b2ae35 == 0xb3dd2027 as bv32;
  }

  /** "abc". */
  lemma HashOfAbc()
    ensures Hash(0, [0x61, 0x62, 0x63]) == 0xb3dd93fa
  {
    hide Hash, Blocks, Block, MixTail, Fmix, Word, Rest, Length32;
    var data: seq<bv8> := [0x61, 0x62, 0x63];
    LastBlock(0, data[0..]);
    assert data[0..] == data && data[0..] == [0x61, 0x62, 0x63];
    RestIs(data, 0);
    HashOfAbcTail();
    HashOfAbcFinal();
    Lengths();
    HashIs(0, data, 0, [0x61, 0x62, 0x63], 0xa7349db7, 3, 0xb3dd93fa);
  }

  lemma HashOfTestBlock0()
    ensures Block(0, 0x74736574) == 0x7985975b && Word([0x74, 0x65, 0x73, 0x74]) == 0x74736574
  {
    assert MixK(0x74736574) == 0x465f51e8;
    assert Rotl32(0 ^ 0x465f51e8, 13) == 0xea3d08cb;
  }

  lemma HashOfTestTail()
    ensures MixTail(0x7985975b, []) == 0x7985975b
  {
  }

  lemma HashOfTestFinal()
    ensures Fmix(0x7985975b ^ 4) == 0xba6bd213
  {
    assert 0x7985975b ^ 4 == 0x7985975f as bv32;
    assert (0x7985975f ^ (0x7985975f >> 16)) * 0x85ebca6b == 0xfd90d91e as bv32;
    assert (0xfd90d91e ^ (0xfd90d91e >> 13)) * 0xc2b2ae35 == 0xba6b6878 as bv32;
  }

  /** "test". */
  lemma HashOfTest()
    ensures Hash(0, [0x74, 0x65, 0x73, 0x74]) == 0xba6bd213
  {
    hide Hash, Blocks, Block, MixTail, Fmix, Word, Rest, Length32;
    var data: seq<bv8> := [0x74, 0x65, 0x73, 0x74];
    HashOfTestBlock0();
    var data0: seq<bv8> := data[0..];
    assert data0[..4] == [0x74, 0x65, 0x73, 0x74];
    NextBlock(0, data0, 0x74736574, 0x7985975b);
    assert data0[4..] == data[4..];
    LastBlock(0x7985975b, data[4..]);
    assert data[0..] == data && data[4..] == [];
    RestIs(data, 4);
    HashOfTestTail();
    HashOfTestFinal();
    Lengths();
    HashIs(0, data, 0x7985975b, [], 0x7985975b, 4, 0xba6bd213);
  }

  lemma HashOfHelloBlock0()
    ensures Block(0, 0x6c6c6568) == 0xef13efcd && Word([0x68, 0x65, 0x6c, 0x6c]) == 0x6c6c6568
  {
    assert MixK(0x6c6c6568) == 0xa0ae7465;
    assert Rotl32(0 ^ 0xa0ae7465, 13) == 0xce8cb415;
  }

  lemma HashOfHelloMixed()
    ensures MixK(0x0000006f) == 0x73bcd07e && Tail([0x6f]) == 0x0000006f
  {
  }

  lemma HashOfHelloTail()
    ensures MixTail(0xef13efcd, [0x6f]) == 0x9caf3fb3
  {
    hide MixK, Tail;
    HashOfHelloMixed();
  }

  lemma HashOfHelloFinal()
    ensures Fmix(0x9caf3fb3 ^ 5) == 0x248bfa47
  {
    assert 0x9caf3fb3 ^ 5 == 0x9caf3fb6 as bv32;
    assert (0x9caf3fb6 ^ (0x9caf3fb6 >> 16)) * 0x85ebca6b == 0xc90de573 as bv32;
    assert (0xc90de573 ^ (0xc90de573 >> 13)) * 0xc2b2ae35 == 0x248bdecc as bv32;
  }

  /** "hello". */
  lemma HashOfHello()
    ensures Hash(0, [0x68, 0x65, 0x6c, 0x6c, 0x6f]) == 0x248bfa47
  {
    hide Hash, Blocks, Block, MixTail, Fmix, Word, Rest, Length32;
    var data: seq<bv8> := [0x68, 0x65, 0x6c, 0x6c, 0x6f];
    HashOfHelloBlock0();
    var data0: seq<bv8> := data[0..];
    assert data0[..4] == [0x68, 0x65, 0x6c, 0x6c];
    NextBlock(0, data0, 0x6c6c6568, 0xef13efcd);
    assert data0[4..] == data[4..];
    LastBlock(0xef13efcd, data[4..]);
    assert data[0..] == data && data[4..] == [0x6f];
    RestIs(data, 4);
    HashOfHelloTail();
    HashOfHelloFinal();
    Lengths();
    HashIs(0, data, 0xef13efcd, [0x6f], 0x9caf3fb3, 5, 0x248bfa47);
  }

  lemma HashOfAaMixed()
    ensures MixK(0x00006161) == 0x8222e2f7 && Tail([0x61, 0x61]) == 0x00006161
  {
  }

  lemma HashOfAaTail()
    ensures MixTail(0x9747b28c, [0x61, 0x61]) == 0x1565507b
  {
    hide MixK, Tail;
    HashOfAaMixed();
  }

  lemma HashOfAaFinal()
    ensures Fmix(0x1565507b ^ 2) == 0x5d211726
  {
    assert 0x1565507b ^ 2 == 0x15655079 as bv32;
    assert (0x15655079 ^ (0x15655079 >> 16)) * 0x85ebca6b == 0xd68ffab4 as bv32;
    assert (0xd68ffab4 ^ (0xd68ffab4 >> 13)) * 0xc2b2ae35 == 0x5d214a07 as bv32;
  }

  /** "aa" with a seed. */
  lemma HashOfAa()
    ensures Hash(0x9747b28c, [0x61, 0x61]) == 0x5d211726
  {
    hide Hash, Blocks, Block, MixTail, Fmix, Word, Rest, Length32;
    var data: seq<bv8> := [0x61, 0x61];
    LastBlock(0x9747b28c, data[0..]);
    assert data[0..] == data && data[0..] == [0x61, 0x61];
    RestIs(data, 0);
    HashOfAaTail();
    HashOfAaFinal();
    Lengths();
    HashIs(0x9747b28c, data, 0x9747b28c, [0x61, 0x61], 0x1565507b, 2, 0x5d211726);
  }

  lemma HashOfSeededBlock0()
    ensures Block(0x9747b28c, 0x6c6c6548) == 0xdae4c92e && Word([0x48, 0x65, 0x6c, 0x6c]) == 0x6c6c6548
  {
    assert MixK(0x6c6c6548) == 0x0153080c;
    assert Rotl32(0x9747b28c ^ 0x0153080c, 13) == 0x975012c2;
  }

  lemma HashOfSeededBlock1()
    ensures Block(0xdae4c92e, 0x77202c6f) == 0x71c6b43c && Word([0x6f, 0x2c, 0x20, 0x77]) == 0x77202c6f
  {
    assert MixK(0x77202c6f) == 0x7d238cad;
    assert Rotl32(0xdae4c92e ^ 0x7d238cad, 13) == 0xe8b074f8;
  }

  lemma HashOfSeededBlock2()
    ensures Block(0x71c6b43c, 0x646c726f) == 0x3bd692af && Word([0x6f, 0x72, 0x6c, 0x64]) == 0x646c726f
  {
    assert MixK(0x646c726f) == 0xa9bc9655;
    assert Rotl32(0x71c6b43c ^ 0xa9bc9655, 13) == 0x444d3b0f;
  }

  lemma HashOfSeededMixed()
    ensures MixK(0x00000021) == 0xac5e5123 && Tail([0x21]) == 0x00000021
  {
  }

  lemma HashOfSeededTail()
    ensures MixTail(0x3bd692af, [0x21]) == 0x9788c38c
  {
    hide MixK, Tail;
    HashOfSeededMixed();
  }

  lemma HashOfSeededFinal()
    ensures Fmix(0x9788c38c ^ 13) == 0x24884cba
  {
    assert 0x9788c38c ^ 13 == 0x9788c381 as bv32;
    assert (0x9788c381 ^ (0x9788c381 >> 16)) * 0x85ebca6b == 0xb98d39c3 as bv32;
    assert (0xb98d39c3 ^ (0xb98d39c3 >> 13)) * 0xc2b2ae35 == 0x24886832 as bv32;
  }

  /** "Hello, world!" with a seed. */
  lemma HashOfSeeded()
    ensures Hash(0x9747b28c, [0x48, 0x65, 0x6c, 0x6c, 0x6f, 0x2c, 0x20, 0x77, 0x6f, 0x72, 0x6c, 0x64, 0x21]) == 0x24884cba
  {
    hide Hash, Blocks, Block, MixTail, Fmix, Word, Rest, Length32;
    var data: seq<bv8> := [0x48, 0x65, 0x6c, 0x6c, 0x6f, 0x2c, 0x20, 0x77, 0x6f, 0x72, 0x6c, 0x64, 0x21];
    HashOfSeededBlock0();
    var data0: seq<bv8> := data[0..];
    assert data0[..4] == [0x48, 0x65, 0x6c, 0x6c];
    NextBlock(0x9747b28c, data0, 0x6c6c6548, 0xdae4c92e);
    assert data0[4..] == data[4..];
    HashOfSeededBlock1();
    var data1: seq<bv8> := data[4..];
    assert data1[..4] == [0x6f, 0x2c, 0x20, 0x77];
    NextBlock(0xdae4c92e, data1, 0x77202c6f, 0x71c6b43c);
    assert data1[4..] == data[8..];
    HashOfSeededBlock2();
    var data2: seq<bv8> := data[8..];
    assert data2[..4] == [0x6f, 0x72, 0x6c, 0x64];
    NextBlock(0x71c6b43c, data2, 0x646c726f, 0x3bd692af);
    assert data2[4..] == data[12..];
    LastBlock(0x3bd692af, data[12..]);
    assert data[0..] == data && data[12..] == [0x21];
    RestIs(data, 12);
    HashOfSeededTail();
    HashOfSeededFinal();
    Lengths();
    HashIs(0x9747b28c, data, 0x3bd692af, [0x21], 0x9788c38c, 13, 0x24884cba);
  }
}
