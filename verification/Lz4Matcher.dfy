/** Finding matches: hashing, the position table, the 8-byte-at-a-time comparison, the search loop and
    the catch-up loop.  What is proved is that a match is sound whatever the table holds. */
module Lz4Matcher {
  import opened Lz4Block

  const MAX_INPUT_SIZE := 0x7E000000
  const LIMIT_64K := 64 * 1024 + MFLIMIT - 1

  datatype TableType = ByU32 | ByU16

  function TableSize(t: TableType): nat {
    match t
    case ByU32 => 4096
    case ByU16 => 8192
  }

  // ----- Little-endian reads and the two hash functions -----

  function Read32(m: seq<byte>, p: nat): (r: nat)
    requires p + 4 <= |m|
    ensures r < 0x1_0000_0000
  {
    var a: int, b: int, c: int, d: int := m[p], m[p + 1], m[p + 2], m[p + 3];
    a + 0x100 * b + 0x1_0000 * c + 0x100_0000 * d
  }

  function Read64(m: seq<byte>, p: nat): (r: nat)
    requires p + 8 <= |m|
  {
    Read32(m, p) + 0x1_0000_0000 * Read32(m, p + 4)
  }

  lemma LowDigit(a: int, x: int, b: int, y: int)
    requires 0 <= a < 0x100 && 0 <= b < 0x100 && a + 0x100 * x == b + 0x100 * y
    ensures a == b && x == y
  {
  }

  lemma DigitsUnique(a: int, b: int, c: int, d: int, a': int, b': int, c': int, d': int)
    requires 0 <= a < 0x100 && 0 <= b < 0x100 && 0 <= c < 0x100
    requires 0 <= a' < 0x100 && 0 <= b' < 0x100 && 0 <= c' < 0x100
    requires a + 0x100 * b + 0x1_0000 * c + 0x100_0000 * d == a' + 0x100 * b' + 0x1_0000 * c' + 0x100_0000 * d'
    ensures a == a' && b == b' && c == c' && d == d'
  {
    LowDigit(a, b + 0x100 * c + 0x1_0000 * d, a', b' + 0x100 * c' + 0x1_0000 * d');
    LowDigit(b, c + 0x100 * d, b', c' + 0x100 * d');
    LowDigit(c, d, c', d');
  }

  /** Two 32-bit reads agree exactly when the four bytes do. */
  lemma Read32Injective(m: seq<byte>, p: nat, q: nat)
    requires q <= p && p + 4 <= |m|
    ensures Read32(m, p) == Read32(m, q) <==> Agree(m, p, q, 4)
  {
    if Read32(m, p) == Read32(m, q) {
      DigitsUnique(m[p], m[p + 1], m[p + 2], m[p + 3], m[q], m[q + 1], m[q + 2], m[q + 3]);
    }
  }

  /** LZ4_hashPosition on a 64-bit little-endian machine: 32-bit arithmetic on 4 bytes for the 16-bit
      table, 64-bit arithmetic on 5 bytes for the other. */
  function HashPosition(m: seq<byte>, p: nat, t: TableType): (h: nat)
    requires p + 8 <= |m|
    ensures h < TableSize(t)
  {
    match t
    case ByU16 => Read32(m, p) * 2654435761 % 0x1_0000_0000 / 0x8_0000
    case ByU32 => (Read64(m, p) * 0x100_0000 % 0x1_0000_0000_0000_0000) * 889523592379 % 0x1_0000_0000_0000_0000 / 0x10_0000_0000_0000
  }

  lemma ReadValues(m: seq<byte>)
    requires m == [1, 2, 3, 4, 5, 6, 7, 8]
    ensures Read32(m, 0) == 0x04030201 && Read32(m, 4) == 0x08070605
  {
  }

  lemma Products()
    ensures 0x04030201 * 2654435761 % 0x1_0000_0000 == 1044241329 && 1044241329 / 0x8_0000 == 1991
    ensures 0x0807060504030201 * 0x100_0000 % 0x1_0000_0000_0000_0000 == 361417177238077440
    ensures 361417177238077440 * 889523592379 % 0x1_0000_0000_0000_0000 == 6275668579530571776 && 6275668579530571776 / 0x10_0000_0000_0000 == 1393
  {
  }

  /** The two hashes of the bytes 1 to 8. */
  lemma HashValues(m: seq<byte>)
    requires m == [1, 2, 3, 4, 5, 6, 7, 8]
    ensures HashPosition(m, 0, ByU16) == 1991 && HashPosition(m, 0, ByU32) == 1393
  {
    hide Read32;
    ReadValues(m);
    assert Read64(m, 0) == 0x0807060504030201;
    Products();
  }

  // ----- The common prefix -----

  /** The `n` bytes at `p` repeat those at `q`. */
  ghost predicate Agree(m: seq<byte>, p: nat, q: nat, n: nat) {
    q <= p && p + n <= |m| && forall j :: p <= j < p + n ==> m[j] == m[j - (p - q)]
  }

  /** `r` is the length of the longest common prefix of the bytes at `p` and at `q`, up to `limit`. */
  ghost predicate IsCommonLength(m: seq<byte>, p: nat, q: nat, limit: nat, r: nat) {
    && p + r <= limit <= |m|
    && Agree(m, p, q, r)
    && (p + r < limit ==> m[p + r] != m[q + r])
  }

  /** How many of the `n` bytes at `p` and at `q` agree before the first that differs.  For n = 8 this
      is LZ4_NbCommonBytes of the XOR of the two words, and 8 when that XOR is zero. */
  function CommonBytes(m: seq<byte>, p: nat, q: nat, n: nat): (r: nat)
    requires q <= p && p + n <= |m|
    ensures r <= n && Agree(m, p, q, r) && (r < n ==> m[p + r] != m[q + r])
  {
    if n == 0 then 0
    else
      var r := CommonBytes(m, p, q, n - 1);
      if r < n - 1 || m[p + r] != m[q + r] then r else n
  }

  lemma AgreeChain(m: seq<byte>, p: nat, q: nat, n: nat, more: nat)
    requires Agree(m, p, q, n) && Agree(m, p + n, q + n, more)
    ensures Agree(m, p, q, n + more)
  {
  }

  /** A common prefix, and the length of the common prefix behind it. */
  lemma CommonChain(m: seq<byte>, p: nat, q: nat, limit: nat, n: nat, r: nat)
    requires Agree(m, p, q, n) && p + n <= limit && IsCommonLength(m, p + n, q + n, limit, r)
    ensures IsCommonLength(m, p, q, limit, n + r)
  {
    hide Agree;
    AgreeChain(m, p, q, n, r);
  }

  /** LZ4_count. */
  method Count(m: seq<byte>, pIn: nat, pMatch: nat, limit: nat) returns (r: nat)
    requires pMatch <= pIn <= limit <= |m|
    ensures IsCommonLength(m, pIn, pMatch, limit, r)
  {
    hide Agree, CommonBytes;
    NothingAgrees(m, pIn, pMatch);
    var p: nat, q: nat := pIn, pMatch;
    if p < limit - 7 {
      var d := CommonBytes(m, p, q, 8);
      if d < 8 {
        return d;
      }
      p, q := p + 8, q + 8;
    }
    while p < limit - 7
      invariant pIn <= p <= limit && p - pIn == q - pMatch
      invariant Agree(m, pIn, pMatch, p - pIn)
    {
      var d := CommonBytes(m, p, q, 8);
      if d < 8 {
        CommonChain(m, pIn, pMatch, limit, p - pIn, d);
        return p + d - pIn;
      }
      AgreeChain(m, pIn, pMatch, p - pIn, 8);
      p, q := p + 8, q + 8;
    }
    var tail := CountTail(m, p, q, limit);
    CommonChain(m, pIn, pMatch, limit, p - pIn, tail);
    return p - pIn + tail;
  }

  lemma NothingAgrees(m: seq<byte>, p: nat, q: nat)
    requires q <= p <= |m|
    ensures Agree(m, p, q, 0)
  {
  }

  lemma SameBytesAgree(m: seq<byte>, p: nat, q: nat, n: nat)
    requires q <= p && p + n <= |m| && (n == 2 || n == 4)
    ensures SameBytes(m, p, q, n) <==> Agree(m, p, q, n)
  {
    assert Agree(m, p, q, n) ==> m[p] == m[q] && m[p + 1] == m[q + 1];
    assert Agree(m, p, q, n) && n == 4 ==> m[p + 2] == m[q + 2] && m[p + 3] == m[q + 3];
  }

  /** If not 2n bytes agree, and n do, then not n behind them. */
  lemma AgreeRest(m: seq<byte>, p: nat, q: nat, limit: nat, n: nat)
    requires Agree(m, p, q, n) && (p + 2 * n <= limit ==> !Agree(m, p, q, 2 * n))
    ensures p + n + n <= limit ==> !Agree(m, p + n, q + n, n)
  {
    hide Agree;
    if p + n + n <= limit && Agree(m, p + n, q + n, n) {
      AgreeChain(m, p, q, n, n);
    }
  }

  lemma AgreeOne(m: seq<byte>, p: nat, q: nat)
    requires q <= p < |m|
    ensures Agree(m, p, q, 1) <==> m[p] == m[q]
  {
  }

  lemma CommonEnds(m: seq<byte>, pIn: nat, pMatch: nat, limit: nat, p: nat, q: nat)
    requires pMatch <= pIn <= p <= limit <= |m| && p - pIn == q - pMatch
    requires Agree(m, pIn, pMatch, p - pIn) && (p + 1 <= limit ==> !Agree(m, p, q, 1))
    ensures IsCommonLength(m, pIn, pMatch, limit, p - pIn)
  {
    hide Agree;
    if p < limit {
      AgreeOne(m, p, q);
    }
  }

  /** One step: `n` bytes are compared, and it is known that no 2n agree. */
  lemma CountStep(m: seq<byte>, pIn: nat, pMatch: nat, limit: nat, p: nat, q: nat, n: nat)
    requires pMatch <= pIn <= p <= limit <= |m| && p - pIn == q - pMatch && p + n <= limit
    requires Agree(m, pIn, pMatch, p - pIn) && Agree(m, p, q, n) && (p + 2 * n <= limit ==> !Agree(m, p, q, 2 * n))
    ensures Agree(m, pIn, pMatch, p + n - pIn) && (p + n + n <= limit ==> !Agree(m, p + n, q + n, n))
  {
    hide Agree;
    AgreeChain(m, pIn, pMatch, p - pIn, n);
    AgreeRest(m, p, q, limit, n);
  }

  /** The last steps of LZ4_count, by 4, 2 and 1 bytes. */
  method CountTail(m: seq<byte>, pIn: nat, pMatch: nat, limit: nat) returns (r: nat)
    requires pMatch <= pIn <= limit <= |m| && limit - 7 <= pIn
    ensures IsCommonLength(m, pIn, pMatch, limit, r)
  {
    hide Agree, SameBytes, IsCommonLength;
    NothingAgrees(m, pIn, pMatch);
    var p: nat, q: nat := pIn, pMatch;
    if p < limit - 3 {
      SameBytesAgree(m, p, q, 4);
      if SameBytes(m, p, q, 4) {
        p, q := p + 4, q + 4;
      }
    }
    if p < limit - 1 {
      SameBytesAgree(m, p, q, 2);
      if SameBytes(m, p, q, 2) {
        CountStep(m, pIn, pMatch, limit, p, q, 2);
        p, q := p + 2, q + 2;
      }
    }
    if p < limit {
      AgreeOne(m, p, q);
      if m[q] == m[p] {
        CountStep(m, pIn, pMatch, limit, p, q, 1);
        p, q := p + 1, q + 1;
      }
    }
    CommonEnds(m, pIn, pMatch, limit, p, q);
    r := p - pIn;
  }

  /** A 2- or 4-byte comparison, byte by byte. */
  predicate SameBytes(m: seq<byte>, p: nat, q: nat, n: nat)
    requires p + n <= |m| && q + n <= |m|
    requires n == 2 || n == 4
  {
    m[p] == m[q] && m[p + 1] == m[q + 1] && (n == 4 ==> m[p + 2] == m[q + 2] && m[p + 3] == m[q + 3])
  }

  // ----- The table and the search -----

  /** A compression call: `size` bytes at `start` of `m`.  Table entries are positions relative to
      `base`; matches may reach back to `low`.  With `dictSmall`, entries may denote positions below
      `low` and are tested for it. */
  datatype Job = Job(m: seq<byte>, start: nat, size: nat, table: TableType, base: int, low: nat, dictSmall: bool) {
    /** What the callers of the encoder establish.  Without the `dictSmall` test, an entry below
        `low` must be out of reach of every position of this call. */
    ghost predicate Valid() {
      && start + size <= |m| && size <= MAX_INPUT_SIZE
      && base <= start && low <= start
      && (table == ByU16 ==> base == low == start && size < LIMIT_64K)
      && (table == ByU32 ==> start - base + size < 0x1_0000_0000)
      && (!dictSmall ==> low <= base || low + MAX_DISTANCE <= start)
    }

    function End(): nat { start + size }

    /** The length of the history and the input together. */
    ghost function Total(): nat
      requires Valid()
    {
      End() - low
    }

    /** The first position, past the end of the region where matches may start. */
    function MfLimit(): int { End() - MFLIMIT }
  }

  /** Every entry denotes a position below `ip`; nothing else is assumed of the table. */
  ghost predicate TableBelow(table: seq<nat>, c: Job, ip: nat) {
    && |table| == TableSize(c.table)
    && forall h :: 0 <= h < |table| ==> c.base + table[h] < ip
  }

  /** Positions are stored in 16 or 32 bits. */
  function Stored(t: TableType, x: int): (r: nat)
    ensures t == ByU16 && 0 <= x < 0x1_0000 ==> r == x
    ensures t == ByU32 && 0 <= x < 0x1_0000_0000 ==> r == x
  {
    match t
    case ByU16 => x % 0x1_0000
    case ByU32 => x % 0x1_0000_0000
  }

  /** No position that is put in the table is truncated. */
  method PutPositionOnHash(c: Job, table: array<nat>, p: nat, h: nat)
    requires c.Valid() && h < table.Length && c.start <= p <= c.MfLimit()
    modifies table
    ensures table[..] == old(table[..])[h := p - c.base]
  {
    table[h] := Stored(c.table, p - c.base);
  }

  method PutPosition(c: Job, table: array<nat>, p: nat, ghost below: nat)
    requires c.Valid() && c.start <= p <= c.MfLimit() && p < below
    requires TableBelow(table[..], c, below)
    modifies table
    ensures TableBelow(table[..], c, below)
    ensures table[..] == old(table[..])[HashPosition(c.m, p, c.table) := p - c.base]
  {
    PutPositionOnHash(c, table, p, HashPosition(c.m, p, c.table));
  }

  /** A match for the bytes at `ip`: in reach of a 16-bit offset, not below `low`, four bytes equal. */
  ghost predicate IsMatch(c: Job, ip: nat, match_: int) {
    && c.start <= ip && c.low <= match_ < ip && ip - match_ <= MAX_DISTANCE
    && Agree(c.m, ip, match_, MINMATCH)
  }

  /** The tests a candidate must pass.  The search loop omits the distance test for the 16-bit table,
      whose positions are all less than 64 KB apart. */
  predicate Accepts(c: Job, ip: nat, candidate: int, distanceTest: bool)
    requires c.Valid() && c.start <= ip && ip + MINMATCH <= |c.m| && c.base <= candidate < ip
    requires distanceTest || c.table == ByU16
  {
    && (c.dictSmall ==> candidate >= c.low)
    && (distanceTest ==> candidate + MAX_DISTANCE >= ip)
    && Read32(c.m, candidate) == Read32(c.m, ip)
  }

  /** An accepted candidate is a match, whatever the table held. */
  lemma AcceptedIsMatch(c: Job, ip: nat, candidate: int, distanceTest: bool)
    requires c.Valid() && c.start <= ip <= c.MfLimit() && c.base <= candidate < ip
    requires distanceTest || c.table == ByU16
    requires Accepts(c, ip, candidate, distanceTest)
    ensures IsMatch(c, ip, candidate)
  {
    Read32Injective(c.m, ip, candidate);
  }

  /** Whether a candidate is taken.  The bounds hold of every table entry; 0 is one for what passes the
      tests. */
  ghost predicate Takes(c: Job, ip: nat, candidate: int, distanceTest: bool)
    requires c.Valid() && (distanceTest || c.table == ByU16)
  {
    c.start <= ip && ip + MINMATCH <= |c.m| && c.base <= candidate < ip && 0 <= candidate && Accepts(c, ip, candidate, distanceTest)
  }

  /** A table with the position `p` put in place `h`. */
  ghost function Put(c: Job, table: seq<nat>, p: nat, h: nat): (t: seq<nat>)
    requires c.base <= p && h < |table|
    ensures |t| == |table|
  {
    table[h := p - c.base]
  }

  datatype Probe = NoHit | HitAt(ip: nat, match_: int, table: seq<nat>)

  /** What the search finds from `ip` on, whose hash is `h`. */
  ghost function Probed(c: Job, table: seq<nat>, ip: nat, h: nat, step: nat, nb: nat): (r: Probe)
    requires c.Valid() && c.start <= ip && step >= 1 && nb >= 64 && |table| == TableSize(c.table) && h < |table|
    ensures r.HitAt? ==> && ip <= r.ip < c.MfLimit() && |r.table| == |table|
                         && Takes(c, r.ip, r.match_, c.table != ByU16)
    decreases c.End() - ip
  {
    if ip + step > c.MfLimit() then NoHit
    else
      var next, candidate, table' := ip + step, c.base + table[h], Put(c, table, ip, h);
      if Takes(c, ip, candidate, c.table != ByU16) then HitAt(ip, candidate, table')
      else Probed(c, table', next, HashPosition(c.m, next, c.table), nb / 64, nb + 1)
  }

  /** How far a match is extended backwards. */
  ghost function CaughtUp(c: Job, anchor: nat, ip: nat, match_: int): (r: (nat, int))
    requires anchor <= ip <= |c.m| && 0 <= match_ < ip
    ensures anchor <= r.0 <= ip && 0 <= r.1 < r.0 && ip - match_ == r.0 - r.1
    decreases ip
  {
    if ip > anchor && match_ > c.low && c.m[ip - 1] == c.m[match_ - 1] then CaughtUp(c, anchor, ip - 1, match_ - 1) else (ip, match_)
  }

  /** The length of the common prefix. */
  ghost function CommonLength(m: seq<byte>, p: nat, q: nat, limit: nat): (r: nat)
    requires q <= p <= limit <= |m|
    ensures p + r <= limit
    decreases limit - p
  {
    if p < limit && m[p] == m[q] then 1 + CommonLength(m, p + 1, q + 1, limit) else 0
  }

  lemma {:induction false} CommonLengthUnique(m: seq<byte>, p: nat, q: nat, limit: nat, r: nat)
    requires q <= p <= limit <= |m| && IsCommonLength(m, p, q, limit, r)
    ensures r == CommonLength(m, p, q, limit)
    decreases r
  {
    if r > 0 {
      assert m[p] == m[p - (p - q)];
      CommonLengthUnique(m, p + 1, q + 1, limit, r - 1);
    }
  }

  /** Whether the first probe already succeeds. */
  ghost predicate FirstAccepted(c: Job, table: seq<nat>, ip0: nat, hash0: nat)
    requires c.Valid() && c.start < ip0 <= c.MfLimit() + 1 && TableBelow(table, c, ip0) && hash0 < |table|
  {
    ip0 < c.MfLimit() && Accepts(c, ip0, c.base + table[hash0], c.table != ByU16)
  }

  /** The search loop, with acceleration 1: probe one position after another, in growing steps, until
      a candidate is accepted or the next probe would be past the limit. */
  method FindMatch(c: Job, table: array<nat>, ip0: nat, hash0: nat) returns (found: bool, ip: nat, match_: nat)
    requires c.Valid() && c.start < ip0 <= c.MfLimit() + 1
    requires TableBelow(table[..], c, ip0) && hash0 < table.Length
    modifies table
    ensures found ==> ip0 <= ip < c.MfLimit() && IsMatch(c, ip, match_) && TableBelow(table[..], c, ip + 1)
    ensures FirstAccepted(c, old(table[..]), ip0, hash0) ==> found && ip == ip0 && match_ == c.base + old(table[..])[hash0]
    ensures !found ==> TableBelow(table[..], c, c.End() + 1)
    ensures |old(table[..])| == TableSize(c.table)
    ensures Probed(c, old(table[..]), ip0, hash0, 1, 64) == if found then HitAt(ip, match_, table[..]) else NoHit
  {
    hide HashPosition, IsMatch, Stored, Takes;
    var forwardIp, forwardH := ip0, hash0;
    var step, searchMatchNb := 1, 64;
    ghost var whole := Probed(c, table[..], ip0, hash0, 1, 64);
    while true
      invariant ip0 <= forwardIp <= c.MfLimit() + 1 && step >= 1 && searchMatchNb >= 64
      invariant TableBelow(table[..], c, forwardIp) && 0 <= forwardH < table.Length
      invariant if forwardIp == ip0 then forwardH == hash0 && step == 1 && table[..] == old(table[..])
                else !FirstAccepted(c, old(table[..]), ip0, hash0)
      invariant whole == Probed(c, table[..], forwardIp, forwardH, step, searchMatchNb)
      decreases c.End() - forwardIp
    {
      var h := forwardH;
      ip := forwardIp;
      forwardIp := forwardIp + step;
      step, searchMatchNb := searchMatchNb / 64, searchMatchNb + 1;
      if forwardIp > c.MfLimit() {
        return false, ip, 0;
      }
      assert table[h] == table[..][h];
      var candidate := c.base + table[h];
      forwardH := HashPosition(c.m, forwardIp, c.table);
      TakesAccepted(c, ip, candidate, c.table != ByU16);
      PutPositionOnHash(c, table, ip, h);
      if Accepts(c, ip, candidate, c.table != ByU16) {
        AcceptedIsMatch(c, ip, candidate, c.table != ByU16);
        return true, ip, candidate;
      }
    }
  }

  lemma TakesAccepted(c: Job, ip: nat, candidate: int, distanceTest: bool)
    requires c.Valid() && c.start <= ip <= c.MfLimit() && c.base <= candidate < ip && (distanceTest || c.table == ByU16)
    ensures Takes(c, ip, candidate, distanceTest) <==> Accepts(c, ip, candidate, distanceTest)
  {
    if Accepts(c, ip, candidate, distanceTest) {
      AcceptedIsMatch(c, ip, candidate, distanceTest);
    }
  }

  /** The catch-up loop: extends a match backwards, not past `anchor` nor below `low`. */
  method CatchUp(c: Job, anchor: nat, ip0: nat, match0: nat) returns (ip: nat, match_: nat)
    requires c.Valid() && c.start <= anchor <= ip0 <= c.MfLimit() && IsMatch(c, ip0, match0)
    ensures anchor <= ip <= ip0 && ip - match_ == ip0 - match0 && IsMatch(c, ip, match_)
    ensures Agree(c.m, ip, match_, ip0 - ip + MINMATCH)
    ensures ip == anchor || match_ == c.low || c.m[ip - 1] != c.m[match_ - 1]
    ensures match0 < ip0 && (ip, match_) == CaughtUp(c, anchor, ip0, match0)
  {
    hide IsMatch, Agree, CaughtUp;
    MatchAgrees(c, ip0, match0);
    ghost var whole := CaughtUp(c, anchor, ip0, match0);
    ip, match_ := ip0, match0;
    while ip > anchor && match_ > c.low && c.m[ip - 1] == c.m[match_ - 1]
      invariant anchor <= ip <= ip0 && ip - match_ == ip0 - match0 && c.low <= match_
      invariant Agree(c.m, ip, match_, ip0 - ip + MINMATCH)
      invariant whole == CaughtUp(c, anchor, ip, match_)
    {
      AgreeBack(c.m, ip, match_, ip0 - ip + MINMATCH);
      CaughtUpStep(c, anchor, ip, match_);
      ip, match_ := ip - 1, match_ - 1;
    }
    CaughtUpStep(c, anchor, ip, match_);
    AgreeingMatch(c, ip, match_, ip0 - ip + MINMATCH);
  }

  lemma CaughtUpStep(c: Job, anchor: nat, ip: nat, match_: nat)
    requires anchor <= ip <= |c.m| && match_ < ip
    ensures CaughtUp(c, anchor, ip, match_)
         == if ip > anchor && match_ > c.low && c.m[ip - 1] == c.m[match_ - 1] then CaughtUp(c, anchor, ip - 1, match_ - 1)
            else (ip, match_)
  {
  }

  lemma MatchAgrees(c: Job, ip: nat, match_: nat)
    requires IsMatch(c, ip, match_)
    ensures Agree(c.m, ip, match_, MINMATCH) && c.start <= ip && c.low <= match_ < ip && ip - match_ <= MAX_DISTANCE
  {
  }

  lemma AgreeBack(m: seq<byte>, p: nat, q: nat, n: nat)
    requires Agree(m, p, q, n) && 0 < q <= p <= |m| && m[p - 1] == m[q - 1]
    ensures Agree(m, p - 1, q - 1, n + 1)
  {
  }

  lemma AgreeingMatch(c: Job, ip: nat, match_: nat, n: nat)
    requires c.start <= ip && c.low <= match_ < ip && ip - match_ <= MAX_DISTANCE
    requires Agree(c.m, ip, match_, n) && n >= MINMATCH
    ensures IsMatch(c, ip, match_)
  {
  }

  /** Reads the candidate for `ip`, then records `ip` in its place. */
  method NextCandidate(c: Job, table: array<nat>, ip: nat) returns (candidate: int)
    requires c.Valid() && c.start <= ip <= c.MfLimit()
    requires TableBelow(table[..], c, ip)
    modifies table
    ensures c.base <= candidate < ip && TableBelow(table[..], c, ip + 1)
    ensures candidate == c.base + old(table[..])[HashPosition(c.m, ip, c.table)]
    ensures table[..] == old(table[..])[HashPosition(c.m, ip, c.table) := ip - c.base]
  {
    hide HashPosition;
    var h := HashPosition(c.m, ip, c.table);
    assert table[h] == table[..][h];
    candidate := c.base + table[h];
    PutPosition(c, table, ip, ip + 1);
  }
}
