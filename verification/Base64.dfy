/** The Base64 codec of src/util.c, against section 4 of RFC 4648. */
module Base64 {

  type byte = n: nat | n < 256

  type sextet = n: nat | n < 64

  // ----- The encoding of RFC 4648 -----

  /** The alphabet of table 1. */
  function Letter(v: sextet): char {
    if v < 26 then 'A' + v as char
    else if v < 52 then 'a' + (v - 26) as char
    else if v < 62 then '0' + (v - 52) as char
    else if v == 62 then '+'
    else '/'
  }

  function Letters(v: seq<sextet>): (t: seq<char>)
    ensures |t| == |v|
  {
    seq(|v|, i requires 0 <= i < |v| => Letter(v[i]))
  }

  /** The 24-bit group of three bytes, as four sextets. */
  function Split(a: byte, b: byte, c: byte): (v: seq<sextet>)
    ensures |v| == 4
  {
    [a / 4, a % 4 * 16 + b / 16, b % 16 * 4 + c / 64, c % 64]
  }

  function Encode(d: seq<byte>): (t: seq<char>)
    ensures |t| == (|d| + 2) / 3 * 4
  {
    if |d| == 0 then []
    else if |d| == 1 then Letters(Split(d[0], 0, 0)[..2]) + ['=', '=']
    else if |d| == 2 then Letters(Split(d[0], d[1], 0)[..3]) + ['=']
    else Letters(Split(d[0], d[1], d[2])) + Encode(d[3..])
  }

  // ----- Decoding -----

  const WHITESPACE := 64
  const EQUALS := 65
  const INVALID := 66

  /** base64_decode_tab. */
  function Code(c: char): nat {
    if 'A' <= c <= 'Z' then (c - 'A') as nat
    else if 'a' <= c <= 'z' then (c - 'a') as nat + 26
    else if '0' <= c <= '9' then (c - '0') as nat + 52
    else if c == '+' then 62
    else if c == '/' then 63
    else if c == '=' then EQUALS
    else if c == '\t' then WHITESPACE
    else INVALID
  }

  /** How reading ends: a pad or the end of the text is well, an illegal character is not, and one above
      127, which is negative as a signed char, has no entry in the table at all. */
  function Ending(t: seq<char>): Outcome {
    if t == [] then Success
    else if t[0] as int > 127 then Outside
    else if Code(t[0]) == INVALID then Invalid
    else if Code(t[0]) == EQUALS then Success
    else Ending(t[1..])
  }

  /** The values of the letters up to there. */
  function Sextets(t: seq<char>): seq<sextet> {
    if t == [] || Code(t[0]) == EQUALS || Code(t[0]) == INVALID then []
    else if Code(t[0]) < 64 then [Code(t[0])] + Sextets(t[1..])
    else Sextets(t[1..])
  }

  /** What decoding a text into `room` bytes comes to: full groups that do not fit come before what ends
      the text, and that before the last group. */
  function Verdict(t: seq<char>, room: nat): Outcome {
    if |Sextets(t)| / 4 * 3 > room then Overflow
    else if Ending(t) != Success then Ending(t)
    else if |Bytes(Sextets(t))| > room then Overflow
    else Success
  }

  function High(x: int, y: int): int {
    x * 4 + y / 16
  }

  function Middle(x: int, y: int): int {
    x % 16 * 16 + y / 4
  }

  function Low(x: int, y: int): int {
    x % 4 * 64 + y
  }

  /** Three bytes of four sextets; the bits of an incomplete last byte are dropped. */
  function Bytes(v: seq<sextet>): (d: seq<byte>)
    ensures |d| == |v| * 3 / 4
  {
    if |v| < 2 then []
    else if |v| == 2 then [High(v[0], v[1])]
    else if |v| == 3 then [High(v[0], v[1]), Middle(v[1], v[2])]
    else [High(v[0], v[1]), Middle(v[1], v[2]), Low(v[2], v[3])] + Bytes(v[4..])
  }

  // ----- The round trip -----

  lemma CodeOfLetter(v: sextet)
    ensures Code(Letter(v)) == v && Letter(v) as int <= 127
  {
  }

  /** The alphabet as the source spells it. */
  lemma Alphabet(v: sextet)
    ensures var base64chars := "ABCDEFGHIJKLMNOPQRSTUVWXYZ" + "abcdefghijklmnopqrstuvwxyz" + "0123456789+/";
            |base64chars| == 64 && base64chars[v] == Letter(v)
  {
    hide Letter;
    if v < 26 {
      Capitals(v);
    } else if v < 52 {
      SmallLetters(v - 26);
    } else {
      DigitsAndSigns(v - 52);
    }
  }

  lemma Capitals(v: nat)
    requires v < 26
    ensures "ABCDEFGHIJKLMNOPQRSTUVWXYZ"[v] == Letter(v)
  {
  }

  lemma SmallLetters(v: nat)
    requires v < 26
    ensures "abcdefghijklmnopqrstuvwxyz"[v] == Letter(v + 26)
  {
  }

  lemma DigitsAndSigns(v: nat)
    requires v < 12
    ensures "0123456789+/"[v] == Letter(v + 52)
  {
  }

  /** Letters in front of a text. */
  lemma {:induction false} SextetsAppend(v: seq<sextet>, t: seq<char>)
    ensures Sextets(Letters(v) + t) == v + Sextets(t) && Ending(Letters(v) + t) == Ending(t)
  {
    hide Code, Letter;
    var s := Letters(v) + t;
    if v == [] {
      assert s == t;
    } else {
      CodeOfLetter(v[0]);
      assert s[1..] == Letters(v[1..]) + t;
      SextetsAppend(v[1..], t);
    }
  }

  lemma JoinSplit(a: byte, b: byte, c: byte)
    ensures var v := Split(a, b, c);
            High(v[0], v[1]) == a && Middle(v[1], v[2]) == b && Low(v[2], v[3]) == c
  {
  }

  lemma EncodeGroups(d: seq<byte>)
    requires d != []
    ensures |d| >= 3 ==> Encode(d) == Letters(Split(d[0], d[1], d[2])) + Encode(d[3..])
    ensures |d| == 2 ==> Encode(d) == Letters(Split(d[0], d[1], 0)[..3]) + ['=']
    ensures |d| == 1 ==> Encode(d) == Letters(Split(d[0], 0, 0)[..2]) + ['=', '=']
  {
    hide Letters, Split;
  }

  lemma FullGroup(v: seq<sextet>, rest: seq<sextet>)
    requires |v| == 4
    ensures Bytes(v + rest) == [High(v[0], v[1]), Middle(v[1], v[2]), Low(v[2], v[3])] + Bytes(rest)
  {
    assert (v + rest)[4..] == rest;
  }

  lemma LastBytes(v: seq<sextet>)
    requires |v| < 4
    ensures Bytes(v) == if |v| < 2 then [] else if |v| == 2 then [High(v[0], v[1])] else [High(v[0], v[1]), Middle(v[1], v[2])]
  {
  }

  lemma NothingEncoded(d: seq<byte>)
    requires d == []
    ensures Encode(d) == [] && Ending(Encode(d)) == Success && Bytes(Sextets(Encode(d))) == []
  {
  }

  /** Decoding the encoding gives the bytes back. */
  lemma {:induction false} DecodeInvertsEncode(d: seq<byte>)
    ensures Ending(Encode(d)) == Success && Bytes(Sextets(Encode(d))) == d
  {
    hide Code, Letter, Letters, Encode, Sextets, Ending, Bytes, High, Middle, Low;
    if d == [] {
      NothingEncoded(d);
      return;
    }
    EncodeGroups(d);
    var b, c: byte := if |d| > 1 then d[1] else 0, if |d| > 2 then d[2] else 0;
    var v := Split(d[0], b, c);
    JoinSplit(d[0], b, c);
    if |d| >= 3 {
      DecodeInvertsEncode(d[3..]);
      SextetsAppend(v, Encode(d[3..]));
      FullGroup(v, Sextets(Encode(d[3..])));
    } else {
      var w, rest := v[..|d| + 1], if |d| == 2 then ['='] else ['=', '='];
      SextetsAppend(w, rest);
      PadEnds(rest);
      assert w + [] == w;
      LastBytes(w);
    }
  }

  lemma PadEnds(t: seq<char>)
    requires t != [] && t[0] == '='
    ensures Sextets(t) == [] && Ending(t) == Success
  {
  }

  // ----- The functions of util.c -----

  datatype Outcome = Success | InvalidArgument | TooSmall | Invalid | Overflow | Outside

  /** ina_util_base64_encode_length: room for the text, its NUL, and two line-break characters per line. */
  method EncodeLength(n: nat, lineLength: nat) returns (r: Outcome, length: nat)
    ensures r == (if lineLength == 0 then InvalidArgument else Success)
    ensures r == Success ==> forall d: seq<byte> :: |d| == n ==> length == |Encode(d)| + 2 * (|Encode(d)| / lineLength) + 1
  {
    if lineLength == 0 {
      return InvalidArgument, 0;
    }
    var adjustment := if n % 3 != 0 then 3 - n % 3 else 0;
    var code := (n + adjustment) / 3 * 4;
    assert code == (n + 2) / 3 * 4;
    var lines := code / lineLength;
    length := code + lines * 2 + 1;
    r := Success;
  }

  method Put(result: array<char>, size: nat, at: nat, c: char) returns (ok: bool)
    requires size <= result.Length
    modifies result
    ensures ok <==> at < size
    ensures ok ==> result[..at] == old(result[..at]) && result[at] == c && result[..at + 1] == old(result[..at]) + [c]
    ensures forall j :: size <= j < result.Length ==> result[j] == old(result[j])
  {
    if at >= size {
      return false;
    }
    result[at] := c;
    assert result[..at] == old(result[..at]);
    return true;
  }

  function Pads(n: nat): seq<char> {
    if n % 3 == 0 then [] else if n % 3 == 1 then ['=', '='] else ['=']
  }

  /** The first `k` letters of one group, or as many as there is room for. */
  method PutGroup(result: array<char>, size: nat, at: nat, n: nat, k: nat, ghost a: byte, ghost b: byte, ghost c: byte) returns (ok: bool)
    requires size <= result.Length && at <= result.Length && 2 <= k <= 4 && n == a * 0x10000 + b * 0x100 + c
    modifies result
    ensures ok <==> at + k <= size
    ensures ok ==> result[..at + k] == old(result[..at]) + Letters(Split(a, b, c)[..k])
    ensures forall j :: size <= j < result.Length ==> result[j] == old(result[j])
  {
    hide Letter, Letters;
    Digits(a, b, c);
    ghost var v := Split(a, b, c);
    LetterList(v, k);
    ghost var before := result[..at];
    var n0: sextet, n1: sextet, n2: sextet, n3: sextet := n / 0x40000 % 64, n / 0x1000 % 64, n / 64 % 64, n % 64;
    ok := Put(result, size, at, Letter(n0));
    if !ok { return; }
    ok := Put(result, size, at + 1, Letter(n1));
    if !ok { return; }
    if k > 2 {
      ok := Put(result, size, at + 2, Letter(n2));
      if !ok { return; }
    }
    if k > 3 {
      ok := Put(result, size, at + 3, Letter(n3));
      if !ok { return; }
    }
    assert result[..at + k] == before + [Letter(v[0]), Letter(v[1]), Letter(v[2]), Letter(v[3])][..k];
  }

  lemma LetterList(v: seq<sextet>, k: nat)
    requires |v| == 4 && 2 <= k <= 4
    ensures Letters(v[..k]) == [Letter(v[0]), Letter(v[1]), Letter(v[2]), Letter(v[3])][..k]
  {
    hide Letter;
  }

  lemma FourDigits(p: sextet, q: sextet, r: sextet, s: sextet)
    ensures var n := p * 0x40000 + q * 0x1000 + r * 64 + s;
            n / 0x40000 % 64 == p && n / 0x1000 % 64 == q && n / 64 % 64 == r && n % 64 == s
  {
    var n := p * 0x40000 + q * 0x1000 + r * 64 + s;
    assert n / 0x40000 == p;
    assert n / 0x1000 == p * 64 + q;
    assert n / 64 == p * 0x1000 + q * 64 + r;
  }

  lemma Digits(a: byte, b: byte, c: byte)
    ensures var n := a * 0x10000 + b * 0x100 + c;
            && n / 0x40000 % 64 == a / 4 && n / 0x1000 % 64 == a % 4 * 16 + b / 16
            && n / 64 % 64 == b % 16 * 4 + c / 64 && n % 64 == c % 64
  {
    var p: sextet, q: sextet, r: sextet, s: sextet := a / 4, a % 4 * 16 + b / 16, b % 16 * 4 + c / 64, c % 64;
    assert a * 0x10000 + b * 0x100 + c == p * 0x40000 + q * 0x1000 + r * 64 + s;
    FourDigits(p, q, r, s);
  }

  lemma EncodeStep(d: seq<byte>, x: nat)
    requires x < |d|
    ensures var b, c := if x + 1 < |d| then d[x + 1] else 0, if x + 2 < |d| then d[x + 2] else 0;
            Encode(d[x..]) == if x + 2 < |d| then Letters(Split(d[x], b, c)) + Encode(d[x + 3..])
                              else Letters(Split(d[x], b, c)[..|d| - x + 1]) + Pads(|d| - x)
  {
    hide Letters, Split;
    if x + 2 < |d| {
      assert d[x..][3..] == d[x + 3..];
    }
  }

  /** The letters of the bytes from `x` on. */
  method PutBytes(data: array<byte>, n: nat, x: nat, result: array<char>, size: nat, at: nat) returns (ok: bool, k: nat)
    requires x < n <= data.Length && size <= result.Length && at <= result.Length
    modifies result
    ensures k == if x + 2 < n then 4 else n - x + 1
    ensures ok <==> at + k <= size
    ensures ok && x + 2 < n ==> result[..at + k] + Encode(data[..n][x + 3..]) == old(result[..at]) + Encode(data[..n][x..])
    ensures ok && x + 2 >= n ==> result[..at + k] + Pads(n - x) == old(result[..at]) + Encode(data[..n][x..])
    ensures forall j :: size <= j < result.Length ==> result[j] == old(result[j])
  {
    hide Encode, Letter, Letters, Split, Pads;
    ghost var d: seq<byte> := data[..n];
    EncodeStep(d, x);
    ghost var before := result[..at];
    var b: byte, c: byte := 0, 0;
    var a: nat := data[x];
    var w: nat := a * 0x10000;
    k := 2;
    if x + 1 < n {
      b := data[x + 1];
      var b': nat := b;
      w, k := w + b' * 0x100, 3;
    }
    if x + 2 < n {
      c := data[x + 2];
      w, k := w + c, 4;
    }
    ok := PutGroup(result, size, at, w, k, data[x], b, c);
    if ok {
      ghost var g := Letters(Split(data[x], b, c)[..k]);
      assert k == 4 ==> Split(data[x], b, c)[..k] == Split(data[x], b, c);
      ghost var rest := if x + 2 < n then Encode(d[x + 3..]) else Pads(n - x);
      assert (before + g) + rest == before + (g + rest);
    }
  }

  /** ina_util_base64_encode_chunk: the encoding and a NUL if they fit, and never a store outside. */
  method EncodeChunk(data: array<byte>, n: nat, result: array<char>, size: nat) returns (r: Outcome)
    requires n <= data.Length && size <= result.Length
    modifies result
    ensures r == if |Encode(data[..n])| < size then Success else TooSmall
    ensures r == Success ==> result[..|Encode(data[..n])|] == Encode(data[..n]) && result[|Encode(data[..n])|] == '\0'
    ensures forall j :: size <= j < result.Length ==> result[j] == old(result[j])
  {
    hide Encode, Pads;
    ghost var d: seq<byte> := data[..n];
    var index, x: nat := 0, 0;
    assert d[0..] == d;
    while x < n
      invariant x % 3 == 0 && x < n + 3 && 0 <= index <= size
      invariant x <= n ==> result[..index] + Encode(d[x..]) == Encode(d)
      invariant x > n ==> result[..index] + Pads(n) == Encode(d)
      invariant forall j :: size <= j < result.Length ==> result[j] == old(result[j])
    {
      SamePads(n, x);
      var ok, k := PutBytes(data, n, x, result, size, index);
      if !ok {
        return TooSmall;
      }
      index, x := index + k, x + 3;
    }
    EncodeNothing(d, n);
    var ok;
    ok, index := PutPads(n, result, size, index);
    if !ok {
      return TooSmall;
    }
    ok := Put(result, size, index, '\0');
    return if ok then Success else TooSmall;
  }

  lemma SamePads(n: nat, x: nat)
    requires x % 3 == 0 && x < n
    ensures Pads(n - x) == Pads(n) && (n - x) % 3 == n % 3
  {
  }

  lemma EncodeNothing(d: seq<byte>, n: nat)
    requires n == |d|
    ensures Encode(d[n..]) == [] && (n % 3 == 0 ==> Pads(n) == [])
  {
  }

  /** The padding. */
  method PutPads(n: nat, result: array<char>, size: nat, at: nat) returns (ok: bool, index: nat)
    requires at <= size <= result.Length
    modifies result
    ensures ok <==> at + |Pads(n)| <= size
    ensures ok ==> index == at + |Pads(n)| && result[..index] == old(result[..at]) + Pads(n)
    ensures forall j :: size <= j < result.Length ==> result[j] == old(result[j])
  {
    index := at;
    var padCount := n % 3;
    if padCount > 0 {
      while padCount < 3
        invariant n % 3 <= padCount <= 3 && index == at + padCount - n % 3 && index <= size
        invariant result[..index] == old(result[..at]) + Pads(n)[..index - at]
        invariant forall j :: size <= j < result.Length ==> result[j] == old(result[j])
      {
        ok := Put(result, size, index, '=');
        if !ok {
          return;
        }
        index, padCount := index + 1, padCount + 1;
      }
    }
    ok := true;
  }

  function Push(buf: int, c: int): int {
    buf * 64 + c
  }

  /** The sextets read since the last full group, behind a leading one bit. */
  function Pending(v: seq<sextet>): nat {
    if v == [] then 1 else Pending(v[..|v| - 1]) * 64 + v[|v| - 1]
  }

  lemma PendingBits(v: seq<sextet>)
    requires |v| <= 4
    ensures Pending(v) / 0x1000000 % 2 == 1 <==> |v| == 4
    ensures |v| < 4 ==> (Pending(v) / 0x40000 % 2 == 1 <==> |v| == 3)
    ensures |v| < 3 ==> (Pending(v) / 0x1000 % 2 == 1 <==> |v| == 2)
  {
    hide Pending;
    PendingBounds(v);
  }

  lemma PendingBounds(v: seq<sextet>)
    requires |v| <= 4
    ensures var top := if |v| == 0 then 1 else if |v| == 1 then 64 else if |v| == 2 then 0x1000 else if |v| == 3 then 0x40000 else 0x1000000;
            top <= Pending(v) < 2 * top
  {
    if |v| > 0 {
      PendingBounds(v[..|v| - 1]);
    }
  }

  lemma PendingRange(v: seq<sextet>)
    requires |v| <= 4
    ensures |v| == 0 ==> Pending(v) == 1
    ensures |v| == 1 ==> Pending(v) == Push(1, v[0])
    ensures |v| == 2 ==> Pending(v) == Push(Push(1, v[0]), v[1])
    ensures |v| == 3 ==> Pending(v) == Push(Push(Push(1, v[0]), v[1]), v[2])
    ensures |v| == 4 ==> Pending(v) == Push(Push(Push(Push(1, v[0]), v[1]), v[2]), v[3])
  {
    if |v| > 0 {
      PendingRange(v[..|v| - 1]);
    }
  }

  lemma ThreeBytes(v: seq<sextet>)
    requires |v| == 4
    ensures Pending(v) / 0x10000 % 256 == High(v[0], v[1])
    ensures Pending(v) / 0x100 % 256 == Middle(v[1], v[2])
    ensures Pending(v) % 256 == Low(v[2], v[3])
    ensures 0 <= High(v[0], v[1]) < 256 && 0 <= Middle(v[1], v[2]) < 256 && 0 <= Low(v[2], v[3]) < 256
  {
    PendingRange(v);
    SameBits(v[0], v[1], v[2], v[3]);
    hide High, Middle, Low, Push;
    ByteDigits(High(v[0], v[1]), Middle(v[1], v[2]), Low(v[2], v[3]));
  }

  lemma SameBits(a: sextet, b: sextet, c: sextet, d: sextet)
    ensures Push(Push(Push(Push(1, a), b), c), d) == 0x1000000 + High(a, b) * 0x10000 + Middle(b, c) * 0x100 + Low(c, d)
    ensures 0 <= High(a, b) < 256 && 0 <= Middle(b, c) < 256 && 0 <= Low(c, d) < 256
  {
  }

  lemma ByteDigits(x: int, y: int, z: int)
    requires 0 <= x < 256 && 0 <= y < 256 && 0 <= z < 256
    ensures var n := 0x1000000 + x * 0x10000 + y * 0x100 + z;
            n / 0x10000 % 256 == x && n / 0x100 % 256 == y && n % 256 == z
  {
    var n := 0x1000000 + x * 0x10000 + y * 0x100 + z;
    assert n / 0x10000 == 0x100 + x;
    assert n / 0x100 == 0x10000 + x * 0x100 + y;
  }

  lemma TwoBytes(v: seq<sextet>)
    requires |v| == 3
    ensures Pending(v) / 0x400 % 256 == High(v[0], v[1]) && Pending(v) / 4 % 256 == Middle(v[1], v[2])
    ensures 0 <= High(v[0], v[1]) < 256 && 0 <= Middle(v[1], v[2]) < 256
  {
    PendingRange(v);
    SameBits(v[0], v[1], v[2], 0);
    TwoDigits(High(v[0], v[1]), Middle(v[1], v[2]), v[2] % 4);
  }

  lemma TwoDigits(x: int, y: int, z: int)
    requires 0 <= x < 256 && 0 <= y < 256 && 0 <= z < 4
    ensures var n := 0x40000 + x * 0x400 + y * 4 + z; n / 0x400 % 256 == x && n / 4 % 256 == y
  {
    var n := 0x40000 + x * 0x400 + y * 4 + z;
    assert n / 0x400 == 0x100 + x;
    assert n / 4 == 0x10000 + x * 0x100 + y;
  }

  lemma OneByte(v: seq<sextet>)
    requires |v| == 2
    ensures Pending(v) / 16 % 256 == High(v[0], v[1])
  {
    PendingRange(v);
    assert Pending(v) / 16 == 0x100 + High(v[0], v[1]);
  }

  lemma Begin(rest: seq<sextet>)
    ensures Pending([]) == 1 && [] + rest == rest
  {
  }

  lemma PendingPush(v: seq<sextet>, c: sextet)
    ensures Pending(v + [c]) == Pending(v) * 64 + c
  {
    assert (v + [c])[..|v|] == v;
  }

  /** What one character does to the text still to be read. */
  lemma ReadOne(t: seq<char>, p: nat)
    requires p < |t|
    ensures var c, s, rest := Code(t[p]), t[p..], t[p + 1..];
            if c == WHITESPACE then Sextets(s) == Sextets(rest) && Ending(s) == Ending(rest)
            else if c == INVALID then Sextets(s) == [] && Ending(s) == if t[p] as int > 127 then Outside else Invalid
            else if c == EQUALS then Sextets(s) == Sextets(t[|t|..]) == [] && Ending(s) == Ending(t[|t|..])
            else c < 64 && Sextets(s) == [c] + Sextets(rest) && Ending(s) == Ending(rest)
  {
    assert t[p..][1..] == t[p + 1..];
  }

  lemma EndOfText(t: seq<char>, p: nat)
    requires p == |t|
    ensures Sextets(t[p..]) == [] && Ending(t[p..]) == Success
  {
  }

  /** Three bytes of a full group, behind `len` bytes. */
  method StoreThree(out: array<byte>, len: nat, buf: nat, ghost v: seq<sextet>)
    requires len + 3 <= out.Length && |v| == 4 && buf == Pending(v)
    modifies out
    ensures out[..len + 3] == old(out[..len]) + [High(v[0], v[1]), Middle(v[1], v[2]), Low(v[2], v[3])]
    ensures forall j :: len + 3 <= j < out.Length ==> out[j] == old(out[j])
  {
    hide Pending, High, Middle, Low;
    ThreeBytes(v);
    ghost var before := out[..len];
    out[len] := buf / 0x10000 % 256;
    out[len + 1] := buf / 0x100 % 256;
    out[len + 2] := buf % 256;
    assert out[..len + 3] == before + [High(v[0], v[1]), Middle(v[1], v[2]), Low(v[2], v[3])];
  }

  /** A letter joins the group read so far. */
  lemma PushSextet(v: seq<sextet>, c: sextet, rest: seq<sextet>)
    requires |v| < 4
    ensures v + ([c] + rest) == (v + [c]) + rest && Pending(v + [c]) == Pending(v) * 64 + c
    ensures Pending(v + [c]) / 0x1000000 % 2 == 1 <==> |v + [c]| == 4
  {
    hide Pending;
    assert v + ([c] + rest) == (v + [c]) + rest;
    PendingPush(v, c);
    PendingBits(v + [c]);
  }

  lemma GroupsOverflow(t: seq<char>, len: nat, room: nat)
    requires len % 3 == 0 && |Sextets(t)| >= len / 3 * 4 + 4 && len + 3 > room
    ensures Verdict(t, room) == Overflow
  {
  }

  lemma EndsBadly(t: seq<char>, len: nat, n: nat, room: nat)
    requires len % 3 == 0 && |Sextets(t)| == len / 3 * 4 + n && n < 4 && len <= room && Ending(t) != Success
    ensures Verdict(t, room) == Ending(t)
  {
  }

  lemma EndsWell(t: seq<char>, len: nat, n: nat, room: nat)
    requires len % 3 == 0 && |Sextets(t)| == len / 3 * 4 + n && n < 4 && len <= room && Ending(t) == Success
    ensures Verdict(t, room) == if |Bytes(Sextets(t))| <= room then Success else Overflow
  {
  }

  /** ina_util_base64_decode_chunk: which outcome a text has, and on success exactly its bytes. */
  method DecodeChunk(t: seq<char>, out: array<byte>, maxOut: nat) returns (r: Outcome, outLen: nat)
    requires maxOut <= out.Length
    modifies out
    ensures r == Verdict(t, maxOut)
    ensures r == Success ==> outLen == |Bytes(Sextets(t))| && out[..outLen] == Bytes(Sextets(t))
    ensures r != Success ==> outLen == 0
    ensures forall j :: maxOut <= j < out.Length ==> out[j] == old(out[j])
  {
    hide Bytes, Pending, High, Middle, Low, Code, Ending, Sextets, Verdict;
    var p, buf, len: nat := 0, 1, 0;
    ghost var v: seq<sextet> := [];
    assert t[0..] == t && out[..0] == [];
    Begin(Sextets(t));
    while p < |t|
      invariant 0 <= p <= |t| && len <= maxOut && len % 3 == 0 && |v| < 4 && buf == Pending(v)
      invariant Ending(t) == Ending(t[p..]) && |Sextets(t)| == len / 3 * 4 + |v| + |Sextets(t[p..])|
      invariant Bytes(Sextets(t)) == out[..len] + Bytes(v + Sextets(t[p..]))
      invariant forall j :: maxOut <= j < out.Length ==> out[j] == old(out[j])
    {
      var c := Code(t[p]);
      ReadOne(t, p);
      p := p + 1;
      if c == WHITESPACE {
        continue;
      } else if c == INVALID {
        EndsBadly(t, len, |v|, maxOut);
        return if t[p - 1] as int > 127 then Outside else Invalid, 0;
      } else if c == EQUALS {
        p := |t|;
        continue;
      }
      PushSextet(v, c, Sextets(t[p..]));
      v, buf := v + [c], buf * 64 + c;
      if buf / 0x1000000 % 2 == 1 {
        if len + 3 > maxOut {
          GroupsOverflow(t, len, maxOut);
          return Overflow, 0;
        }
        FullGroup(v, Sextets(t[p..]));
        StoreThree(out, len, buf, v);
        len, buf, v := len + 3, 1, [];
        Begin(Sextets(t[p..]));
      }
    }
    EndOfText(t, p);
    EndsWell(t, len, |v|, maxOut);
    assert v + [] == v;
    r, outLen := LastGroup(out, maxOut, len, buf, v);
  }

  /** Two or three letters at the end hold one or two bytes. */
  method LastGroup(out: array<byte>, maxOut: nat, len: nat, buf: nat, ghost v: seq<sextet>) returns (r: Outcome, outLen: nat)
    requires len <= maxOut <= out.Length && |v| < 4 && buf == Pending(v)
    modifies out
    ensures r == if len + |Bytes(v)| <= maxOut then Success else Overflow
    ensures r == Success ==> outLen == len + |Bytes(v)| && out[..outLen] == old(out[..len]) + Bytes(v)
    ensures r != Success ==> outLen == 0
    ensures forall j :: maxOut <= j < out.Length ==> out[j] == old(out[j])
  {
    hide Bytes, Pending, High, Middle;
    PendingBits(v);
    LastBytes(v);
    outLen := len;
    if buf / 0x40000 % 2 == 1 {
      TwoBytes(v);
      outLen := outLen + 2;
      if outLen > maxOut {
        return Overflow, 0;
      }
      out[len] := buf / 0x400 % 256;
      out[len + 1] := buf / 4 % 256;
    } else if buf / 0x1000 % 2 == 1 {
      OneByte(v);
      outLen := outLen + 1;
      if outLen > maxOut {
        return Overflow, 0;
      }
      out[len] := buf / 16 % 256;
    }
    r := Success;
    assert out[..outLen] == old(out[..len]) + Bytes(v);
  }

  /** Encoding into a buffer of the computed size, then decoding the characters before the NUL. */
  method RoundTrip(data: array<byte>, n: nat, lineLength: nat) returns (out: array<byte>, outLen: nat)
    requires n <= data.Length && lineLength > 0
    ensures outLen == n && n <= out.Length && out[..n] == data[..n]
  {
    hide Encode, Sextets, Ending, Bytes;
    var r, length := EncodeLength(n, lineLength);
    ghost var d: seq<byte> := data[..n];
    assert |Encode(d)| + 1 <= length;
    var text := new char[length];
    r := EncodeChunk(data, n, text, length);
    out := new byte[n];
    DecodeInvertsEncode(d);
    r, outLen := DecodeChunk(text[..(n + 2) / 3 * 4], out, n);
  }
}
