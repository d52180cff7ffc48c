/** The byte-moving primitives of lz4.c.  `MemCopyIn` and `WildCopyIn` read a read-only input buffer;
    `MemCopy` and `WildCopy` read the array they write, at bytes that lie before the ones written, far
    enough for each single move not to overlap. */
module Lz4Memory {
  import opened Lz4Block
  import opened Lz4Reference

  /** memcpy of `n` bytes from the input. */
  method MemCopyIn(dst: array<byte>, d: nat, src: seq<byte>, s: nat, n: nat)
    requires d + n <= dst.Length && s + n <= |src|
    modifies dst
    ensures forall k :: d <= k < d + n ==> dst[k] == src[s + k - d]
    ensures forall i :: 0 <= i < d || d + n <= i < dst.Length ==> dst[i] == old(dst[i])
  {
    forall k | d <= k < d + n {
      dst[k] := src[s + k - d];
    }
  }

  /** LZ4_wildCopy from the input: 8 bytes at a time until the destination reaches `e`. */
  method WildCopyIn(dst: array<byte>, d: nat, src: seq<byte>, s: nat, e: nat)
    requires d <= e && d + CopyEnd(e - d) <= dst.Length && s + CopyEnd(e - d) <= |src|
    modifies dst
    ensures forall k :: d <= k < d + CopyEnd(e - d) ==> dst[k] == src[s + k - d]
    ensures forall i :: 0 <= i < d || d + CopyEnd(e - d) <= i < dst.Length ==> dst[i] == old(dst[i])
  {
    var o, m := d, s;
    MemCopyIn(dst, o, src, m, 8);
    o, m := o + 8, m + 8;
    while o < e
      invariant d + 8 <= o <= d + CopyEnd(e - d) && (o - d) % 8 == 0 && m - s == o - d
      invariant forall k :: d <= k < o ==> dst[k] == src[s + k - d]
      invariant forall i :: 0 <= i < d || o <= i < dst.Length ==> dst[i] == old(dst[i])
    {
      MemCopyIn(dst, o, src, m, 8);
      o, m := o + 8, m + 8;
    }
  }

  /** memcpy of `n` bytes within one array. */
  method MemCopy(dst: array<byte>, d: nat, s: nat, n: nat)
    requires s + n <= d && d + n <= dst.Length
    modifies dst
    ensures forall k :: d <= k < d + n ==> dst[k] == old(dst[s + k - d])
    ensures forall i :: 0 <= i < d || d + n <= i < dst.Length ==> dst[i] == old(dst[i])
  {
    forall k | d <= k < d + n {
      dst[k] := dst[s + k - d];
    }
  }

  /** LZ4_wildCopy within one array.  It may run over `e`; what it leaves repeats at distance `d - s`,
      even where it read its own output. */
  method WildCopy(dst: array<byte>, d: nat, s: nat, e: nat)
    requires s + 8 <= d <= e && d + CopyEnd(e - d) <= dst.Length
    modifies dst
    ensures forall k :: d <= k < d + CopyEnd(e - d) ==> dst[k] == dst[k - (d - s)]
    ensures forall i :: 0 <= i < d || d + CopyEnd(e - d) <= i < dst.Length ==> dst[i] == old(dst[i])
  {
    var o, m := d, s;
    MemCopy(dst, o, m, 8);
    o, m := o + 8, m + 8;
    while o < e
      invariant d + 8 <= o <= d + CopyEnd(e - d) && (o - d) % 8 == 0 && m - s == o - d
      invariant forall k :: d <= k < o ==> dst[k] == dst[k - (d - s)]
      invariant forall i :: 0 <= i < d || o <= i < dst.Length ==> dst[i] == old(dst[i])
    {
      ghost var before := dst[..];
      MemCopy(dst, o, m, 8);
      assert forall k :: d <= k < o ==> dst[k] == before[k];
      o, m := o + 8, m + 8;
    }
  }
}
