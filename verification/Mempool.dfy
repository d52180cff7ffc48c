/** The memory pool of src/memory.c: a chain of chunks, each allocated from the front by dalloc and from
    the back by nalloc. */
module Mempool {

  const MIN_POOL_SIZE := 1024
  const ALIGN_SIZE := 16
  const WORD := 0x1_0000_0000_0000_0000
  /** Larger requests always fail in the C library's allocator. */
  const MAX_REQUEST := 0x7fff_ffff_ffff_0000

  /** x & ~m. */
  function AndNot(x: nat, m: nat): (r: nat)
    ensures x - m <= r <= x
  {
    if x == 0 then 0 else 2 * AndNot(x / 2, m / 2) + if x % 2 == 1 && m % 2 == 0 then 1 else 0
  }

  /** INA_MEM_ALIGN_N. */
  function Align(n: nat, a: nat): (r: nat)
    requires a > 0
    ensures n <= r < n + a
  {
    AndNot(n + (a - 1), a - 1)
  }

  predicate PowerOfTwo(a: nat) {
    a == 1 || (a > 0 && a % 2 == 0 && PowerOfTwo(a / 2))
  }

  lemma Distribute(x: int, y: int, a: int)
    ensures (x + y) * a == x * a + y * a
  {
  }

  lemma AtLeast(e: int, a: int)
    requires e >= 1 && a > 0
    ensures e * a >= a
  {
  }

  lemma QuotientUnique(q: int, d: int, r: int, a: int)
    requires a > 0 && q * a == d * a + r && 0 <= r < a
    ensures r == 0
  {
    if q > d {
      Distribute(d, q - d, a);
      AtLeast(q - d, a);
    } else if q < d {
      Distribute(q, d - q, a);
      AtLeast(d - q, a);
    }
  }

  lemma MultipleMod(q: nat, a: nat)
    requires a > 0
    ensures (q * a) % a == 0
  {
    var x := q * a;
    assert x == (x / a) * a + x % a;
    QuotientUnique(q, x / a, x % a, a);
  }

  lemma DoubleFactor(q: int, b: int)
    ensures q * (2 * b) == 2 * (q * b)
  {
  }

  lemma TwiceMultiple(x: nat, b: nat)
    requires b > 0 && x % b == 0
    ensures (2 * x) % (2 * b) == 0
  {
    var q := x / b;
    assert x == q * b;
    DoubleFactor(q, b);
    MultipleMod(q, 2 * b);
  }

  lemma HalfOfClear(x: nat, b: nat)
    requires b > 0
    ensures AndNot(x, 2 * b - 1) == 2 * AndNot(x / 2, b - 1)
  {
    assert (2 * b - 1) / 2 == b - 1 && (2 * b - 1) % 2 == 1;
  }

  lemma {:induction false} LowBitsClear(x: nat, a: nat)
    requires PowerOfTwo(a)
    ensures AndNot(x, a - 1) % a == 0
  {
    hide AndNot;
    if a > 1 {
      LowBitsClear(x / 2, a / 2);
      HalfOfClear(x, a / 2);
      TwiceMultiple(AndNot(x / 2, a / 2 - 1), a / 2);
    }
  }

  lemma {:induction false} AndNotSelf(b: nat)
    ensures AndNot(b, b) == 0
  {
    if b > 0 {
      AndNotSelf(b / 2);
    }
  }

  /** The lowest bit of `a` is all of `a` only in a power of two. */
  lemma {:induction false} LowestBit(a: nat)
    requires a > 0
    ensures 0 < AndNot(a, a - 1) && (AndNot(a, a - 1) == a <==> PowerOfTwo(a))
  {
    if a % 2 == 1 {
      AndNotSelf(a / 2);
      assert (a - 1) / 2 == a / 2;
    } else {
      LowestBit(a / 2);
      assert (a - 1) / 2 == a / 2 - 1;
    }
  }

  lemma SmallMod(r: nat, a: nat)
    requires r < a
    ensures r % a == r
  {
  }

  /** The macro rounds every size up to a multiple of `a` exactly when `a` is a power of two; a size of 1
      shows it. */
  lemma AlignIsMultipleIff(a: nat)
    requires a > 0
    ensures (forall n: nat :: Align(n, a) % a == 0) <==> PowerOfTwo(a)
    ensures Align(1, a) % a == 0 <==> PowerOfTwo(a)
  {
    hide AndNot, PowerOfTwo;
    if PowerOfTwo(a) {
      forall n: nat ensures Align(n, a) % a == 0 {
        LowBitsClear(n + (a - 1), a);
      }
    } else {
      LowestBit(a);
      SmallMod(AndNot(a, a - 1), a);
      assert Align(1, a) % a != 0;
    }
  }

  // ----- Chunks and blocks -----

  /** The size of a chunk: at least the minimum, and aligned. */
  function PoolSize(requested: nat): nat {
    Align(if requested < MIN_POOL_SIZE then MIN_POOL_SIZE else requested, ALIGN_SIZE)
  }

  /** It is the least such size. */
  lemma AlignedSize(requested: nat)
    requires requested <= MAX_REQUEST
    ensures var n := PoolSize(requested); n <= MAX_REQUEST && n % ALIGN_SIZE == 0 && n >= MIN_POOL_SIZE && requested <= n
    ensures requested >= MIN_POOL_SIZE && requested % ALIGN_SIZE == 0 ==> PoolSize(requested) == requested
    ensures requested < MIN_POOL_SIZE ==> PoolSize(requested) == MIN_POOL_SIZE
  {
    hide Align;
    assert PowerOfTwo(ALIGN_SIZE);
    AlignIsMultipleIff(ALIGN_SIZE);
  }

  /** The smallest pool, and one a little larger. */
  lemma SmallPools()
    ensures PoolSize(0) == 1024 && PoolSize(1025) == 1040
  {
    hide Align;
    AlignedSize(0);
    AlignedSize(1025);
  }

  /** One ina_mempool_s: [0, pos) is handed out from the front, [end, size) from the back. */
  class Chunk {
    const size: nat
    const m: array<bv8>
    var pos: nat
    var end: nat
    var child: Chunk?
    var parent: Chunk?

    /** ina_mempool_new: at least the minimum size, aligned, zero-filled unless told otherwise. */
    constructor (requested: nat, zeroFill: bool)
      requires requested <= MAX_REQUEST
      ensures fresh(m) && m.Length == size == end && pos == 0 && child == null && parent == null
      ensures size == PoolSize(requested) && requested <= size <= MAX_REQUEST
      ensures size >= MIN_POOL_SIZE && size % ALIGN_SIZE == 0 && size < (if requested < MIN_POOL_SIZE then MIN_POOL_SIZE else requested) + ALIGN_SIZE
      ensures zeroFill ==> forall i :: 0 <= i < size ==> m[i] == 0
    {
      hide Align;
      var n := PoolSize(requested);
      AlignedSize(requested);
      size := n;
      var a := new bv8[n];
      if zeroFill {
        forall i | 0 <= i < n {
          a[i] := 0;
        }
      }
      m, pos, end, child, parent := a, 0, n, null, null;
    }
  }

  /** A block handed out: `movable` for dalloc, which a reset takes back. */
  datatype Block = Block(chunk: Chunk, offset: nat, length: nat, movable: bool)

  /** No byte belongs to both. */
  ghost predicate Disjoint(a: Block, b: Block) {
    a.length == 0 || b.length == 0 || a.chunk != b.chunk || a.offset + a.length <= b.offset || b.offset + b.length <= a.offset
  }

  ghost predicate AllDisjoint(blocks: seq<Block>) {
    forall i, j :: 0 <= i < j < |blocks| ==> Disjoint(blocks[i], blocks[j])
  }

  ghost predicate ChunkValid(c: Chunk)
    reads c`pos, c`end
  {
    c.pos <= c.end <= c.size == c.m.Length <= MAX_REQUEST
  }

  /** A block lies in the part of its chunk that is handed out on its side. */
  ghost predicate Inside(b: Block)
    reads b.chunk`pos, b.chunk`end
  {
    b.length == 0 ||
    if b.movable then b.offset + b.length <= b.chunk.pos else b.chunk.end <= b.offset && b.offset + b.length <= b.chunk.size
  }

  ghost predicate Zeroed(c: Chunk)
    requires ChunkValid(c)
    reads c`pos, c`end, c.m
  {
    forall i :: c.pos <= i < c.end ==> c.m[i] == 0
  }

  ghost function Following(chunks: seq<Chunk>, i: nat): Chunk?
    requires i < |chunks|
  {
    if i + 1 < |chunks| then chunks[i + 1] else null
  }

  function Add64(x: nat, y: nat): nat {
    (x + y) % WORD
  }

  /** The test whether a request fits between `pos` and `end`, in 64-bit arithmetic. */
  predicate Fits(pos: nat, end: nat, size: nat) {
    !(Add64(pos, size) > end || Add64(pos, size) < pos)
  }

  lemma FitsIsExact(pos: nat, end: nat, size: nat)
    requires pos <= end < WORD && size < WORD
    ensures Fits(pos, end, size) <==> pos + size <= end
  {
    if pos + size >= WORD {
      assert Add64(pos, size) == pos + size - WORD;
    }
  }

  /** The blocks a reset leaves alive. */
  function Kept(blocks: seq<Block>): seq<Block> {
    if blocks == [] then []
    else
      var last := blocks[|blocks| - 1];
      Kept(blocks[..|blocks| - 1]) + if last.movable then [] else [last]
  }

  lemma {:induction false} KeptMember(blocks: seq<Block>, b: Block)
    requires b in Kept(blocks)
    ensures b in blocks && !b.movable
  {
    if b in Kept(blocks[..|blocks| - 1]) {
      KeptMember(blocks[..|blocks| - 1], b);
    }
  }

  lemma {:induction false} KeptDisjoint(blocks: seq<Block>)
    requires AllDisjoint(blocks)
    ensures AllDisjoint(Kept(blocks))
  {
    if blocks != [] {
      var n := |blocks| - 1;
      var init := Kept(blocks[..n]);
      KeptDisjoint(blocks[..n]);
      forall i | 0 <= i < |init| ensures Disjoint(init[i], blocks[n]) {
        KeptMember(blocks[..n], init[i]);
        var j :| 0 <= j < n && blocks[..n][j] == init[i];
        assert blocks[j] == init[i];
      }
    }
  }

  function Min(x: nat, y: nat): nat {
    if x < y then x else y
  }

  /** ina_mem_set with 0. */
  method MemZero(a: array<bv8>, start: nat, n: nat)
    requires start + n <= a.Length
    modifies a
    ensures forall j :: start <= j < start + n ==> a[j] == 0
    ensures forall j :: 0 <= j < start || start + n <= j < a.Length ==> a[j] == old(a[j])
  {
    forall j | start <= j < start + n {
      a[j] := 0;
    }
  }

  /** ina_mem_cpy. */
  method MemCopy(a: array<bv8>, start: nat, b: array<bv8>, from: nat, n: nat)
    requires start + n <= a.Length && from + n <= b.Length && (a == b ==> from + n <= start || start + n <= from)
    modifies a
    ensures forall j :: start <= j < start + n ==> a[j] == old(b[from + j - start])
    ensures forall j :: 0 <= j < start || start + n <= j < a.Length ==> a[j] == old(a[j])
  {
    forall j | start <= j < start + n {
      a[j] := b[from + j - start];
    }
  }

  // ----- The pool -----

  /** What ralloc returns.  `Outside`: a dynamic pool without room for the block, where the source opens
      a new chunk and then still hands out memory of the first one. */
  datatype Moved = To(chunk: Chunk, offset: nat) | Failed | Outside

  ghost predicate SameStart(b: Block, r: Moved)
    requires r.To?
  {
    b.chunk == r.chunk && b.offset == r.offset
  }

  ghost predicate SameBytes(a: Block, b: Block) {
    a.chunk == b.chunk && a.offset == b.offset && a.length == b.length
  }

  class Pool {
    const dynamic: bool
    const autosize: bool
    const zeroFill: bool
    const head: Chunk
    var current: Chunk
    /** The chain from `head`, and the position of `current` in it. */
    ghost var chunks: seq<Chunk>
    ghost var at: nat
    /** Every chunk the pool ever made, also those cut off the chain by nalloc. */
    ghost var owned: set<Chunk>
    /** The live blocks: all nalloc blocks, and the dalloc blocks since the last reset. */
    ghost var live: seq<Block>
    /** Zero-filled, and no reset since creation or the last clear. */
    ghost var clean: bool

    /** `chunks` is the chain, and `current` is in it. */
    ghost predicate Linked()
      reads this, chunks
    {
      && chunks != [] && chunks[0] == head && at < |chunks| && chunks[at] == current
      && (forall i, j :: 0 <= i < j < |chunks| ==> chunks[i] != chunks[j])
      && (forall i {:trigger chunks[i].child} :: 0 <= i < |chunks| ==> chunks[i].child == Following(chunks, i))
    }

    /** All chunks are sound, and have their own memory. */
    ghost predicate OwnedValid()
      reads this, owned
    {
      && (forall i :: 0 <= i < |chunks| ==> chunks[i] in owned)
      && (forall c :: c in owned ==> ChunkValid(c))
      && (forall c, d :: c in owned && d in owned && c != d ==> c.m != d.m)
    }

    ghost predicate LiveValid()
      reads this, owned
    {
      && AllDisjoint(live)
      && forall b :: b in live ==> b.chunk in owned && Inside(b)
    }

    /** The memory of all chunks. */
    ghost function Memory(): set<array<bv8>>
      reads this, owned
    {
      set c | c in owned :: c.m
    }

    ghost predicate CleanValid()
      requires OwnedValid()
      reads this, owned, Memory()
    {
      clean ==> forall i :: 0 <= i < |chunks| ==> Zeroed(chunks[i])
    }

    ghost predicate Valid()
      reads this, chunks, owned, Memory()
    {
      Linked() && OwnedValid() && LiveValid() && CleanValid() && (clean ==> zeroFill)
    }

    constructor (size: nat, dynamic: bool, autosize: bool, zeroFill: bool)
      requires size <= MAX_REQUEST
      ensures Valid() && live == [] && clean == zeroFill && fresh(owned) && fresh(Memory())
      ensures this.dynamic == dynamic && this.autosize == autosize && this.zeroFill == zeroFill
      ensures current == head && chunks == [head] && owned == {head} && head.pos == 0 && head.end == head.size == PoolSize(size)
      ensures fresh(head) && fresh(head.m)
    {
      hide Align, PoolSize;
      var c := new Chunk(size, zeroFill);
      this.dynamic, this.autosize, this.zeroFill := dynamic, autosize, zeroFill;
      head, current := c, c;
      chunks, at, owned, live, clean := [c], 0, {c}, [], zeroFill;
    }

    /** Live blocks stay valid while the chunks they lie in keep their bounds. */
    twostate lemma LiveFrame()
      requires old(LiveValid()) && live == old(live) && old(owned) <= owned
      requires forall c :: c in old(owned) ==> c.pos == old(c.pos) && c.end == old(c.end)
      ensures LiveValid()
    {
      forall b | b in live ensures b.chunk in owned && Inside(b) {
        assert old(Inside(b));
      }
    }

    /** Free space stays zero while it only shrinks and is not written. */
    twostate lemma CleanFrame()
      requires old(OwnedValid()) && old(CleanValid()) && OwnedValid() && clean == old(clean)
      requires forall i :: 0 <= i < |chunks| ==> chunks[i] in old(chunks) || (clean ==> Zeroed(chunks[i]))
      requires forall i {:trigger old(chunks)[i]} :: 0 <= i < |old(chunks)| ==>
                 var c := old(chunks)[i];
                 old(c.pos) <= c.pos && c.end <= old(c.end) && forall k :: c.pos <= k < c.end ==> c.m[k] == old(c.m[k])
      ensures CleanValid()
    {
      forall i | 0 <= i < |chunks| && clean ensures Zeroed(chunks[i]) {
        if chunks[i] in old(chunks) {
          var j :| 0 <= j < |old(chunks)| && old(chunks)[j] == chunks[i];
          assert old(Zeroed(chunks[j]));
        }
      }
    }

    twostate lemma OwnedGrows(new c: Chunk)
      requires old(OwnedValid()) && owned == old(owned) + {c} && ChunkValid(c) && fresh(c.m)
      requires forall i :: 0 <= i < |chunks| ==> chunks[i] in owned
      requires forall d :: d in old(owned) ==> d.pos == old(d.pos) && d.end == old(d.end)
      ensures OwnedValid()
    {
      forall d | d in owned ensures ChunkValid(d) {
        assert d in old(owned) ==> old(ChunkValid(d));
      }
    }

    twostate lemma LinkedGrows(new c: Chunk)
      requires old(Linked()) && chunks == old(chunks[..at + 1]) + [c] && at == old(at) + 1 && current == c
      requires c.child == null && old(current).child == c && c !in old(chunks)
      requires forall d :: d in old(chunks) && d != old(current) ==> d.child == old(d.child)
      ensures Linked()
    {
      forall i | 0 <= i < |chunks| ensures chunks[i].child == Following(chunks, i) {
        if i < old(at) {
          assert chunks[i] == old(chunks)[i] && chunks[i + 1] == old(chunks)[i + 1];
        }
      }
    }

    /** The size of a new chunk: the request, or the size of the first chunk if that is larger. */
    /** The size to ask for: that of the first chunk, unless that is too small or sizes are automatic. */
    function NextSize(size: nat): nat {
      if autosize || size > head.size then size else head.size
    }

    method NewChunk(size: nat) returns (c: Chunk)
      requires Linked() && OwnedValid() && size <= MAX_REQUEST
      ensures fresh(c) && fresh(c.m) && c.child == null && c.pos == 0 && size <= c.end == c.size == PoolSize(NextSize(size))
      ensures ChunkValid(c) && (zeroFill ==> Zeroed(c))
    {
      assert chunks[0] in owned;
      hide PoolSize;
      c := new Chunk(NextSize(size), zeroFill);
    }

    /** A new chunk after `current`, where allocation goes on.  What followed `current` leaves the
        chain. */
    method Extend(size: nat)
      requires Valid() && size <= MAX_REQUEST
      modifies this, current
      ensures Valid() && fresh(current) && fresh(current.m) && current.pos == 0 && size <= current.end == current.size == PoolSize(NextSize(size))
      ensures at == |chunks| - 1 && chunks == old(chunks[..at + 1]) + [current]
      ensures owned == old(owned) + {current} && live == old(live) && clean == old(clean)
      ensures old(current).end == old(current.end) && old(current).pos == old(current.pos)
    {
      hide LiveValid, CleanValid, Inside, Zeroed, OwnedValid, Linked, PoolSize;
      var c := NewChunk(size);
      LinkedOwned();
      current.child := c;
      c.parent := current;
      current := c;
      chunks, at, owned := chunks[..at + 1] + [c], at + 1, owned + {c};
      LinkedGrows(c);
      OwnedGrows(c);
      LiveFrame();
      CleanFrame();
    }

    lemma LinkedOwned()
      requires Linked() && OwnedValid()
      ensures current in owned && at < |chunks| && forall i :: 0 <= i < |chunks| ==> chunks[i] in owned
    {
    }

    // ----- Handing out blocks -----

    twostate lemma OwnedFrame()
      requires old(OwnedValid()) && owned == old(owned)
      requires forall i :: 0 <= i < |chunks| ==> chunks[i] in owned
      requires forall c :: c in owned ==> (c.pos == old(c.pos) && c.end == old(c.end)) || c.pos <= c.end <= old(c.end)
      ensures OwnedValid()
    {
      forall c | c in owned ensures ChunkValid(c) {
        assert old(ChunkValid(c));
      }
    }

    twostate lemma LinkedFrame()
      requires old(Linked()) && chunks == old(chunks) && at == old(at) && current == old(current)
      requires forall c :: c in chunks ==> c.child == old(c.child)
      ensures Linked()
    {
    }

    /** A new block between the old and the new bound of `current` is disjoint from all others. */
    twostate lemma LiveGrows(new b: Block)
      requires old(LiveValid()) && live == old(live) + [b] && owned == old(owned)
      requires b.chunk in owned && Inside(b)
      requires forall c :: c in owned && c != b.chunk ==> c.pos == old(c.pos) && c.end == old(c.end)
      requires old(b.chunk.pos) <= b.chunk.pos && b.chunk.end <= old(b.chunk.end)
      requires if b.movable then b.offset == old(b.chunk.pos) && b.chunk.pos <= b.chunk.end && old(b.chunk.end) == b.chunk.end
               else b.offset + b.length == old(b.chunk.end) && b.chunk.pos <= b.chunk.end && old(b.chunk.pos) == b.chunk.pos
      ensures LiveValid()
    {
      forall a | a in old(live) ensures a.chunk in owned && Inside(a) && Disjoint(a, b) {
        assert old(Inside(a));
      }
      forall i, j | 0 <= i < j < |live| ensures Disjoint(live[i], live[j]) {
        assert live[i] in old(live);
      }
    }

    method TakeFront(size: nat) returns (offset: nat)
      requires Valid() && current.pos + size <= current.end
      modifies this, current
      ensures Valid() && current == old(current) && chunks == old(chunks) && at == old(at) && owned == old(owned) && clean == old(clean)
      ensures live == old(live) + [Block(current, offset, size, true)] && current.end == old(current.end)
      ensures offset == old(current.pos) && current.pos == offset + size
      ensures clean ==> offset + size <= current.m.Length && forall i :: offset <= i < offset + size ==> current.m[i] == 0
    {
      hide LiveValid, CleanValid, OwnedValid, Linked, Zeroed;
      LinkedOwned();
      FreeIsZero();
      offset := current.pos;
      current.pos := current.pos + size;
      live := live + [Block(current, offset, size, true)];
      LinkedFrame();
      OwnedFrame();
      LiveGrows(Block(current, offset, size, true));
      CleanFrame();
    }

    lemma FreeIsZero()
      requires Valid()
      ensures ChunkValid(current) && (clean ==> forall i :: current.pos <= i < current.end ==> current.m[i] == 0)
    {
      assert chunks[at] in owned;
    }

    method TakeBack(size: nat) returns (offset: nat)
      requires Valid() && current.pos + size <= current.end
      modifies this, current
      ensures Valid() && current == old(current) && chunks == old(chunks) && at == old(at) && owned == old(owned) && clean == old(clean)
      ensures live == old(live) + [Block(current, offset, size, false)] && current.pos == old(current.pos)
      ensures offset + size == old(current.end) && current.end == offset
      ensures clean ==> offset + size <= current.m.Length && forall i :: offset <= i < offset + size ==> current.m[i] == 0
    {
      hide LiveValid, CleanValid, OwnedValid, Linked, Zeroed;
      LinkedOwned();
      FreeIsZero();
      offset := current.end - size;
      current.end := current.end - size;
      live := live + [Block(current, offset, size, false)];
      LinkedFrame();
      OwnedFrame();
      LiveGrows(Block(current, offset, size, false));
      CleanFrame();
    }

    /** Moves on to the next chunk of the chain, if there is one. */
    method Advance() returns (moved: bool)
      requires Valid()
      modifies this
      ensures Valid() && chunks == old(chunks) && owned == old(owned) && live == old(live) && clean == old(clean)
      ensures moved <==> old(at) + 1 < |chunks|
      ensures at == old(at) + if moved then 1 else 0
    {
      hide LiveValid, CleanValid, OwnedValid, Inside;
      LinkedOwned();
      if current.child == null {
        assert chunks[at].child == Following(chunks, at);
        return false;
      }
      assert chunks[at].child == Following(chunks, at);
      current := current.child;
      at := at + 1;
      OwnedFrame();
      LiveFrame();
      CleanFrame();
      return true;
    }

    /** Whether a chunk has room for a block. */
    ghost predicate HasRoom(c: Chunk, size: nat)
      reads c`pos, c`end
    {
      c.pos + size <= c.end
    }

    /** `at` is the first chunk with room, from the current one on. */
    twostate predicate FirstRoom(new size: nat, new k: nat)
      reads this, chunks
    {
      && old(at) <= k < |old(chunks)| && old(HasRoom(chunks[k], size))
      && forall j :: old(at) <= j < k ==> old(!HasRoom(chunks[j], size))
    }

    /** ina_mempool_dalloc_aligned: a block from the front of the first chunk, from `current` on, that has
        room; only when none has, a dynamic pool makes a new chunk at the end of the chain.  No byte of
        memory is written, and no other bound moves. */
    method Dalloc(requested: nat, alignment: nat) returns (ok: bool, chunk: Chunk, offset: nat)
      requires Valid() && alignment > 0 && Align(requested, alignment) <= MAX_REQUEST
      modifies this, owned
      ensures Valid() && clean == old(clean) && old(owned) <= owned && fresh(owned - old(owned))
      ensures ok ==> live == old(live) + [Block(chunk, offset, Align(requested, alignment), true)]
      ensures ok && clean ==> && offset + Align(requested, alignment) <= chunk.m.Length
                              && forall i :: offset <= i < offset + Align(requested, alignment) ==> chunk.m[i] == 0
      ensures ok <==> dynamic || old(current.pos) + Align(requested, alignment) <= old(current.end)
      ensures !ok ==> live == old(live) && chunks == old(chunks) && owned == old(owned) && current == old(current)
      ensures forall c :: c in old(owned) ==> c.end == old(c.end) && ((ok && c == chunk) || c.pos == old(c.pos))
      ensures ok ==> chunk == current && chunk.pos == offset + Align(requested, alignment)
      ensures ok && at < |old(chunks)| ==>
                && FirstRoom(Align(requested, alignment), at) && chunk == old(chunks)[at] && offset == old(chunk.pos)
                && chunks == old(chunks) && owned == old(owned)
                && UsedOf(|chunks|) == old(UsedOf(|chunks|)) + Align(requested, alignment) && SizeOf(|chunks|) == old(SizeOf(|chunks|))
      ensures ok && at >= |old(chunks)| ==>
                && (forall j :: old(at) <= j < |old(chunks)| ==> old(!HasRoom(chunks[j], Align(requested, alignment))))
                && fresh(chunk) && offset == 0 && chunk.size == PoolSize(NextSize(Align(requested, alignment)))
                && chunks == old(chunks) + [chunk] && owned == old(owned) + {chunk}
    {
      hide Linked, OwnedValid, LiveValid, CleanValid, Fits, Align, PoolSize, HasRoom;
      var size := Align(requested, alignment);
      var found := SeekRoom(size);
      CurrentRoom(size);
      if !found && !dynamic {
        return false, current, 0;
      }
      if !found {
        AllFull(size);
        Extend(size);
        chunk := current;
        offset := TakeFront(size);
        return true, chunk, offset;
      }
      LinkedOwned();
      chunk := current;
      offset := TakeFront(size);
      UsedGrows(|chunks|, at, size);
      SizeStays(|chunks|);
      return true, chunk, offset;
    }

    /** The jumps to `retry`: on to the first chunk with room, if there is one. */
    method SeekRoom(size: nat) returns (found: bool)
      requires Valid() && size <= MAX_REQUEST
      modifies this
      ensures Valid() && clean == old(clean) && live == old(live) && chunks == old(chunks) && owned == old(owned)
      ensures old(at) <= at < |chunks| && current == chunks[at] && current in owned
      ensures forall j :: old(at) <= j < at ==> !HasRoom(chunks[j], size)
      ensures found <==> HasRoom(current, size)
      ensures !dynamic ==> current == old(current) && at == old(at)
      ensures !found && dynamic ==> at == |chunks| - 1
    {
      hide Linked, OwnedValid, LiveValid, CleanValid, Fits;
      LinkedOwned();
      FreeIsZero();
      FitsIsExact(current.pos, current.end, size);
      CurrentIs();
      while !Fits(current.pos, current.end, size)
        invariant Valid() && clean == old(clean) && live == old(live) && chunks == old(chunks) && owned == old(owned)
        invariant current in owned && ChunkValid(current) && at < |chunks| && current == chunks[at]
        invariant !dynamic ==> current == old(current) && at == old(at)
        invariant Fits(current.pos, current.end, size) <==> HasRoom(current, size)
        invariant old(at) <= at && forall j :: old(at) <= j < at ==> !HasRoom(chunks[j], size)
        decreases |chunks| - at
      {
        if !dynamic {
          return false;
        }
        var moved := Advance();
        CurrentIs();
        if !moved {
          return false;
        }
        LinkedOwned();
        FreeIsZero();
        FitsIsExact(current.pos, current.end, size);
      }
      return true;
    }

    /** No chunk from the old current one on has room. */
    twostate lemma AllFull(new size: nat)
      requires at == |chunks| - 1 && chunks == old(chunks) && current == chunks[at] && !HasRoom(current, size)
      requires forall j :: old(at) <= j < at ==> !HasRoom(chunks[j], size)
      requires forall c :: c in chunks ==> c.pos == old(c.pos) && c.end == old(c.end)
      ensures forall j :: old(at) <= j < |old(chunks)| ==> old(!HasRoom(chunks[j], size))
    {
    }

    lemma CurrentRoom(size: nat)
      requires Valid()
      ensures current in owned && at < |chunks| && current == chunks[at]
      ensures HasRoom(current, size) <==> current.pos + size <= current.end
    {
    }

    lemma CurrentIs()
      requires Linked()
      ensures at < |chunks| && current == chunks[at]
    {
    }

    /** One block more. */
    twostate lemma UsedGrows(new n: nat, new k: nat, new size: nat)
      requires old(OwnedValid()) && OwnedValid() && old(Linked()) && chunks == old(chunks) && owned == old(owned)
      requires k < |chunks| && n <= |chunks| && forall c :: c in chunks && c != chunks[k] ==> c.pos == old(c.pos) && c.end == old(c.end)
      requires chunks[k].pos + (old(chunks[k].end) - chunks[k].end) == old(chunks[k].pos) + size
      ensures UsedOf(n) == old(UsedOf(n)) + if k < n then size else 0
      decreases n
    {
      if n > 0 {
        UsedGrows(n - 1, k, size);
        assert chunks[n - 1] in chunks;
        if n - 1 != k {
          assert chunks[n - 1] != chunks[k];
        }
      }
    }

    twostate lemma SizeStays(new n: nat)
      requires chunks == old(chunks) && n <= |chunks|
      ensures SizeOf(n) == old(SizeOf(n))
      decreases n
    {
      if n > 0 {
        SizeStays(n - 1);
      }
    }

    /** ina_mempool_nalloc_aligned: a block from the back of `current`, or of a new chunk if it has no
        room.  No byte of memory is written. */
    method Nalloc(requested: nat, alignment: nat) returns (ok: bool, chunk: Chunk, offset: nat)
      requires Valid() && alignment > 0 && Align(requested, alignment) <= MAX_REQUEST
      modifies this, owned
      ensures Valid() && clean == old(clean) && old(owned) <= owned && fresh(owned - old(owned))
      ensures ok ==> live == old(live) + [Block(chunk, offset, Align(requested, alignment), false)]
      ensures ok && clean ==> && offset + Align(requested, alignment) <= chunk.m.Length
                              && forall i :: offset <= i < offset + Align(requested, alignment) ==> chunk.m[i] == 0
      ensures ok <==> && Align(requested, alignment) <= old(head.end)
                      && (dynamic || old(current.pos) + Align(requested, alignment) <= old(current.end))
      ensures !ok ==> live == old(live) && chunks == old(chunks) && owned == old(owned) && current == old(current)
      ensures forall c :: c in old(owned) ==> c.pos == old(c.pos) && ((ok && c == chunk) || c.end == old(c.end))
      ensures ok ==> chunk == current && chunk.end == offset
      ensures ok && old(HasRoom(current, Align(requested, alignment))) ==>
                && chunk == old(current) && offset == old(current.end) - Align(requested, alignment)
                && chunks == old(chunks) && owned == old(owned) && at == old(at)
                && UsedOf(|chunks|) == old(UsedOf(|chunks|)) + Align(requested, alignment) && SizeOf(|chunks|) == old(SizeOf(|chunks|))
      ensures ok && !old(HasRoom(current, Align(requested, alignment))) ==>
                && fresh(chunk) && chunk.size == PoolSize(NextSize(Align(requested, alignment)))
                && offset == chunk.size - Align(requested, alignment)
                && chunks == old(chunks[..at + 1]) + [chunk] && owned == old(owned) + {chunk}
    {
      hide Linked, OwnedValid, LiveValid, CleanValid, Fits, Align, PoolSize;
      var size := Align(requested, alignment);
      if head.end < size {
        return false, current, 0;
      }
      LinkedOwned();
      FreeIsZero();
      FitsIsExact(current.pos, current.end, size);
      if !Fits(current.pos, current.end, size) {
        if !dynamic {
          return false, current, 0;
        }
        Extend(size);
        chunk := current;
        offset := TakeBack(size);
        return true, chunk, offset;
      }
      CurrentIs();
      chunk := current;
      offset := TakeBack(size);
      LinkedOwned();
      UsedGrows(|chunks|, at, size);
      SizeStays(|chunks|);
      return true, chunk, offset;
    }

    // ----- Reset, clear, info -----

    lemma Link(i: nat)
      requires Linked() && i < |chunks|
      ensures chunks[i].child == Following(chunks, i) && chunks[0] == head
    {
    }

    /** What a reset keeps: the nalloc blocks, with their bounds and their disjointness. */
    twostate lemma LiveKept()
      requires old(LiveValid()) && live == Kept(old(live)) && owned == old(owned)
      requires forall c :: c in owned ==> c.end == old(c.end)
      ensures LiveValid()
    {
      KeptDisjoint(old(live));
      forall b | b in live ensures b.chunk in owned && Inside(b) {
        KeptMember(old(live), b);
        assert old(Inside(b));
      }
    }

    /** ina_mempool_reset: takes all dalloc blocks back; nalloc blocks stay. */
    method Reset()
      requires Valid()
      modifies this, chunks
      ensures Valid() && current == head && chunks == old(chunks) && owned == old(owned)
      ensures live == Kept(old(live)) && !clean
      ensures forall c :: c in chunks ==> c.pos == 0 && c.end == old(c.end)
    {
      hide Linked, OwnedValid, LiveValid, CleanValid, Inside;
      LinkedOwned();
      Link(0);
      var pm: Chunk? := head;
      ghost var i := 0;
      while pm != null
        invariant 0 <= i <= |chunks| && pm == (if i < |chunks| then chunks[i] else null)
        invariant forall j :: 0 <= j < i ==> chunks[j].pos == 0
        invariant forall c :: c in owned ==> c.end == old(c.end) && c.child == old(c.child) && (c.pos == old(c.pos) || c.pos == 0)
        modifies chunks
        decreases |chunks| - i
      {
        pm.pos := 0;
        LinkedFrame();
        Link(i);
        pm := pm.child;
        i := i + 1;
      }
      LinkedFrame();
      current, at, live, clean := head, 0, Kept(live), false;
      LinkedAtHead();
      ZeroPosOwned();
      LiveKept();
      NotClean();
    }

    lemma NotClean()
      requires !clean && OwnedValid()
      ensures CleanValid()
    {
    }

    twostate lemma LinkedAtHead()
      requires old(Linked()) && chunks == old(chunks) && at == 0 && current == head
      requires forall c :: c in chunks ==> c.child == old(c.child)
      ensures Linked()
    {
    }

    twostate lemma ZeroPosOwned()
      requires old(OwnedValid()) && owned == old(owned) && chunks == old(chunks)
      requires forall c :: c in owned ==> c.end == old(c.end) && (c.pos == old(c.pos) || c.pos == 0)
      ensures OwnedValid()
    {
      forall c | c in owned ensures ChunkValid(c) {
        assert old(ChunkValid(c));
      }
    }

    /** The loop of the clear operation. */
    method WipeChain()
      requires Valid()
      modifies chunks, Memory()
      ensures Linked()
      ensures forall c :: c in owned ==> c.end == old(c.end) && c.child == old(c.child) && (c.pos == old(c.pos) || c.pos == 0)
      ensures forall j :: 0 <= j < |chunks| ==> chunks[j].pos == 0
      ensures forall j, k :: 0 <= j < |chunks| && 0 <= k < chunks[j].m.Length ==> chunks[j].m[k] == 0
    {
      hide Linked, OwnedValid, LiveValid, CleanValid, Inside;
      LinkedOwned();
      Link(0);
      var pm: Chunk? := head;
      ghost var i := 0;
      ghost var memory := Memory();
      while pm != null
        invariant 0 <= i <= |chunks| && pm == (if i < |chunks| then chunks[i] else null)
        invariant forall j :: 0 <= j < i ==> chunks[j].pos == 0
        invariant forall j, k :: 0 <= j < i && 0 <= k < chunks[j].m.Length ==> chunks[j].m[k] == 0
        invariant forall c :: c in owned ==> c.end == old(c.end) && c.child == old(c.child) && (c.pos == old(c.pos) || c.pos == 0)
        modifies chunks, memory
        decreases |chunks| - i
      {
        assert pm in owned && pm.m in memory;
        pm.pos := 0;
        MemZero(pm.m, 0, pm.m.Length);
        LinkedFrame();
        Link(i);
        pm := pm.child;
        i := i + 1;
      }
      LinkedFrame();
    }

    /** ina_mempool_clear: like a reset, and wipes all memory of the chain, including the nalloc blocks,
        which stay reserved. */
    method Clear()
      requires Valid()
      modifies this, chunks, Memory()
      ensures Valid() && current == head && chunks == old(chunks) && owned == old(owned)
      ensures live == Kept(old(live)) && clean == zeroFill
      ensures forall c :: c in chunks ==> c.pos == 0 && c.end == old(c.end) && forall k :: 0 <= k < c.m.Length ==> c.m[k] == 0
    {
      hide Linked, OwnedValid, LiveValid, CleanValid, Inside;
      LinkedOwned();
      WipeChain();
      current, at, live, clean := head, 0, Kept(live), zeroFill;
      LinkedAtHead();
      ZeroPosOwned();
      LiveKept();
      AllZeroClean();
    }

    lemma AllZeroClean()
      requires OwnedValid()
      requires forall j, k :: 0 <= j < |chunks| && 0 <= k < chunks[j].m.Length ==> chunks[j].m[k] == 0
      ensures CleanValid()
    {
      forall j | 0 <= j < |chunks| ensures ChunkValid(chunks[j]) && Zeroed(chunks[j]) {
        assert chunks[j] in owned;
      }
    }

    ghost function SizeOf(n: nat): nat
      requires n <= |chunks|
      reads this, chunks
    {
      if n == 0 then 0 else SizeOf(n - 1) + chunks[n - 1].size
    }

    ghost function UsedOf(n: nat): nat
      requires OwnedValid() && n <= |chunks|
      reads this, chunks, owned
    {
      if n == 0 then 0
      else
        assert ChunkValid(chunks[n - 1]);
        UsedOf(n - 1) + chunks[n - 1].pos + (chunks[n - 1].size - chunks[n - 1].end)
    }

    /** ina_mempool_info: the sums over the chain, and the number of chunks after the first. */
    method Info() returns (size: nat, used: nat, children: nat)
      requires Valid()
      ensures size == SizeOf(|chunks|) && used == UsedOf(|chunks|) && children == |chunks| - 1
    {
      Link(0);
      var pm: Chunk? := head;
      size, used, children := 0, 0, 0;
      while pm != null
        invariant 0 <= children <= |chunks| && pm == (if children < |chunks| then chunks[children] else null)
        invariant size == SizeOf(children) && used == UsedOf(children)
        decreases |chunks| - children
      {
        assert ChunkValid(chunks[children]);
        Link(children);
        size := size + pm.size;
        used := used + pm.pos + (pm.size - pm.end);
        children := children + 1;
        pm := pm.child;
      }
      children := children - 1;
    }

    // ----- Clients, and reallocation at the end of the first chunk -----

    lemma LiveFacts(k: nat)
      requires OwnedValid() && LiveValid() && k < |live| && live[k].length > 0
      ensures var b := live[k];
              b.chunk in owned && ChunkValid(b.chunk) && Inside(b) && b.offset + b.length <= b.chunk.m.Length
    {
      assert live[k] in live;
    }

    /** Bytes changed outside the free space leave it zero. */
    twostate lemma CleanAfterStore(new c: Chunk)
      requires old(OwnedValid()) && old(CleanValid()) && OwnedValid() && chunks == old(chunks) && clean == old(clean)
      requires c in owned && old(owned) == owned
      requires forall d :: d in owned && d != c ==> d.pos == old(d.pos) && d.end == old(d.end)
      requires forall d, k :: d in owned && d.m != c.m && 0 <= k < d.m.Length ==> d.m[k] == old(d.m[k])
      requires c.end == old(c.end)
      requires forall k :: c.pos <= k < c.end && k < c.m.Length ==>
                 if k < old(c.pos) then c.m[k] == 0 else c.m[k] == old(c.m[k])
      ensures CleanValid()
    {
      forall i | 0 <= i < |chunks| && clean ensures Zeroed(chunks[i]) {
        var d := chunks[i];
        assert old(Zeroed(chunks[i])) && ChunkValid(d);
        assert d != c ==> d.m != c.m;
      }
    }

    /** A client writes byte `i` of its own block, the `k`th live one; no other byte changes. */
    method Store(chunk: Chunk, offset: nat, i: nat, v: bv8, ghost k: nat)
      requires Valid() && k < |live| && live[k].chunk == chunk && live[k].offset == offset && i < live[k].length
      modifies chunk.m
      ensures Valid()
      ensures offset + i < chunk.m.Length && chunk.m[offset + i] == v
      ensures forall j :: 0 <= j < chunk.m.Length && j != offset + i ==> chunk.m[j] == old(chunk.m[j])
    {
      hide Linked, OwnedValid, LiveValid, CleanValid;
      LiveFacts(k);
      chunk.m[offset + i] := v;
      CleanAfterStore(chunk);
    }

    /** Block `k` gives way to another one; the rest keep their places. */
    twostate lemma LiveReplaced(new k: nat, new b: Block)
      requires k < |old(live)| && live == old(live)[k := b] && owned == old(owned) && old(LiveValid())
      requires b.chunk in owned && Inside(b)
      requires forall j :: 0 <= j < |old(live)| && j != k ==> Inside(old(live)[j]) && Disjoint(old(live)[j], b)
      ensures LiveValid()
    {
      forall i, j | 0 <= i < j < |live| ensures Disjoint(live[i], live[j]) {
        assert i != k && j != k ==> Disjoint(old(live)[i], old(live)[j]);
      }
    }

    /** The bytes behind the last block of the first chunk are not those of block `k`. */
    lemma BehindIsFree(chunk: Chunk, offset: nat, oldSize: nat, newSize: nat, k: nat)
      requires OwnedValid() && LiveValid() && head in owned && head.pos + newSize <= head.end && 0 < oldSize < newSize
      requires k < |live| && SameBytes(live[k], Block(chunk, offset, oldSize, true))
      ensures chunk in owned && ChunkValid(chunk) && ChunkValid(head) && offset + oldSize <= chunk.m.Length
      ensures head.m == chunk.m ==> offset + oldSize <= head.pos || head.pos + oldSize <= offset
    {
      hide OwnedValid, LiveValid;
      LiveFacts(k);
      OwnMemory(chunk);
    }

    lemma OwnMemory(c: Chunk)
      requires OwnedValid() && c in owned && head in owned
      ensures ChunkValid(head) && (c != head ==> c.m != head.m)
    {
    }

    lemma HeadOwned()
      requires Linked() && OwnedValid()
      ensures head in owned && ChunkValid(head) && head in chunks
    {
      assert chunks[0] in owned;
    }

    /** `n` bytes at one place are those that were at another. */
    twostate predicate Carried(c: Chunk, new offset: nat, new d: Chunk, new offset': nat, new n: nat)
      reads d.m
    {
      && offset + n <= c.m.Length && offset' + n <= d.m.Length
      && forall j :: offset' <= j < offset' + n ==> d.m[j] == old(c.m[offset + j - offset'])
    }

    /** The bytes of a block are what they were. */
    twostate predicate Untouched(b: Block)
      reads b.chunk.m
    {
      b.offset + b.length <= b.chunk.m.Length ==> forall i :: b.offset <= i < b.offset + b.length ==> b.chunk.m[i] == old(b.chunk.m[i])
    }

    /** What was stored in the first chunk lies in `b`, which no other live block meets. */
    twostate lemma OthersUntouched(new k: nat, new b: Block)
      requires old(OwnedValid()) && old(LiveValid()) && k < |old(live)| && b.chunk == head && head in old(owned)
      requires forall j :: 0 <= j < |old(live)| && j != k ==> Disjoint(old(live)[j], b) || Disjoint(b, old(live)[j])
      requires forall i :: 0 <= i < head.m.Length && !(b.offset <= i < b.offset + b.length) ==> head.m[i] == old(head.m[i])
      requires forall c :: c in old(owned) && c.m != head.m ==> c.m[..] == old(c.m[..])
      ensures forall j :: 0 <= j < |old(live)| && j != k ==> Untouched(old(live)[j])
    {
      forall j | 0 <= j < |old(live)| && j != k ensures Untouched(old(live)[j]) {
        var o := old(live)[j];
        assert o in old(live) && o.chunk in old(owned);
        if o.offset + o.length <= o.chunk.m.Length {
          forall i | o.offset <= i < o.offset + o.length ensures o.chunk.m[i] == old(o.chunk.m[i]) {
            if o.chunk != head {
              assert o.chunk.m[..][i] == old(o.chunk.m[..])[i];
            }
          }
        }
      }
    }

    /** In place: moves the front bound, wiping what is given back. */
    method Resize(offset: nat, oldSize: nat, newSize: nat, ghost k: nat)
      requires Valid() && k < |live| && live[k] == Block(head, offset, oldSize, true) && 0 < oldSize && 0 < newSize
      requires offset + oldSize == head.pos && head.pos + newSize - oldSize <= head.end
      modifies this, head, head.m
      ensures Valid() && owned == old(owned) && chunks == old(chunks) && clean == old(clean)
      ensures live == old(live)[k := Block(head, offset, newSize, true)]
      ensures offset + newSize <= head.m.Length && Carried(head, offset, head, offset, Min(oldSize, newSize))
      ensures forall i :: 0 <= i < head.m.Length && !(offset + newSize <= i < offset + oldSize) ==> head.m[i] == old(head.m[i])
      ensures forall j :: 0 <= j < |old(live)| && j != k ==> Untouched(old(live)[j])
    {
      hide Linked, OwnedValid, LiveValid, CleanValid, Untouched;
      HeadOwned();
      head.pos := head.pos + newSize - oldSize;
      if newSize < oldSize {
        MemZero(head.m, head.pos, oldSize - newSize);
      }
      live := live[k := Block(head, offset, newSize, true)];
      LinkedFrame();
      ResizedOwned();
      ResizedNeighbours(offset, oldSize, newSize, k);
      LiveReplaced(k, Block(head, offset, newSize, true));
      CleanAfterStore(head);
      BlockApart(k);
      OthersUntouched(k, Block(head, offset, oldSize, true));
    }

    twostate lemma BlockApart(new k: nat)
      requires old(LiveValid()) && k < |old(live)|
      ensures forall j :: 0 <= j < |old(live)| && j != k ==> Disjoint(old(live)[j], old(live)[k]) || Disjoint(old(live)[k], old(live)[j])
    {
    }

    twostate lemma ResizedOwned()
      requires old(OwnedValid()) && owned == old(owned) && chunks == old(chunks)
      requires forall c :: c in owned && c != head ==> c.pos == old(c.pos) && c.end == old(c.end)
      requires head in owned && head.pos <= head.end == old(head.end)
      ensures OwnedValid()
    {
      forall c | c in owned ensures ChunkValid(c) {
        assert old(ChunkValid(c));
      }
    }

    twostate lemma ResizedNeighbours(new offset: nat, new oldSize: nat, new newSize: nat, new k: nat)
      requires old(LiveValid()) && owned == old(owned) && k < |old(live)|
      requires old(live)[k] == Block(head, offset, oldSize, true) && 0 < oldSize && 0 < newSize
      requires offset + oldSize == old(head.pos) && head.pos == offset + newSize <= head.end == old(head.end)
      requires forall c :: c in owned && c != head ==> c.pos == old(c.pos) && c.end == old(c.end)
      ensures forall j :: 0 <= j < |old(live)| && j != k ==>
                Inside(old(live)[j]) && Disjoint(old(live)[j], Block(head, offset, newSize, true))
    {
      forall j | 0 <= j < |old(live)| && j != k
        ensures Inside(old(live)[j]) && Disjoint(old(live)[j], Block(head, offset, newSize, true))
      {
        var b := old(live)[j];
        assert b in old(live) && old(Inside(b));
        assert Disjoint(b, old(live)[k]) || Disjoint(old(live)[k], b);
      }
    }

    /** By copying: the old bytes move behind the last block of the first chunk. */
    method MoveBehind(chunk: Chunk, offset: nat, oldSize: nat, newSize: nat, ghost k: nat) returns (offset': nat)
      requires Valid() && k < |live| && SameBytes(live[k], Block(chunk, offset, oldSize, true)) && 0 < oldSize < newSize
      requires head.pos + newSize <= head.end
      modifies this, head, head.m
      ensures Valid() && owned == old(owned) && chunks == old(chunks) && clean == old(clean)
      ensures live == old(live)[k := Block(head, offset', newSize, true)]
      ensures offset' + newSize <= head.m.Length && Carried(chunk, offset, head, offset', oldSize)
      ensures forall i :: 0 <= i < head.m.Length && !(offset' <= i < offset' + oldSize) ==> head.m[i] == old(head.m[i])
      ensures forall j :: 0 <= j < |old(live)| && j != k ==> Untouched(old(live)[j])
    {
      hide Linked, OwnedValid, LiveValid, CleanValid, Untouched;
      HeadOwned();
      BehindIsFree(chunk, offset, oldSize, newSize, k);
      hide Inside;
      offset' := head.pos;
      MemCopy(head.m, offset', chunk.m, offset, oldSize);
      head.pos := head.pos + newSize;
      live := live[k := Block(head, offset', newSize, true)];
      LinkedFrame();
      ResizedOwned();
      MovedNeighbours(newSize, k);
      LiveReplaced(k, Block(head, offset', newSize, true));
      CleanAfterStore(head);
      OthersUntouched(k, Block(head, offset', newSize, true));
    }

    twostate lemma MovedNeighbours(new newSize: nat, new k: nat)
      requires old(LiveValid()) && owned == old(owned) && k < |old(live)|
      requires head.pos == old(head.pos) + newSize <= head.end == old(head.end)
      requires forall c :: c in owned && c != head ==> c.pos == old(c.pos) && c.end == old(c.end)
      ensures forall j :: 0 <= j < |old(live)| && j != k ==>
                Inside(old(live)[j]) && Disjoint(old(live)[j], Block(head, old(head.pos), newSize, true))
    {
      forall j | 0 <= j < |old(live)| && j != k
        ensures Inside(old(live)[j]) && Disjoint(old(live)[j], Block(head, old(head.pos), newSize, true))
      {
        var b := old(live)[j];
        assert b in old(live) && old(Inside(b));
      }
    }

    twostate lemma Unmoved(c: Chunk, new offset: nat, new n: nat)
      requires offset + n <= c.m.Length && c.m[..] == old(c.m[..])
      ensures Carried(c, offset, c, offset, n)
    {
      forall j | offset <= j < offset + n ensures c.m[j] == old(c.m[offset + j - offset]) {
        assert c.m[..][j] == old(c.m[..])[j];
      }
    }

    /** The branches of ralloc that stay in the first chunk: the block is the last one there and the new
        size fits in its place; or it need not grow; or a copy fits behind the last one. */
    predicate RallocFits(chunk: Chunk, offset: nat, oldSize: nat, newSize: nat)
      reads head`pos, head`end
    {
      if head.pos >= oldSize && chunk == head && offset == head.pos - oldSize then head.pos + newSize - oldSize <= head.end
      else newSize <= oldSize || Fits(head.pos, head.end, newSize)
    }

    /** Where the branches that open a new chunk put the block all the same: at the front of the first
        one.  It reaches behind the free space there. */
    lemma DoesNotFit(chunk: Chunk, offset: nat, oldSize: nat, newSize: nat)
      requires OwnedValid() && head in owned && newSize <= MAX_REQUEST && !RallocFits(chunk, offset, oldSize, newSize)
      ensures head.pos + newSize > head.end
    {
      FitsIsExact(head.pos, head.end, newSize);
    }

    /** ina_mempool_ralloc_aligned.  The first min(old, new) bytes are kept, and what is given back by
        shrinking the last block is free and, in a clean pool, zero again. */
    method Ralloc(chunk: Chunk, offset: nat, oldRequested: nat, newRequested: nat, alignment: nat, ghost k: nat)
      returns (r: Moved)
      requires Valid() && alignment > 0 && 0 < oldRequested && 0 < newRequested && Align(newRequested, alignment) <= MAX_REQUEST
      requires k < |live| && SameBytes(live[k], Block(chunk, offset, Align(oldRequested, alignment), true))
      modifies this, head, head.m
      ensures Valid() && owned == old(owned) && chunks == old(chunks) && clean == old(clean)
      ensures r.To? <==> Align(oldRequested, alignment) <= old(head.end) &&
                         old(RallocFits(chunk, offset, Align(oldRequested, alignment), Align(newRequested, alignment)))
      ensures r.Outside? <==> dynamic && Align(oldRequested, alignment) <= old(head.end) &&
                              !old(RallocFits(chunk, offset, Align(oldRequested, alignment), Align(newRequested, alignment)))
      ensures r.Outside? ==> old(head.pos) + Align(newRequested, alignment) > old(head.end)
      ensures forall j :: 0 <= j < |old(live)| && (j != k || !r.To?) ==> Untouched(old(live)[j])
      ensures r.Failed? ==> live == old(live) && (!dynamic || old(head.end) < Align(oldRequested, alignment))
      ensures r.To? ==> exists b: Block :: SameStart(b, r) && Align(newRequested, alignment) <= b.length && live == old(live)[k := b]
      ensures r.To? ==> Carried(chunk, offset, r.chunk, r.offset, Min(Align(oldRequested, alignment), Align(newRequested, alignment)))
    {
      hide Linked, OwnedValid, LiveValid, CleanValid, Align, Min, RallocFits, Carried, SameStart, SameBytes, Untouched;
      r := RallocAligned(chunk, offset, Align(oldRequested, alignment), Align(newRequested, alignment), k);
    }

    /** The same, after rounding both sizes up. */
    method RallocAligned(chunk: Chunk, offset: nat, oldSize: nat, newSize: nat, ghost k: nat) returns (r: Moved)
      requires Valid() && 0 < oldSize && 0 < newSize <= MAX_REQUEST
      requires k < |live| && SameBytes(live[k], Block(chunk, offset, oldSize, true))
      modifies this, head, head.m
      ensures Valid() && owned == old(owned) && chunks == old(chunks) && clean == old(clean)
      ensures r.To? <==> oldSize <= old(head.end) && old(RallocFits(chunk, offset, oldSize, newSize))
      ensures r.Outside? <==> dynamic && oldSize <= old(head.end) && !old(RallocFits(chunk, offset, oldSize, newSize))
      ensures r.Outside? ==> old(head.pos) + newSize > old(head.end)
      ensures forall j :: 0 <= j < |old(live)| && (j != k || !r.To?) ==> Untouched(old(live)[j])
      ensures r.Failed? ==> live == old(live) && (!dynamic || old(head.end) < oldSize)
      ensures r.To? ==> exists b: Block :: SameStart(b, r) && newSize <= b.length && live == old(live)[k := b]
      ensures r.To? ==> Carried(chunk, offset, r.chunk, r.offset, Min(oldSize, newSize))
    {
      hide Linked, OwnedValid, LiveValid, CleanValid, Fits, Carried;
      HeadOwned();
      LiveFacts(k);
      if head.end < oldSize {
        return Failed;
      }
      if head.pos >= oldSize && chunk == head && offset == head.pos - oldSize {
        if head.pos + newSize - oldSize <= head.end {
          Resize(offset, oldSize, newSize, k);
          assert SameStart(live[k], To(chunk, offset));
          return To(chunk, offset);
        }
        DoesNotFit(chunk, offset, oldSize, newSize);
        return if dynamic then Outside else Failed;
      }
      if newSize <= oldSize {
        assert live == live[k := live[k]] && SameStart(live[k], To(chunk, offset));
        Unmoved(chunk, offset, newSize);
        return To(chunk, offset);
      }
      if Fits(head.pos, head.end, newSize) {
        FitsIsExact(head.pos, head.end, newSize);
        var offset' := MoveBehind(chunk, offset, oldSize, newSize, k);
        assert SameStart(live[k], To(head, offset'));
        return To(head, offset');
      }
      DoesNotFit(chunk, offset, oldSize, newSize);
      return if dynamic then Outside else Failed;
    }
  }

  /** A pool of 1024 bytes, a block of 512, and ralloc to 4096: a new chunk would be opened, and the
      first one would be handed out. */
  method RallocMisplaced() returns (pool: Pool, r: Moved)
    ensures fresh(pool) && pool.Valid() && r == Outside && pool.head.size == 1024
  {
    hide *;
    SmallAligned();
    pool := new Pool(1024, true, false, true);
    var ok, chunk, offset := pool.Dalloc(512, 16);
    DoesNotFitThere(pool, chunk, offset);
    Itself(pool.live[0]);
    r := pool.Ralloc(chunk, offset, 512, 4096, 16, 0);
  }

  lemma Itself(b: Block)
    ensures SameBytes(b, Block(b.chunk, b.offset, b.length, true))
  {
  }

  lemma SmallAligned()
    ensures Align(512, 16) == 512 && Align(4096, 16) == 4096 <= MAX_REQUEST && PoolSize(1024) == 1024 <= MAX_REQUEST
  {
    hide Align, PoolSize;
    AlignedSize(1024);
    assert PowerOfTwo(16);
    AlignIsMultipleIff(16);
  }

  lemma DoesNotFitThere(pool: Pool, chunk: Chunk, offset: nat)
    requires pool.Valid() && pool.head.end == 1024
    ensures !pool.RallocFits(chunk, offset, 512, 4096)
  {
    pool.HeadOwned();
    FitsIsExact(pool.head.pos, pool.head.end, 4096);
  }
}
