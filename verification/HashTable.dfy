/** The bucketed hash table of src/hashtable.c, for fixed-width keys.  A removed entry stays in its slot
    with null data; setting a key may reuse such a slot; a full bucket grows by 32 slots. */
module HashTable {

  const BUCKET_SIZE := 32

  /** A slot; data 0 is the null pointer. */
  datatype Slot = Slot(key: nat, data: nat)

  datatype Bucket = Bucket(nodes: seq<Slot>, count: nat, max: nat, free: nat, hash: nat)

  /** The first 32-bit word of a key.  The scan loops stop at a slot where it is zero. */
  function FirstWord(key: nat): nat {
    key % 0x1_0000_0000
  }

  ghost predicate DistinctKeys(nodes: seq<Slot>, n: nat)
    requires n <= |nodes|
  {
    forall i, j :: 0 <= i < j < n ==> nodes[i].key != nodes[j].key
  }

  ghost predicate BucketValid(b: Bucket) {
    && b.count <= b.max
    && |b.nodes| == (if b.max == 0 then 0 else b.max + 1)
    && (forall i :: 0 <= i < b.count ==> FirstWord(b.nodes[i].key) != 0)
    && DistinctKeys(b.nodes, b.count)
  }

  /** What the first `n` slots hold for `key`; 0 when nothing. */
  ghost function Look(nodes: seq<Slot>, n: nat, key: nat): nat
    requires n <= |nodes|
  {
    if n == 0 then 0
    else if nodes[n - 1].key == key then nodes[n - 1].data
    else Look(nodes, n - 1, key)
  }

  lemma {:induction false} LookAt(nodes: seq<Slot>, n: nat, i: nat)
    requires i < n <= |nodes| && DistinctKeys(nodes, n)
    ensures Look(nodes, n, nodes[i].key) == nodes[i].data
  {
    if i < n - 1 {
      LookAt(nodes, n - 1, i);
    }
  }

  lemma {:induction false} LookNone(nodes: seq<Slot>, n: nat, key: nat)
    requires n <= |nodes| && forall i :: 0 <= i < n ==> nodes[i].key != key
    ensures Look(nodes, n, key) == 0
  {
    if n > 0 {
      LookNone(nodes, n - 1, key);
    }
  }

  lemma {:induction false} LookFinds(nodes: seq<Slot>, n: nat, key: nat) returns (i: nat)
    requires n <= |nodes| && Look(nodes, n, key) != 0
    ensures i < n && nodes[i] == Slot(key, Look(nodes, n, key))
  {
    if nodes[n - 1].key == key {
      i := n - 1;
    } else {
      i := LookFinds(nodes, n - 1, key);
    }
  }

  /** Only the first `n` slots matter. */
  lemma {:induction false} LookPrefix(nodes: seq<Slot>, nodes': seq<Slot>, n: nat, key: nat)
    requires n <= |nodes| && n <= |nodes'| && forall i :: 0 <= i < n ==> nodes[i] == nodes'[i]
    ensures Look(nodes', n, key) == Look(nodes, n, key)
  {
    if n > 0 {
      LookPrefix(nodes, nodes', n - 1, key);
    }
  }

  /** Writing a slot does not change what is found for other keys, provided the slot held nothing for
      them: it is a new slot, a removed entry, or the entry of the key itself. */
  lemma {:induction false} LookOther(nodes: seq<Slot>, n: nat, i: nat, slot: Slot, key: nat)
    requires i < n <= |nodes| && DistinctKeys(nodes, n)
    requires key != slot.key && (nodes[i].key == key ==> nodes[i].data == 0)
    ensures Look(nodes[i := slot], n, key) == Look(nodes, n, key)
  {
    if i == n - 1 {
      LookPrefix(nodes, nodes[i := slot], n - 1, key);
      if nodes[i].key == key {
        LookNone(nodes, n - 1, key);
      }
    } else {
      LookOther(nodes, n - 1, i, slot, key);
    }
  }

  /** The bucket after a slot has been written. */
  function Written(b: Bucket, i: nat, slot: Slot): Bucket
    requires i < |b.nodes|
  {
    b.(nodes := b.nodes[i := slot], count := if i == b.count then b.count + 1 else b.count)
  }

  lemma WrittenValid(b: Bucket, i: nat, slot: Slot)
    requires BucketValid(b) && i <= b.count < |b.nodes| && FirstWord(slot.key) != 0
    requires i == b.count ==> b.count < b.max
    requires forall j :: 0 <= j < b.count && j != i ==> b.nodes[j].key != slot.key
    ensures BucketValid(Written(b, i, slot))
    ensures Look(Written(b, i, slot).nodes, Written(b, i, slot).count, slot.key) == slot.data
  {
    var b' := Written(b, i, slot);
    assert forall j :: 0 <= j < b'.count && j != i ==> b'.nodes[j] == b.nodes[j];
    assert DistinctKeys(b'.nodes, b'.count);
    LookAt(b'.nodes, b'.count, i);
  }

  lemma WrittenOther(b: Bucket, i: nat, slot: Slot, key: nat)
    requires BucketValid(b) && i <= b.count < |b.nodes| && key != slot.key
    requires i < b.count && b.nodes[i].key == key ==> b.nodes[i].data == 0
    ensures Look(Written(b, i, slot).nodes, Written(b, i, slot).count, key) == Look(b.nodes, b.count, key)
  {
    if i < b.count {
      LookOther(b.nodes, b.count, i, slot, key);
    } else {
      LookPrefix(b.nodes, b.nodes[i := slot], b.count, key);
    }
  }

  // ----- Scanning a bucket -----

  /** The loop of get and remove: the slot of a live entry for `key`. */
  method ScanLive(b: Bucket, key: nat) returns (found: bool, i: nat)
    requires BucketValid(b)
    ensures found ==> i < b.count && b.nodes[i].key == key && b.nodes[i].data != 0
    ensures found <==> Look(b.nodes, b.count, key) != 0
    ensures found ==> Look(b.nodes, b.count, key) == b.nodes[i].data
  {
    i := 0;
    while b.nodes != [] && FirstWord(b.nodes[i].key) != 0 && i < b.count
      invariant 0 <= i <= b.count
      invariant forall j :: 0 <= j < i ==> b.nodes[j].key != key || b.nodes[j].data == 0
      decreases b.count - i
    {
      if b.nodes[i].data != 0 && b.nodes[i].key == key {
        LookAt(b.nodes, b.count, i);
        return true, i;
      }
      i := i + 1;
    }
    if Look(b.nodes, b.count, key) != 0 {
      var j := LookFinds(b.nodes, b.count, key);
      assert false;
    }
    return false, i;
  }

  /** The loop of set: the slot that holds `key`, live or removed; failing that, a slot to write it to:
      the last removed one, or the one after the last. */
  method ScanForSet(b: Bucket, key: nat) returns (found: bool, i: nat)
    requires BucketValid(b) && b.count < b.max
    ensures i <= b.count && (found <==> SlotIn(b.nodes, b.count, key))
    ensures found ==> i < b.count && b.nodes[i].key == key
    ensures !found ==> forall j :: 0 <= j < b.count ==> b.nodes[j].key != key
    ensures !found && i < b.count ==> b.nodes[i].data == 0
    ensures !found ==> forall j :: i < j < b.count ==> b.nodes[j].data != 0
    ensures !found && i == b.count ==> forall j :: 0 <= j < b.count ==> b.nodes[j].data != 0
  {
    var next, free := 0, b.count;
    while FirstWord(b.nodes[next].key) != 0 && next < b.count
      invariant 0 <= next <= b.count && 0 <= free <= b.count
      invariant forall j :: 0 <= j < next ==> b.nodes[j].key != key
      invariant free < b.count ==> free < next && b.nodes[free].data == 0
      invariant forall j :: 0 <= j < next && (free < j || free == b.count) ==> b.nodes[j].data != 0
      decreases b.count - next
    {
      if b.nodes[next].key == key {
        return true, next;
      }
      if b.nodes[next].data == 0 {
        free := next;
      }
      next := next + 1;
    }
    return false, free;
  }

  /** `key` lies in one of the first `n` slots, live or removed. */
  ghost predicate SlotIn(nodes: seq<Slot>, n: nat, key: nat)
    requires n <= |nodes|
  {
    exists i :: 0 <= i < n && nodes[i].key == key
  }

  /** Writing a slot takes it from the key it held. */
  lemma WrittenSlots(b: Bucket, i: nat, slot: Slot, k: nat)
    requires BucketValid(b) && i <= b.count < |b.nodes|
    requires forall j :: 0 <= j < b.count && j != i ==> b.nodes[j].key != slot.key
    ensures var w := Written(b, i, slot);
            SlotIn(w.nodes, w.count, k) <==> k == slot.key || (SlotIn(b.nodes, b.count, k) && (i < b.count ==> k != b.nodes[i].key))
  {
    var w := Written(b, i, slot);
    assert w.nodes[i] == slot && forall j :: 0 <= j < b.count && j != i ==> w.nodes[j] == b.nodes[j];
    if SlotIn(b.nodes, b.count, k) && (i < b.count ==> k != b.nodes[i].key) {
      var j :| 0 <= j < b.count && b.nodes[j].key == k;
      assert w.nodes[j].key == k;
    }
  }

  /** Room for 32 more slots, zero-filled; the old slots are copied. */
  function Grown(b: Bucket): (r: Bucket)
    requires BucketValid(b)
    ensures BucketValid(r) && r.max == b.max + BUCKET_SIZE && r.count == b.count
    ensures forall i :: 0 <= i < b.count ==> r.nodes[i] == b.nodes[i]
    ensures forall k :: SlotIn(r.nodes, r.count, k) <==> SlotIn(b.nodes, b.count, k)
  {
    b.(nodes := b.nodes[..b.max] + seq(BUCKET_SIZE + 1, _ => Slot(0, 0)), max := b.max + BUCKET_SIZE)
  }

  // ----- The table -----

  /** The entries of `m` with a key in `passed` have been handed over, each once. */
  ghost predicate HandedOver(visited: seq<nat>, keys: seq<nat>, m: map<nat, nat>, passed: set<nat>) {
    && |visited| == |keys| == |passed|
    && (forall i, j :: 0 <= i < j < |keys| ==> keys[i] != keys[j])
    && (forall k :: k in keys <==> k in passed)
    && (forall i :: 0 <= i < |keys| ==> keys[i] in m && visited[i] == m[keys[i]])
  }

  lemma NoneHandedOver(m: map<nat, nat>)
    ensures HandedOver([], [], m, {})
  {
  }

  lemma HandOver(visited: seq<nat>, keys: seq<nat>, m: map<nat, nat>, passed: set<nat>, k: nat)
    requires HandedOver(visited, keys, m, passed) && k !in passed && k in m
    ensures HandedOver(visited + [m[k]], keys + [k], m, passed + {k})
  {
  }

  lemma SomeHandedOver(visited: seq<nat>, keys: seq<nat>, m: map<nat, nat>, passed: set<nat>)
    requires HandedOver(visited, keys, m, passed)
    ensures |visited| == |keys| && (forall i, j :: 0 <= i < j < |keys| ==> keys[i] != keys[j])
    ensures forall i :: 0 <= i < |keys| ==> keys[i] in m && visited[i] == m[keys[i]]
  {
  }

  lemma AllHandedOver(visited: seq<nat>, keys: seq<nat>, m: map<nat, nat>)
    requires HandedOver(visited, keys, m, m.Keys)
    ensures (set k | k in keys) == m.Keys
    ensures |visited| == |m.Keys| && forall k :: k in m ==> m[k] in visited
  {
    forall k | k in m ensures m[k] in visited {
      var i :| 0 <= i < |keys| && keys[i] == k;
      assert visited[i] == m[k];
    }
  }

  ghost predicate Sound(m: map<nat, nat>) {
    forall k :: k in m ==> FirstWord(k) != 0 && m[k] != 0
  }

  /** The entries once `key` is set; an empty `data` removes it. */
  ghost function After(m: map<nat, nat>, key: nat, data: nat): map<nat, nat> {
    if data == 0 then m - {key} else m[key := data]
  }

  lemma AfterFacts(m: map<nat, nat>, key: nat, data: nat)
    requires Sound(m) && FirstWord(key) != 0
    ensures Sound(After(m, key, data)) && After(m, key, data) - {key} == m - {key}
  {
    hide FirstWord;
  }

  lemma SetIs(m: map<nat, nat>, key: nat, data: nat)
    requires data != 0
    ensures After(m, key, data) == m[key := data]
  {
  }

  lemma RemoveIs(m: map<nat, nat>, key: nat)
    ensures After(m, key, 0) == m - {key}
  {
  }

  lemma NotThere(m: map<nat, nat>, key: nat)
    requires key !in m
    ensures m - {key} == m
  {
  }

  lemma EntrySound(m: map<nat, nat>, key: nat)
    requires Sound(m)
    ensures key in m ==> FirstWord(key) != 0 && m[key] != 0
  {
  }

  lemma SetSize(m: map<nat, nat>, key: nat, data: nat)
    requires data != 0
    ensures |After(m, key, data).Keys| == |m.Keys| + if key in m then 0 else 1
  {
    assert m[key := data].Keys == m.Keys + {key};
  }

  lemma RemovedSize(m: map<nat, nat>, key: nat)
    requires key in m
    ensures |After(m, key, 0).Keys| == |m.Keys| - 1
  {
    assert (m - {key}).Keys == m.Keys - {key};
  }

  /** ina_hashtable_t; `contents` is the finite map it stands for. */
  class HashTable {
    const capacity: nat
    const hash: nat -> nat
    const buckets: array<Bucket>
    var count: int
    /** The finite map the table stands for. */
    ghost var contents: map<nat, nat>
    /** How many entries the counter has missed. */
    ghost var uncounted: nat

    function Index(key: nat): nat
      requires capacity > 0
    {
      hash(key) % capacity
    }

    /** A bucket fit for index `h`: its keys hash to it, and it finds exactly the entries of `m` that
        do. */
    ghost predicate Agrees(b: Bucket, h: nat, m: map<nat, nat>)
      requires 0 < capacity
    {
      && BucketValid(b)
      && (forall i :: 0 <= i < b.count ==> Index(b.nodes[i].key) == h)
      && (forall k {:trigger Look(b.nodes, b.count, k)} :: Index(k) == h ==>
            Look(b.nodes, b.count, k) == if k in m then m[k] else 0)
    }

    ghost predicate Valid()
      reads this, buckets
    {
      && 0 < capacity && buckets.Length == capacity + 1
      && (forall h {:trigger buckets[h]} :: 0 <= h < capacity ==> Agrees(buckets[h], h, contents))
      && Sound(contents)
      && count + uncounted == |contents.Keys|
    }

    /** ina_hashtable_new; `preallocated` gives every bucket its first 32 slots at once. */
    constructor (capacity: nat, hash: nat -> nat, preallocated: bool)
      ensures Valid() && contents == map[] && fresh(buckets)
      ensures this.capacity == (if capacity > 0 then capacity else 256) && this.hash == hash && count == uncounted == 0
      ensures forall k :: !HasSlot(k)
    {
      var cap := if capacity > 0 then capacity else 256;
      var empty := if preallocated then Bucket(seq(BUCKET_SIZE + 1, _ => Slot(0, 0)), 0, BUCKET_SIZE, 0, 0)
                   else Bucket([], 0, 0, 0, 0);
      this.capacity := cap;
      this.hash := hash;
      buckets := new Bucket[cap + 1](_ => empty);
      count, uncounted := 0, 0;
      contents := map[];
    }

    lemma AgreesElsewhere(b: Bucket, g: nat, m: map<nat, nat>, m': map<nat, nat>, key: nat)
      requires 0 < capacity && Agrees(b, g, m) && Index(key) != g
      requires m' - {key} == m - {key}
      ensures Agrees(b, g, m')
    {
      forall k | Index(k) == g
        ensures Look(b.nodes, b.count, k) == if k in m' then m'[k] else 0
      {
        assert k in m' <==> k in m' - {key};
        assert k in m <==> k in m - {key};
      }
    }

    lemma AgreesWritten(b: Bucket, h: nat, m: map<nat, nat>, m': map<nat, nat>, i: nat, key: nat, data: nat)
      requires 0 < capacity && Agrees(b, h, m) && Index(key) == h && FirstWord(key) != 0
      requires i <= b.count < |b.nodes| && (i == b.count ==> b.count < b.max)
      requires i < b.count && b.nodes[i].key != key ==> b.nodes[i].data == 0
      requires forall j :: 0 <= j < b.count && j != i ==> b.nodes[j].key != key
      requires m' == After(m, key, data)
      ensures Agrees(Written(b, i, Slot(key, data)), h, m')
    {
      var b' := Written(b, i, Slot(key, data));
      WrittenValid(b, i, Slot(key, data));
      forall k | Index(k) == h
        ensures Look(b'.nodes, b'.count, k) == if k in m' then m'[k] else 0
      {
        if k != key {
          WrittenOther(b, i, Slot(key, data), k);
        }
      }
      assert forall j :: 0 <= j < b'.count && j != i ==> b'.nodes[j] == b.nodes[j];
    }

    lemma AgreesGrown(b: Bucket, h: nat, m: map<nat, nat>)
      requires 0 < capacity && Agrees(b, h, m)
      ensures Agrees(Grown(b), h, m)
    {
      forall k | Index(k) == h
        ensures Look(Grown(b).nodes, b.count, k) == if k in m then m[k] else 0
      {
        LookPrefix(b.nodes, Grown(b).nodes, b.count, k);
      }
    }

    /** __ina_bucket: also records the index in the bucket. */
    method SelectBucket(key: nat) returns (h: nat)
      requires Valid()
      modifies buckets
      ensures Valid() && h == Index(key) < capacity
      ensures forall g :: 0 <= g < capacity ==> buckets[g].(hash := 0) == old(buckets[g]).(hash := 0)
      ensures forall k :: HasSlot(k) <==> old(HasSlot(k))
    {
      h := Index(key);
      buckets[h] := buckets[h].(hash := h);
    }

    /** What another bucket holds does not depend on `key`. */
    lemma OthersAgree(h: nat, before: map<nat, nat>, key: nat)
      requires 0 < capacity <= buckets.Length && h < capacity && Index(key) == h
      requires contents - {key} == before - {key}
      requires forall g :: 0 <= g < capacity && g != h ==> Agrees(buckets[g], g, before)
      requires Agrees(buckets[h], h, contents)
      ensures forall g :: 0 <= g < capacity ==> Agrees(buckets[g], g, contents)
    {
      hide Agrees;
      forall g | 0 <= g < capacity ensures Agrees(buckets[g], g, contents) {
        if g != h {
          AgreesElsewhere(buckets[g], g, before, contents, key);
        }
      }
    }

    /** `key` lies in a slot, live or removed. */
    ghost predicate HasSlot(key: nat)
      requires Valid()
      reads this, buckets
    {
      SlotIn(buckets[Index(key)].nodes, buckets[Index(key)].count, key)
    }

    /** The bucket of a key, with room for one more entry. */
    method GrowBucket(key: nat) returns (h: nat)
      requires Valid()
      modifies buckets
      ensures Valid() && h == Index(key) < capacity && buckets[h].count < buckets[h].max
      ensures forall k :: HasSlot(k) <==> old(HasSlot(k))
      ensures Offers(key) <==> old(Offers(key))
    {
      hide Agrees, SlotIn;
      h := SelectBucket(key);
      AgreesValid(buckets[h], h, contents);
      if buckets[h].max - buckets[h].count == 0 {
        AgreesGrown(buckets[h], h, contents);
        buckets[h] := Grown(buckets[h]);
      }
      AgreesValid(buckets[h], h, contents);
    }

    /** Slot `i` of a bucket is written for `key`; an empty `data` removes the entry. */
    lemma AgreesRewritten(b: Bucket, b': Bucket, h: nat, i: nat, key: nat, data: nat, m: map<nat, nat>, m': map<nat, nat>)
      requires 0 < capacity && h == Index(key) && FirstWord(key) != 0
      requires Agrees(b, h, m) && i <= b.count < |b.nodes| && (i == b.count ==> b.count < b.max)
      requires i < b.count && b.nodes[i].key != key ==> b.nodes[i].data == 0
      requires forall j :: 0 <= j < b.count && j != i ==> b.nodes[j].key != key
      requires m' == After(m, key, data)
      requires b' == Written(b, i, Slot(key, data)).(free := b'.free)
      ensures Agrees(b', h, m') && SlotIn(b'.nodes, b'.count, key)
    {
      hide Agrees, Written, SlotIn, FirstWord;
      AgreesWritten(b, h, m, m', i, key, data);
      AgreesFree(Written(b, i, Slot(key, data)), h, m', b'.free);
      WrittenHasSlot(b, i, key, data);
    }

    /** The bucket of `key` has been rewritten to agree with the map `m`. */
    ghost method Become(h: nat, key: nat, m: map<nat, nat>, missed: nat)
      requires 0 < capacity && buckets.Length == capacity + 1 && h == Index(key) < capacity
      requires Agrees(buckets[h], h, m) && SlotIn(buckets[h].nodes, buckets[h].count, key)
      requires forall g :: 0 <= g < capacity && g != h ==> Agrees(buckets[g], g, contents)
      requires m - {key} == contents - {key} && count + missed == |m.Keys|
      requires Sound(m)
      modifies this`contents, this`uncounted
      ensures Valid() && HasSlot(key) && uncounted == missed && contents == m
    {
      hide Agrees, SlotIn, Sound;
      ghost var was := contents;
      contents, uncounted := m, missed;
      OthersAgree(h, was, key);
    }

    lemma WrittenHasSlot(b: Bucket, i: nat, key: nat, data: nat)
      requires i <= b.count < |b.nodes|
      ensures var w := Written(b, i, Slot(key, data)); SlotIn(w.nodes, w.count, key)
    {
      assert Written(b, i, Slot(key, data)).nodes[i].key == key;
    }

    /** Whether a set of `key` finds a removed slot to take over. */
    ghost predicate Offers(key: nat)
      requires Valid()
      reads this, buckets
    {
      exists k :: Index(k) == Index(key) && HasSlot(k) && k !in contents
    }

    /** The slots of a bucket after one of them was written. */
    twostate lemma SlotsWritten(new h: nat, new b: Bucket, new i: nat, new slot: Slot, new lost: set<nat>)
      requires old(Valid()) && Valid() && h == Index(slot.key) && old(buckets[h]) == b && i <= b.count < |b.nodes|
      requires forall g :: 0 <= g < capacity && g != h ==> buckets[g] == old(buckets[g])
      requires buckets[h].nodes == Written(b, i, slot).nodes && buckets[h].count == Written(b, i, slot).count
      requires forall j :: 0 <= j < b.count && j != i ==> b.nodes[j].key != slot.key
      requires lost == if i < b.count && b.nodes[i].key != slot.key then {b.nodes[i].key} else {}
      ensures forall k :: HasSlot(k) <==> k == slot.key || (old(HasSlot(k)) && k !in lost)
    {
      assert Agrees(b, h, old(contents));
      hide Agrees, SlotIn, Written;
      AgreesValid(b, h, old(contents));
      forall k ensures HasSlot(k) <==> k == slot.key || (old(HasSlot(k)) && k !in lost) {
        if Index(k) == h {
          WrittenSlots(b, i, slot, k);
        }
        if k in lost {
          SlotIndex(b, h, old(contents), i);
        }
      }
    }

    lemma SlotIndex(b: Bucket, h: nat, m: map<nat, nat>, i: nat)
      requires 0 < capacity && Agrees(b, h, m) && i < b.count
      ensures Index(b.nodes[i].key) == h && SlotIn(b.nodes, b.count, b.nodes[i].key)
      ensures b.nodes[i].data == 0 ==> b.nodes[i].key !in m || m[b.nodes[i].key] == 0
    {
      LookAt(b.nodes, b.count, i);
    }

    /** A bucket without removed slots offers none. */
    lemma OffersNone(h: nat, key: nat)
      requires Valid() && h == Index(key) && forall j :: 0 <= j < buckets[h].count ==> buckets[h].nodes[j].data != 0
      ensures !Offers(key)
    {
      var b := buckets[h];
      assert Agrees(b, h, contents);
      forall k | Index(k) == h && HasSlot(k) ensures k in contents {
        var j :| 0 <= j < b.count && b.nodes[j].key == k;
        LookAt(b.nodes, b.count, j);
      }
    }

    /** ina_hashtable_set.  The entry counter moves only when the key had no slot, so it misses an entry
        set again while its slot still holds it.  A key without a slot takes over that of a removed key,
        if its bucket has one, and a new one otherwise; all other keys keep theirs. */
    method Set(key: nat, data: nat) returns (ghost lost: set<nat>)
      requires Valid() && FirstWord(key) != 0 && data != 0
      modifies this, buckets
      ensures Valid() && contents == old(contents)[key := data] && HasSlot(key)
      ensures count == old(count) + if old(HasSlot(key)) then 0 else 1
      ensures uncounted == old(uncounted) + if old(HasSlot(key)) && key !in old(contents) then 1 else 0
      ensures forall k :: HasSlot(k) <==> k == key || (old(HasSlot(k)) && k !in lost)
      ensures |lost| == if !old(HasSlot(key)) && old(Offers(key)) then 1 else 0
      ensures forall k :: k in lost ==> old(HasSlot(k)) && k !in old(contents) && Index(k) == Index(key) && k != key
    {
      hide Agrees, SlotIn, Written, FirstWord, Sound, After, Offers, HasSlot;
      LiveHasSlot(key);
      SetSize(contents, key, data);
      var h := GrowBucket(key);
      var b := buckets[h];
      AgreesValid(b, h, contents);
      var found, i := ScanForSet(b, key);
      HasSlotIs(h, key);
      SlotIsAlone(b, found, i, key);
      lost := LostSlot(h, found, i, key);
      WriteSlot(h, i, key, data, b.free, if found then 0 else 1, uncounted + if found && key !in contents then 1 else 0, lost);
      SetIs(old(contents), key, data);
    }

    /** Writes a slot for `key` and moves the counter; an empty `data` removes the entry. */
    method WriteSlot(h: nat, i: nat, key: nat, data: nat, free: nat, step: int, ghost missed: nat, ghost lost: set<nat>)
      requires Valid() && h == Index(key) && FirstWord(key) != 0
      requires i <= buckets[h].count < |buckets[h].nodes| && (i == buckets[h].count ==> buckets[h].count < buckets[h].max)
      requires i < buckets[h].count && buckets[h].nodes[i].key != key ==> buckets[h].nodes[i].data == 0
      requires forall j :: 0 <= j < buckets[h].count && j != i ==> buckets[h].nodes[j].key != key
      requires lost == if i < buckets[h].count && buckets[h].nodes[i].key != key then {buckets[h].nodes[i].key} else {}
      requires count + step + missed == |After(contents, key, data).Keys|
      modifies this, buckets
      ensures Valid() && contents == After(old(contents), key, data) && count == old(count) + step && uncounted == missed
      ensures HasSlot(key) && forall k :: HasSlot(k) <==> k == key || (old(HasSlot(k)) && k !in lost)
    {
      hide Agrees, SlotIn, Written, FirstWord, Sound, After, HasSlot;
      ghost var m := After(contents, key, data);
      AfterFacts(contents, key, data);
      var b := buckets[h];
      buckets[h] := Written(b, i, Slot(key, data)).(free := free);
      count := count + step;
      AgreesRewritten(b, buckets[h], h, i, key, data, contents, m);
      Become(h, key, m, missed);
      SlotsWritten(h, b, i, Slot(key, data), lost);
    }

    /** The removed key whose slot a set takes over. */
    lemma LostSlot(h: nat, found: bool, i: nat, key: nat) returns (lost: set<nat>)
      requires Valid() && h == Index(key) && i <= buckets[h].count
      requires found <==> HasSlot(key)
      requires if found then i < buckets[h].count && buckets[h].nodes[i].key == key
               else && (forall j :: 0 <= j < buckets[h].count ==> buckets[h].nodes[j].key != key)
                    && (i < buckets[h].count ==> buckets[h].nodes[i].data == 0)
                    && (i == buckets[h].count ==> forall j :: 0 <= j < buckets[h].count ==> buckets[h].nodes[j].data != 0)
      ensures lost == if i < buckets[h].count && buckets[h].nodes[i].key != key then {buckets[h].nodes[i].key} else {}
      ensures |lost| == if !HasSlot(key) && Offers(key) then 1 else 0
      ensures forall k :: k in lost ==> HasSlot(k) && k !in contents && Index(k) == h && k != key
    {
      var b := buckets[h];
      assert Agrees(b, h, contents);
      hide Agrees, SlotIn;
      if i < b.count {
        SlotIndex(b, h, contents, i);
        if !found {
          assert HasSlot(b.nodes[i].key) && b.nodes[i].key !in contents;
        }
      } else {
        OffersNone(h, key);
      }
      lost := if i < b.count && b.nodes[i].key != key then {b.nodes[i].key} else {};
    }

    lemma HasLiveSlot(h: nat, i: nat)
      requires Valid() && h < capacity && i < buckets[h].count && buckets[h].nodes[i].data != 0
      ensures HasSlot(buckets[h].nodes[i].key)
    {
      assert Agrees(buckets[h], h, contents);
    }

    lemma HasSlotIs(h: nat, key: nat)
      requires Valid() && h == Index(key)
      ensures HasSlot(key) <==> SlotIn(buckets[h].nodes, buckets[h].count, key)
    {
    }

    lemma LiveHasSlot(key: nat)
      requires Valid()
      ensures key in contents ==> HasSlot(key)
    {
      if key in contents {
        var i := EntryHasSlot(key);
      }
    }

    lemma AgreesValid(b: Bucket, h: nat, m: map<nat, nat>)
      requires 0 < capacity && Agrees(b, h, m)
      ensures BucketValid(b)
    {
    }

    lemma SlotIsAlone(b: Bucket, found: bool, i: nat, key: nat)
      requires BucketValid(b) && i <= b.count
      requires found ==> i < b.count && b.nodes[i].key == key
      requires !found ==> forall j :: 0 <= j < b.count ==> b.nodes[j].key != key
      ensures forall j :: 0 <= j < b.count && j != i ==> b.nodes[j].key != key
    {
    }

    /** ina_hashtable_get. */
    method Get(key: nat) returns (found: bool, data: nat)
      requires Valid()
      modifies buckets
      ensures Valid()
      ensures found <==> key in contents
      ensures found ==> data == contents[key]
      ensures forall k :: HasSlot(k) <==> old(HasSlot(k))
    {
      var h := SelectBucket(key);
      var b := buckets[h];
      var i;
      found, i := ScanLive(b, key);
      assert Agrees(b, h, contents);
      return found, if found then b.nodes[i].data else 0;
    }

    /** ina_hashtable_remove. */
    method Remove(key: nat) returns (found: bool, data: nat)
      requires Valid()
      modifies this, buckets
      ensures Valid() && contents == old(contents) - {key}
      ensures found <==> key in old(contents)
      ensures found ==> data == old(contents)[key]
      ensures count == old(count) - (if found then 1 else 0) && uncounted == old(uncounted)
      ensures found ==> HasSlot(key)
      ensures forall k :: HasSlot(k) <==> old(HasSlot(k))
    {
      hide Agrees, SlotIn, Written, FirstWord, Look, Sound, After, HasSlot;
      EntrySound(contents, key);
      var h := SelectBucket(key);
      var b := buckets[h];
      AgreesValid(b, h, contents);
      AgreesLook(b, h, contents, key);
      var i;
      found, i := ScanLive(b, key);
      if !found {
        NotThere(contents, key);
        return false, 0;
      }
      data := b.nodes[i].data;
      SlotIsAlone(b, true, i, key);
      RemovedSize(contents, key);
      HasLiveSlot(h, i);
      WriteSlot(h, i, key, 0, b.free + 1, -1, uncounted, {});
      RemoveIs(old(contents), key);
    }

    lemma AgreesLook(b: Bucket, h: nat, m: map<nat, nat>, key: nat)
      requires 0 < capacity && Agrees(b, h, m) && Index(key) == h
      ensures Look(b.nodes, b.count, key) == if key in m then m[key] else 0
    {
    }

    lemma AgreesFree(b: Bucket, h: nat, m: map<nat, nat>, free: nat)
      requires 0 < capacity && Agrees(b, h, m)
      ensures Agrees(b.(free := free), h, m)
    {
    }

    /** ina_hashtable_clear: the slots keep their content, only the counts are reset. */
    method Clear()
      requires Valid()
      modifies this, buckets
      ensures Valid() && contents == map[] && count == uncounted == 0
      ensures forall k :: !HasSlot(k)
    {
      hide Agrees, BucketValid;
      var h := 0;
      forall g | 0 <= g < capacity ensures BucketValid(buckets[g]) {
        AgreesValid(buckets[g], g, contents);
      }
      contents := map[];
      while h < capacity
        invariant 0 <= h <= capacity
        invariant forall g :: 0 <= g < h ==> Agrees(buckets[g], g, map[]) && buckets[g].count == 0
        invariant forall g :: h <= g < capacity ==> BucketValid(buckets[g])
        modifies buckets
      {
        ClearedAgrees(buckets[h], h);
        buckets[h] := buckets[h].(count := 0, free := 0);
        h := h + 1;
      }
      count, uncounted := 0, 0;
    }

    lemma ClearedAgrees(b: Bucket, h: nat)
      requires 0 < capacity && BucketValid(b)
      ensures Agrees(b.(count := 0, free := 0), h, map[])
    {
    }

    // ----- What a cursor at slot `node` of bucket `bucket` has passed -----

    ghost predicate Passed(bucket: nat, node: nat, k: nat)
      requires Valid()
      reads this, buckets
    {
      && k in contents
      && (Index(k) < bucket ||
          (Index(k) == bucket && exists i :: 0 <= i < node && i < buckets[bucket].count && buckets[bucket].nodes[i] == Slot(k, contents[k])))
    }

    ghost function PassedKeys(bucket: nat, node: nat): set<nat>
      requires Valid()
      reads this, buckets
    {
      set k | k in contents && Passed(bucket, node, k)
    }

    lemma SlotIsEntry(h: nat, i: nat)
      requires Valid() && h < capacity && i < buckets[h].count
      ensures var s := buckets[h].nodes[i];
              Index(s.key) == h && if s.data == 0 then s.key !in contents else s.key in contents && contents[s.key] == s.data
    {
      var b := buckets[h];
      assert Agrees(b, h, contents);
      LookAt(b.nodes, b.count, i);
    }

    lemma EntryHasSlot(k: nat) returns (i: nat)
      requires Valid() && k in contents
      ensures i < buckets[Index(k)].count && buckets[Index(k)].nodes[i] == Slot(k, contents[k])
    {
      var b := buckets[Index(k)];
      assert Agrees(b, Index(k), contents);
      i := LookFinds(b.nodes, b.count, k);
    }

    lemma PassNone()
      requires Valid()
      ensures PassedKeys(0, 0) == {}
    {
    }

    lemma PassSlot(h: nat, i: nat)
      requires Valid() && h < capacity && i < buckets[h].count
      ensures var s := buckets[h].nodes[i];
              if s.data == 0 then PassedKeys(h, i + 1) == PassedKeys(h, i)
              else s.key !in PassedKeys(h, i) && PassedKeys(h, i + 1) == PassedKeys(h, i) + {s.key}
    {
      var b, s := buckets[h], buckets[h].nodes[i];
      SlotIsEntry(h, i);
      forall k | k in contents ensures Passed(h, i + 1, k) <==> Passed(h, i, k) || (s.data != 0 && k == s.key) {
        if Index(k) == h && b.nodes[i] == Slot(k, contents[k]) {
          assert Passed(h, i + 1, k);
        }
      }
      if s.data != 0 {
        assert Agrees(b, h, contents);
        assert !Passed(h, i, s.key);
      }
    }

    lemma PassBucket(h: nat, i: nat)
      requires Valid() && h < capacity && i >= buckets[h].count
      ensures PassedKeys(h + 1, 0) == PassedKeys(h, i)
    {
      forall k | k in contents && Index(k) == h ensures Passed(h, i, k) {
        var j := EntryHasSlot(k);
      }
    }

    lemma PassAll(h: nat, i: nat)
      requires Valid() && h >= capacity
      ensures PassedKeys(h, i) == contents.Keys
    {
    }

    /** ina_hashtable_foreach: the data in the order it is handed over, each entry at most once, up to
        the first the callback does not accept; every entry if it accepts all. */
    method Foreach(accepts: nat -> bool) returns (ok: bool, visited: seq<nat>, ghost keys: seq<nat>)
      requires Valid()
      ensures |visited| == |keys| && (forall i, j :: 0 <= i < j < |keys| ==> keys[i] != keys[j])
      ensures forall i :: 0 <= i < |keys| ==> keys[i] in contents && visited[i] == contents[keys[i]]
      ensures if ok then forall v :: v in visited ==> accepts(v)
              else visited != [] && !accepts(visited[|visited| - 1]) && forall v :: v in visited[..|visited| - 1] ==> accepts(v)
      ensures ok ==> (set k | k in keys) == contents.Keys
      ensures ok ==> |visited| == |contents.Keys| && forall k :: k in contents ==> contents[k] in visited
    {
      hide HandedOver, Passed, PassedKeys, Look;
      visited, keys := [], [];
      var h := 0;
      PassNone();
      NoneHandedOver(contents);
      while h < capacity
        invariant 0 <= h <= capacity && HandedOver(visited, keys, contents, PassedKeys(h, 0))
        invariant forall v :: v in visited ==> accepts(v)
      {
        var i := 0;
        assert Agrees(buckets[h], h, contents);
        while i < buckets[h].count
          invariant 0 <= i && HandedOver(visited, keys, contents, PassedKeys(h, i))
          invariant forall v :: v in visited ==> accepts(v)
          decreases buckets[h].count - i
        {
          PassSlot(h, i);
          SlotIsEntry(h, i);
          var s := buckets[h].nodes[i];
          if s.data != 0 {
            HandOver(visited, keys, contents, PassedKeys(h, i), s.key);
            ghost var before := visited;
            visited, keys := visited + [s.data], keys + [s.key];
            if !accepts(s.data) {
              SomeHandedOver(visited, keys, contents, PassedKeys(h, i) + {s.key});
              assert visited[..|visited| - 1] == before;
              return false, visited, keys;
            }
          }
          i := i + 1;
        }
        PassBucket(h, i);
        h := h + 1;
      }
      PassAll(h, 0);
      SomeHandedOver(visited, keys, contents, contents.Keys);
      AllHandedOver(visited, keys, contents);
      ok := true;
    }
  }

  // ----- Iteration -----

  /** ina_hashtable_iter_t: a cursor, and the entry counter it expects to see again. */
  class Iterator {
    const table: HashTable
    var bucket: nat
    var node: nat
    var checksum: int

    /** The keys the cursor has passed. */
    ghost function Seen(): set<nat>
      requires table.Valid()
      reads this, table, table.buckets
    {
      table.PassedKeys(bucket, node)
    }

    /** ina_hashtable_iter_new. */
    constructor (table: HashTable)
      requires table.Valid()
      ensures this.table == table && table.Valid() && Seen() == {} && checksum == table.count
    {
      this.table := table;
      bucket, node, checksum := 0, 0, table.count;
      table.PassNone();
    }

    /** ina_hashtable_iter_reset. */
    method Reset()
      requires table.Valid()
      modifies this
      ensures table.Valid() && Seen() == {} && checksum == table.count
    {
      bucket, node, checksum := 0, 0, table.count;
      table.PassNone();
    }

    /** The inner loop: the next entry of the cursor's bucket, if there is one. */
    method NextInBucket() returns (found: bool, data: nat, ghost key: nat)
      requires table.Valid() && bucket < table.capacity
      modifies this`node
      ensures found ==> && key in table.contents && table.contents[key] == data
                        && key !in old(Seen()) && Seen() == old(Seen()) + {key}
      ensures !found ==> Seen() == old(Seen()) && node >= table.buckets[bucket].count
    {
      hide HashTable.Passed, HashTable.PassedKeys, HashTable.Agrees, Look, BucketValid;
      while node < table.buckets[bucket].count
        invariant Seen() == old(Seen())
        decreases table.buckets[bucket].count - node
      {
        table.PassSlot(bucket, node);
        table.AgreesValid(table.buckets[bucket], bucket, table.contents);
        var s := table.buckets[bucket].nodes[node];
        if s.data != 0 {
          table.SlotIsEntry(bucket, node);
          node := node + 1;
          return true, s.data, s.key;
        }
        node := node + 1;
      }
      return false, 0, 0;
    }

    /** ina_hashtable_iter_next: an entry not passed before, which the cursor then passes; or the end,
        when every entry has been passed.  So every entry is yielded exactly once. */
    method Next() returns (valid: bool, more: bool, data: nat, ghost key: nat)
      requires table.Valid()
      modifies this
      ensures table.Valid() && checksum == old(checksum)
      ensures valid <==> checksum == table.count
      ensures !valid ==> Seen() == old(Seen())
      ensures valid && more ==> && key in table.contents && table.contents[key] == data
                                && key !in old(Seen()) && Seen() == old(Seen()) + {key}
      ensures valid && !more ==> Seen() == old(Seen()) == table.contents.Keys
    {
      hide HashTable.Passed, HashTable.PassedKeys, HashTable.Valid;
      data, key := 0, 0;
      if checksum != table.count {
        return false, false, data, key;
      }
      while bucket < table.capacity
        invariant table.Valid() && Seen() == old(Seen()) && checksum == old(checksum)
        decreases table.capacity - bucket
      {
        more, data, key := NextInBucket();
        if more {
          return true, true, data, key;
        }
        table.PassBucket(bucket, node);
        bucket, node := bucket + 1, 0;
      }
      table.PassAll(bucket, node);
      return true, false, 0, key;
    }
  }

  /** Setting, removing and setting one key again: one entry, and a counter of 0.  After any run the
      counter is the number of entries if and only if `uncounted` is 0. */
  method Recount(hash: nat -> nat, key: nat, data: nat) returns (table: HashTable)
    requires FirstWord(key) != 0 && data != 0
    ensures fresh(table) && table.Valid() && table.contents == map[key := data] && table.count == 0 && table.uncounted == 1
  {
    table := new HashTable(0, hash, false);
    ghost var lost := table.Set(key, data);
    var found, removed := table.Remove(key);
    lost := table.Set(key, data);
    assert table.contents == map[key := data];
  }

  /** When another key takes over the slot in between, the same key is counted again. */
  method CountedAgain(key: nat, other: nat, data: nat) returns (table: HashTable)
    requires FirstWord(key) != 0 && FirstWord(other) != 0 && data != 0 && key != other
    ensures fresh(table) && table.Valid() && table.contents == map[key := data, other := data] && table.count == 2
  {
    hide *;
    table := new HashTable(1, k => k, false);
    ghost var lost := table.Set(key, data);
    var found, removed := table.Remove(key);
    OneBucket(table, key, other);
    lost := table.Set(other, data);
    OnlyOne(lost, key);
    lost := table.Set(key, data);
  }

  lemma OnlyOne(lost: set<nat>, key: nat)
    requires |lost| == 1 && forall k :: k in lost ==> k == key
    ensures lost == {key}
  {
    var k :| k in lost;
    assert lost == {k} + (lost - {k});
  }

  lemma OneBucket(table: HashTable, key: nat, other: nat)
    requires table.Valid() && table.capacity == 1 && table.HasSlot(key) && key !in table.contents
    ensures table.Offers(other)
  {
  }
}
