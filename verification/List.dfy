/** The doubly linked list of src/list.c: building, removing, joining, and the in-place mergesort. */
module List {

  /** ina_list_node_t.  No list operation writes `data`. */
  class Node {
    var next: Node?
    var prev: Node?
    const data: int

    constructor (data: int)
      ensures this.data == data && next == null && prev == null
    {
      this.data := data;
      next, prev := null, null;
    }
  }

  // ----- Chains -----

  ghost predicate Distinct(nodes: seq<Node>) {
    forall i, j :: 0 <= i < j < |nodes| ==> nodes[i] != nodes[j]
  }

  ghost function First(nodes: seq<Node>): Node? {
    if nodes == [] then null else nodes[0]
  }

  ghost function Following(nodes: seq<Node>, i: nat): Node?
    requires i < |nodes|
  {
    if i + 1 < |nodes| then nodes[i + 1] else null
  }

  /** `nodes` are exactly the nodes met by following `next` from `head` to null. */
  ghost predicate Chain(head: Node?, nodes: seq<Node>)
    reads nodes
  {
    && Distinct(nodes)
    && head == First(nodes)
    && forall i {:trigger nodes[i].next} :: 0 <= i < |nodes| ==> nodes[i].next == Following(nodes, i)
  }

  /** `prev` undoes `next` on every node but the first. */
  ghost predicate BackLinked(nodes: seq<Node>)
    reads nodes
  {
    forall i {:trigger nodes[i].prev} :: 0 < i < |nodes| ==> nodes[i].prev == nodes[i - 1]
  }

  /** A comparison callback: its sign is antisymmetric and "not greater" is transitive.  Together these
      say that it is a total preorder. */
  ghost predicate Preorder(compare: (int, int) -> int) {
    && (forall a, b :: compare(a, b) < 0 <==> compare(b, a) > 0)
    && (forall a, b, c :: compare(a, b) <= 0 && compare(b, c) <= 0 ==> compare(a, c) <= 0)
  }

  // ----- The sort on sequences -----

  function Merged(compare: (int, int) -> int, a: seq<Node>, b: seq<Node>): seq<Node> {
    if a == [] then b
    else if b == [] then a
    else if compare(a[0].data, b[0].data) < 0 then [a[0]] + Merged(compare, a[1..], b)
    else [b[0]] + Merged(compare, a, b[1..])
  }

  /** Where the split loop cuts: the first half is the longer one. */
  function Half(n: nat): nat {
    (n + 1) / 2
  }

  function Sorted(compare: (int, int) -> int, s: seq<Node>): seq<Node>
    decreases |s|
  {
    if |s| <= 1 then s
    else Merged(compare, Sorted(compare, s[..Half(|s|)]), Sorted(compare, s[Half(|s|)..]))
  }

  ghost predicate InOrder(compare: (int, int) -> int, s: seq<Node>) {
    forall i, j :: 0 <= i < j < |s| ==> compare(s[i].data, s[j].data) <= 0
  }

  lemma FirstAndRest(s: seq<Node>)
    requires s != []
    ensures multiset(s) == multiset([s[0]]) + multiset(s[1..])
  {
    assert s == [s[0]] + s[1..];
  }

  lemma InFrontSame(x: Node, s: seq<Node>)
    ensures multiset([x] + s) == multiset([x]) + multiset(s)
  {
  }

  lemma {:induction false} MergedSame(compare: (int, int) -> int, a: seq<Node>, b: seq<Node>)
    ensures multiset(Merged(compare, a, b)) == multiset(a) + multiset(b)
    ensures |Merged(compare, a, b)| == |a| + |b|
  {
    if a != [] && b != [] {
      if compare(a[0].data, b[0].data) < 0 {
        MergedSame(compare, a[1..], b);
        FirstAndRest(a);
        InFrontSame(a[0], Merged(compare, a[1..], b));
      } else {
        MergedSame(compare, a, b[1..]);
        FirstAndRest(b);
        InFrontSame(b[0], Merged(compare, a, b[1..]));
      }
    }
  }

  lemma {:induction false} SortedSame(compare: (int, int) -> int, s: seq<Node>)
    ensures multiset(Sorted(compare, s)) == multiset(s)
    ensures |Sorted(compare, s)| == |s|
    decreases |s|
  {
    if |s| > 1 {
      var h := Half(|s|);
      SortedSame(compare, s[..h]);
      SortedSame(compare, s[h..]);
      MergedSame(compare, Sorted(compare, s[..h]), Sorted(compare, s[h..]));
      assert s == s[..h] + s[h..];
    }
  }

  ghost predicate NotAbove(compare: (int, int) -> int, first: Node, s: seq<Node>) {
    forall x :: x in s ==> compare(first.data, x.data) <= 0
  }

  lemma FirstNotAbove(compare: (int, int) -> int, first: Node, s: seq<Node>)
    requires Preorder(compare) && InOrder(compare, s)
    requires s != [] && compare(first.data, s[0].data) <= 0
    ensures NotAbove(compare, first, s)
  {
    forall x | x in s ensures compare(first.data, x.data) <= 0 {
      assert x == s[0] || compare(s[0].data, x.data) <= 0;
    }
  }

  lemma InFront(compare: (int, int) -> int, first: Node, s: seq<Node>)
    requires NotAbove(compare, first, s) && InOrder(compare, s)
    ensures InOrder(compare, [first] + s)
  {
  }

  lemma NotAboveRest(compare: (int, int) -> int, first: Node, a: seq<Node>, b: seq<Node>, i: nat, j: nat)
    requires NotAbove(compare, first, a) && NotAbove(compare, first, b) && i <= |a| && j <= |b|
    ensures NotAbove(compare, first, Merged(compare, a[i..], b[j..]))
  {
    forall x | x in Merged(compare, a[i..], b[j..]) ensures compare(first.data, x.data) <= 0 {
      MergedMember(compare, a[i..], b[j..], x);
    }
  }

  lemma {:induction false} MergedInOrder(compare: (int, int) -> int, a: seq<Node>, b: seq<Node>)
    requires Preorder(compare) && InOrder(compare, a) && InOrder(compare, b)
    ensures InOrder(compare, Merged(compare, a, b))
  {
    if a != [] && b != [] {
      var aFirst := compare(a[0].data, b[0].data) < 0;
      var first := if aFirst then a[0] else b[0];
      var a', b' := if aFirst then a[1..] else a, if aFirst then b else b[1..];
      assert compare(a[0].data, a[0].data) <= 0 && compare(b[0].data, b[0].data) <= 0;
      FirstNotAbove(compare, first, a);
      FirstNotAbove(compare, first, b);
      MergedInOrder(compare, a', b');
      NotAboveRest(compare, first, a, b, if aFirst then 1 else 0, if aFirst then 0 else 1);
      InFront(compare, first, Merged(compare, a', b'));
    }
  }

  lemma MergedMember(compare: (int, int) -> int, a: seq<Node>, b: seq<Node>, x: Node)
    requires x in Merged(compare, a, b)
    ensures x in a || x in b
  {
    MergedSame(compare, a, b);
    assert x in multiset(Merged(compare, a, b));
  }

  lemma {:induction false} SortedInOrder(compare: (int, int) -> int, s: seq<Node>)
    requires Preorder(compare)
    ensures InOrder(compare, Sorted(compare, s))
    decreases |s|
  {
    if |s| > 1 {
      var h := Half(|s|);
      SortedInOrder(compare, s[..h]);
      SortedInOrder(compare, s[h..]);
      MergedInOrder(compare, Sorted(compare, s[..h]), Sorted(compare, s[h..]));
    }
  }

  function Reversed(s: seq<Node>): seq<Node> {
    if s == [] then [] else Reversed(s[1..]) + [s[0]]
  }

  ghost predicate AllTies(compare: (int, int) -> int, s: seq<Node>) {
    forall x, y :: x in s && y in s ==> compare(x.data, y.data) == 0
  }

  lemma {:induction false} MergedTies(compare: (int, int) -> int, a: seq<Node>, b: seq<Node>)
    requires AllTies(compare, a + b)
    ensures Merged(compare, a, b) == b + a
  {
    if a == [] {
      assert b + a == b;
    } else if b != [] {
      assert a[0] in a + b && b[0] in a + b;
      assert forall x :: x in a + b[1..] ==> x in a + b;
      MergedTies(compare, a, b[1..]);
      assert [b[0]] + (b[1..] + a) == b + a;
    }
  }

  lemma {:induction false} ReversedJoin(a: seq<Node>, b: seq<Node>)
    ensures Reversed(a + b) == Reversed(b) + Reversed(a)
  {
    if a == [] {
      assert a + b == b;
    } else {
      assert (a + b)[1..] == a[1..] + b;
      ReversedJoin(a[1..], b);
    }
  }

  /** The sort is not stable: nodes that compare equal come out in the opposite order. */
  lemma {:induction false} TiesReversed(compare: (int, int) -> int, s: seq<Node>)
    requires AllTies(compare, s)
    ensures Sorted(compare, s) == Reversed(s)
    decreases |s|
  {
    if |s| == 1 {
      assert Reversed(s) == [] + [s[0]] == s;
    } else if |s| > 1 {
      var a, b := s[..Half(|s|)], s[Half(|s|)..];
      assert s == a + b;
      TiesReversed(compare, a);
      TiesReversed(compare, b);
      ReversedSame(a);
      ReversedSame(b);
      MergedTies(compare, Reversed(a), Reversed(b));
      ReversedJoin(a, b);
    }
  }

  lemma {:induction false} ReversedSame(s: seq<Node>)
    ensures forall x :: x in Reversed(s) ==> x in s
  {
    if s != [] {
      ReversedSame(s[1..]);
    }
  }

  // ----- The sort in place -----

  lemma SlowIsHalf(i: nat, n: nat)
    requires 2 * i < n <= 2 * i + 2
    ensures i + 1 == Half(n)
  {
  }

  /** __ina_split: cuts a chain in two; the fast pointer takes two steps for each of the slow one. */
  method Split(head: Node, ghost nodes: seq<Node>) returns (second: Node?)
    requires Chain(head, nodes)
    modifies nodes
    ensures Chain(head, nodes[..Half(|nodes|)]) && Chain(second, nodes[Half(|nodes|)..])
    ensures forall n :: n in nodes ==> n.prev == old(n.prev)
  {
    var fast, slow := head, head;
    ghost var i := 0;
    while fast.next != null && fast.next.next != null
      invariant 2 * i < |nodes| && fast == nodes[2 * i] && slow == nodes[i]
      decreases |nodes| - i
    {
      fast := fast.next.next;
      slow := slow.next;
      i := i + 1;
    }
    hide Half;
    ghost var h := i + 1;
    assert h == Half(|nodes|) by {
      SlowIsHalf(i, |nodes|);
    }
    second := slow.next;
    slow.next := null;
    CutChains(nodes, h, second);
  }

  /** The three assignments that put `first` in front of an already merged rest. */
  method LinkFront(first: Node, rest: Node?, ghost tail: seq<Node>)
    requires rest != null && Chain(rest, tail) && BackLinked(tail) && first !in tail
    modifies first, rest
    ensures Chain(first, [first] + tail) && BackLinked([first] + tail) && first.prev == null
  {
    first.next := rest;
    first.next.prev := first;
    first.prev := null;
  }

  /** __ina_merge: ties go to the second chain. */
  method Merge(first: Node?, second: Node?, compare: (int, int) -> int, ghost a: seq<Node>, ghost b: seq<Node>)
    returns (r: Node?)
    requires Chain(first, a) && Chain(second, b) && BackLinked(a) && BackLinked(b)
    requires forall x :: x in a ==> x !in b
    modifies a, b
    ensures Chain(r, Merged(compare, a, b)) && BackLinked(Merged(compare, a, b))
    ensures a != [] && b != [] ==> r != null && r.prev == null
    decreases |a| + |b|
  {
    if first == null {
      return second;
    }
    if second == null {
      return first;
    }
    if compare(first.data, second.data) < 0 {
      TailChain(first, a);
      var rest := Merge(first.next, second, compare, a[1..], b);
      MergedSame(compare, a[1..], b);
      NotMerged(compare, a[1..], b, first);
      LinkFront(first, rest, Merged(compare, a[1..], b));
      return first;
    } else {
      TailChain(second, b);
      var rest := Merge(first, second.next, compare, a, b[1..]);
      MergedSame(compare, a, b[1..]);
      NotMerged(compare, a, b[1..], second);
      LinkFront(second, rest, Merged(compare, a, b[1..]));
      return second;
    }
  }

  lemma TailChain(head: Node, nodes: seq<Node>)
    requires Chain(head, nodes) && BackLinked(nodes)
    ensures nodes != [] && Chain(head.next, nodes[1..]) && BackLinked(nodes[1..]) && head !in nodes[1..]
  {
  }

  lemma NotMerged(compare: (int, int) -> int, a: seq<Node>, b: seq<Node>, x: Node)
    requires x !in a && x !in b
    ensures x !in Merged(compare, a, b)
  {
    if x in Merged(compare, a, b) {
      MergedMember(compare, a, b, x);
    }
  }

  /** __ina_mergesort. */
  method MergeSort(head: Node?, compare: (int, int) -> int, ghost nodes: seq<Node>) returns (r: Node?)
    requires Chain(head, nodes)
    modifies nodes
    ensures Chain(r, Sorted(compare, nodes)) && BackLinked(Sorted(compare, nodes))
    ensures |nodes| >= 2 ==> r != null && r.prev == null
    ensures |nodes| <= 1 ==> r == head && forall n :: n in nodes ==> n.prev == old(n.prev)
    decreases |nodes|
  {
    hide Sorted, Merged, Half;
    if head == null || head.next == null {
      ShortIsSorted(compare, nodes);
      return head;
    }
    SortedSplits(compare, nodes);
    ghost var h := Half(|nodes|);
    ghost var a, b := nodes[..h], nodes[h..];
    ghost var sa, sb := Sorted(compare, a), Sorted(compare, b);
    SortedApart(compare, nodes, h);
    var second := Split(head, nodes);
    var first := MergeSort(head, compare, a);
    second := MergeSort(second, compare, b);
    r := Merge(first, second, compare, sa, sb);
  }

  lemma ShortIsSorted(compare: (int, int) -> int, nodes: seq<Node>)
    requires |nodes| <= 1
    ensures Sorted(compare, nodes) == nodes
  {
  }

  lemma SortedSplits(compare: (int, int) -> int, nodes: seq<Node>)
    requires |nodes| >= 2
    ensures var h := Half(|nodes|);
            && 1 <= h < |nodes|
            && Sorted(compare, nodes) == Merged(compare, Sorted(compare, nodes[..h]), Sorted(compare, nodes[h..]))
  {
  }

  lemma SortedMembers(compare: (int, int) -> int, s: seq<Node>)
    ensures forall x :: x in Sorted(compare, s) ==> x in s
    ensures |Sorted(compare, s)| == |s|
  {
    SortedSame(compare, s);
    forall x | x in Sorted(compare, s) ensures x in s {
      assert x in multiset(Sorted(compare, s));
    }
  }

  lemma SortedApart(compare: (int, int) -> int, nodes: seq<Node>, h: nat)
    requires Distinct(nodes) && h <= |nodes|
    ensures var a, b := nodes[..h], nodes[h..];
            var sa, sb := Sorted(compare, a), Sorted(compare, b);
            && |sa| == |a| && |sb| == |b|
            && (forall x :: x in a ==> x in nodes && x !in b) && (forall x :: x in b ==> x in nodes)
            && (forall i :: 0 <= i < |sa| ==> sa[i] in a) && (forall i :: 0 <= i < |sb| ==> sb[i] in b)
  {
    hide Sorted;
    HalvesApart(nodes, h);
    SortedMembers(compare, nodes[..h]);
    SortedMembers(compare, nodes[h..]);
  }

  lemma HalvesApart(nodes: seq<Node>, h: nat)
    requires Distinct(nodes) && h <= |nodes|
    ensures forall x :: x in nodes[..h] ==> x in nodes && x !in nodes[h..]
    ensures forall x :: x in nodes[h..] ==> x in nodes
  {
  }

  lemma DistinctLast(a: seq<Node>)
    requires Distinct(a)
    ensures forall i :: 0 <= i < |a| - 1 ==> a[i] != a[|a| - 1]
  {
  }

  lemma DistinctJoin(a: seq<Node>, b: seq<Node>)
    requires Distinct(a) && Distinct(b) && forall x :: x in a ==> x !in b
    ensures Distinct(a + b)
  {
    var c := a + b;
    forall i, j | 0 <= i < j < |c| ensures c[i] != c[j] {
      assert c[i] == if i < |a| then a[i] else b[i - |a|];
      assert c[j] == if j < |a| then a[j] else b[j - |a|];
      assert i < |a| <= j ==> a[i] in a && b[j - |a|] in b;
    }
  }

  // ----- The list -----

  /** The four assignments of ina_list_concat that tie two non-empty lists together. */
  method JoinChains(head: Node, srcHead: Node, ghost a: seq<Node>, ghost b: seq<Node>)
    requires Chain(head, a) && BackLinked(a) && a[0].prev == a[|a| - 1]
    requires Chain(srcHead, b) && BackLinked(b) && b[0].prev == b[|b| - 1]
    requires forall x :: x in a ==> x !in b
    modifies a, b
    ensures Chain(head, a + b) && BackLinked(a + b) && a[0].prev == b[|b| - 1]
  {
    hide Distinct;
    DistinctJoin(a, b);
    DistinctLast(a);
    var destTail := head.prev;
    assert destTail in a && srcHead in b;
    head.prev := srcHead.prev;
    srcHead.prev := destTail;
    destTail.next := srcHead;
    ghost var c := a + b;
    forall i | 0 <= i < |c| ensures c[i].next == Following(c, i) {
      assert c[i] == if i < |a| then a[i] else b[i - |a|];
      assert i + 1 < |c| ==> c[i + 1] == if i + 1 < |a| then a[i + 1] else b[i + 1 - |a|];
      assert i >= |a| ==> b[i - |a|] in b;
    }
    DistinctFirst(a);
    DistinctFirst(b);
    forall i | 0 < i < |c| ensures c[i].prev == c[i - 1] {
      assert c[i] == if i < |a| then a[i] else b[i - |a|];
      assert c[i - 1] == if i - 1 < |a| then a[i - 1] else b[i - 1 - |a|];
    }
  }

  lemma DistinctFirst(a: seq<Node>)
    requires Distinct(a)
    ensures forall i :: 0 < i < |a| ==> a[i] != a[0]
  {
  }

  /** What Remove needs to know about the nodes around the one it takes out. */
  lemma DistinctCut(nodes: seq<Node>, k: nat)
    requires Distinct(nodes) && k < |nodes|
    ensures Distinct(nodes[..k] + nodes[k + 1..])
    ensures forall i :: 0 <= i < |nodes| && i != k ==> nodes[i] != nodes[k]
    ensures k > 0 ==> forall i :: 0 <= i < |nodes| && i != k - 1 ==> nodes[i] != nodes[k - 1]
    ensures k + 1 < |nodes| ==> forall i :: 0 <= i < |nodes| && i != k + 1 ==> nodes[i] != nodes[k + 1]
    ensures forall i :: 0 < i < |nodes| ==> nodes[i] != nodes[0]
  {
  }

  lemma DistinctNext(nodes: seq<Node>, k: nat)
    requires Distinct(nodes) && k < |nodes|
    ensures k + 1 < |nodes| ==> forall i :: 0 <= i < |nodes| && i != k + 1 ==> nodes[i] != nodes[k + 1]
    ensures forall i :: 0 < i < |nodes| ==> nodes[i] != nodes[0]
  {
  }

  ghost function Without(nodes: seq<Node>, k: nat): seq<Node>
    requires k < |nodes|
  {
    nodes[..k] + nodes[k + 1..]
  }

  /** The node before place `i`, and the one behind it, once place `k` is cut out. */
  ghost function Before(nodes: seq<Node>, k: nat, i: nat): Node?
    requires 0 < i < |nodes|
  {
    if i - 1 != k then nodes[i - 1] else if k > 0 then nodes[k - 1] else nodes[|nodes| - 1]
  }

  ghost function Behind(nodes: seq<Node>, k: nat, i: nat): Node?
    requires k < |nodes| && i < |nodes|
  {
    if i + 1 == k then Following(nodes, k) else Following(nodes, i)
  }

  /** `prev` passes over place `k`, and leads from the first node left to the last. */
  ghost predicate PrevCut(nodes: seq<Node>, k: nat)
    requires k < |nodes|
    reads nodes`prev
  {
    && (forall i :: 0 < i < |nodes| && i != k ==> nodes[i].prev == Before(nodes, k, i))
    && (k > 0 ==> nodes[0].prev == nodes[if k == |nodes| - 1 then k - 1 else |nodes| - 1])
  }

  ghost predicate NextCut(nodes: seq<Node>, k: nat)
    requires k < |nodes|
    reads nodes`next
  {
    forall i :: 0 <= i < |nodes| && i != k ==> nodes[i].next == Behind(nodes, k, i)
  }

  lemma CutNextLinked(all: seq<Node>, k: nat)
    requires k < |all| && Distinct(all) && NextCut(all, k)
    ensures Chain(First(Without(all, k)), Without(all, k))
  {
    DistinctCut(all, k);
    hide Distinct;
    var nodes := Without(all, k);
    forall i | 0 <= i < |nodes| ensures nodes[i].next == Following(nodes, i) {
      assert nodes[i] == all[if i < k then i else i + 1];
      assert i + 1 < |nodes| ==> nodes[i + 1] == all[if i + 1 < k then i + 1 else i + 2];
    }
  }

  lemma CutPrevLinked(all: seq<Node>, k: nat)
    requires k < |all| && PrevCut(all, k)
    ensures var nodes := Without(all, k); BackLinked(nodes) && (nodes != [] ==> nodes[0].prev == nodes[|nodes| - 1])
  {
    var nodes := Without(all, k);
    forall i | 0 < i < |nodes| ensures nodes[i].prev == nodes[i - 1] {
      assert nodes[i] == all[if i < k then i else i + 1];
      assert nodes[i - 1] == all[if i - 1 < k then i - 1 else i];
    }
  }

  /** Links that pass over place `k` are those of the chain without it. */
  lemma CutLinked(all: seq<Node>, k: nat)
    requires k < |all| && Distinct(all) && NextCut(all, k) && PrevCut(all, k)
    ensures var nodes := Without(all, k);
            && |nodes| == |all| - 1 && Chain(First(nodes), nodes) && BackLinked(nodes)
            && (nodes != [] ==> nodes[0].prev == nodes[|nodes| - 1])
  {
    CutNextLinked(all, k);
    CutPrevLinked(all, k);
  }

  /** A chain cut behind its first `h` nodes is two chains. */
  lemma CutChains(nodes: seq<Node>, h: nat, second: Node?)
    requires Distinct(nodes) && 1 <= h <= |nodes| && second == First(nodes[h..])
    requires forall i :: 0 <= i < |nodes| ==> nodes[i].next == if i + 1 == h then null else Following(nodes, i)
    ensures Chain(First(nodes), nodes[..h]) && Chain(second, nodes[h..])
  {
    var b := nodes[h..];
    forall i | 0 <= i < |b| ensures b[i].next == Following(b, i) {
      assert b[i] == nodes[h + i];
    }
  }

  lemma HeadIsFirst(head: Node?, nodes: seq<Node>)
    requires Chain(head, nodes)
    ensures head == First(nodes)
  {
  }

  lemma EmptyChain()
    ensures Chain(null, []) && BackLinked([])
  {
  }

  /** ina_list_t, without the recycled nodes and the pool they come from. */
  class NodeList {
    var head: Node?
    var count: nat
    ghost var nodes: seq<Node>

    /** Between sorts: a chain, linked both ways, whose head's `prev` is the last node. */
    ghost predicate Valid()
      reads this, nodes
    {
      && Chain(head, nodes) && BackLinked(nodes)
      && count == |nodes|
      && (nodes != [] ==> nodes[0].prev == nodes[|nodes| - 1])
    }

    constructor ()
      ensures Valid() && nodes == []
    {
      head, count, nodes := null, 0, [];
    }

    /** ina_list_insert_tail. */
    method InsertTail(node: Node)
      requires Valid() && node !in nodes
      modifies this, nodes, node
      ensures Valid() && nodes == old(nodes) + [node]
    {
      count := count + 1;
      if head != null {
        node.prev := head.prev;
        head.prev := node;
        node.next := null;
        node.prev.next := node;
      } else {
        node.prev := node;
        node.next := null;
        head := node;
      }
      nodes := nodes + [node];
    }

    /** The `prev` half of ina_list_remove: the node behind, or the head, gets the node before. */
    method CutPrev(node: Node, ghost k: nat)
      requires Valid() && k < |nodes| && nodes[k] == node
      modifies nodes`prev
      ensures PrevCut(nodes, k) && (k > 0 ==> node.prev == nodes[k - 1])
      ensures Chain(head, nodes) && Distinct(nodes)
    {
      hide Distinct;
      DistinctNext(nodes, k);
      if node.next != null {
        node.next.prev := node.prev;
      } else {
        head.prev := node.prev;
      }
    }

    /** The `next` half: the node before, or `head`, gets the node behind. */
    method CutNext(node: Node, ghost k: nat)
      requires Chain(head, nodes) && k < |nodes| && nodes[k] == node && (k > 0 ==> node.prev == nodes[k - 1])
      modifies this`head, nodes`next
      ensures head == First(Without(nodes, k)) && NextCut(nodes, k)
    {
      DistinctCut(nodes, k);
      hide Distinct;
      if head == node {
        head := node.next;
      } else {
        node.prev.next := node.next;
      }
    }

    /** ina_list_remove. */
    method Remove(node: Node, ghost k: nat)
      requires Valid() && k < |nodes| && nodes[k] == node
      modifies this, nodes
      ensures Valid() && nodes == Without(old(nodes), k)
    {
      hide Distinct, PrevCut, NextCut, Chain, BackLinked, First, Without;
      CutPrev(node, k);
      CutNext(node, k);
      count := count - 1;
      CutLinked(nodes, k);
      nodes := Without(nodes, k);
    }

    /** ina_list_concat, for lists whose nodes the caller owns: `src` is left empty. */
    method Concat(src: NodeList)
      requires Valid() && src.Valid() && src != this && forall x :: x in nodes ==> x !in src.nodes
      modifies this, src, nodes, src.nodes
      ensures Valid() && nodes == old(nodes) + old(src.nodes)
      ensures src.Valid() && src.nodes == []
    {
      if src.head == null {
        assert nodes + src.nodes == nodes;
        return;
      }
      hide Chain, BackLinked, Distinct;
      ghost var a, b := nodes, src.nodes;
      HeadIsFirst(head, a);
      HeadIsFirst(src.head, b);
      if head == null {
        head := src.head;
        count := src.count;
        src.head := null;
        assert a + b == b;
      } else {
        JoinChains(head, src.head, a, b);
        count := count + src.count;
      }
      src.nodes := [];
      src.head := null;
      src.count := 0;
      nodes := a + b;
      EmptyChain();
    }

    /** ina_list_sort: the same nodes, each once, in order, linked both ways.  The head's `prev` is not
        set to the last node again, so the list is fit for InsertTail, Remove and Concat afterwards if
        and only if it holds at most one node. */
    method Sort(compare: (int, int) -> int)
      requires Valid() && Preorder(compare)
      modifies this, nodes
      ensures nodes == Sorted(compare, old(nodes))
      ensures Chain(head, nodes) && BackLinked(nodes) && count == |nodes|
      ensures InOrder(compare, nodes) && multiset(nodes) == multiset(old(nodes))
      ensures Valid() <==> |nodes| <= 1
    {
      hide Sorted, Merged, Preorder, InOrder, Distinct;
      if |nodes| <= 1 {
        ShortIsSorted(compare, nodes);
      }
      head := MergeSort(head, compare, nodes);
      SortedSame(compare, nodes);
      SortedInOrder(compare, nodes);
      nodes := Sorted(compare, nodes);
    }
  }
}
