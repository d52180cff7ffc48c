/** AnalyzeCPUHierarchy of contribs/cpu-topology/cpu_topo.c: every logical processor gets ordinals for
    its package, its core in the package and its thread in the core. */
module Topology {

  const MAX_CORES := 512
  const WORD := 0x1_0000_0000

  /** pkg_IDAPIC and Core_IDAPIC of one logical processor. */
  datatype Ids = Ids(pkg: nat, core: nat)

  // ----- What the ordinals mean, over the first `n` processors -----

  ghost predicate Distinct<T(!new)>(s: seq<T>) {
    forall i, j :: 0 <= i < j < |s| ==> s[i] != s[j]
  }

  /** The package IDs, each at its first appearance. */
  function Packages(ids: seq<Ids>, n: nat): (d: seq<nat>)
    requires n <= |ids|
    ensures |d| <= n && Distinct(d)
  {
    if n == 0 then []
    else
      var d, p := Packages(ids, n - 1), ids[n - 1].pkg;
      if p in d then d else d + [p]
  }

  /** The core IDs of package `p`, each at its first appearance. */
  function Cores(ids: seq<Ids>, n: nat, p: nat): (d: seq<nat>)
    requires n <= |ids|
    ensures |d| <= n && Distinct(d)
  {
    if n == 0 then []
    else
      var d, x := Cores(ids, n - 1, p), ids[n - 1];
      if x.pkg != p || x.core in d then d else d + [x.core]
  }

  /** How many of the processors are threads of this core. */
  function Threads(ids: seq<Ids>, n: nat, x: Ids): (t: nat)
    requires n <= |ids|
    ensures t <= n
  {
    if n == 0 then 0 else Threads(ids, n - 1, x) + if ids[n - 1] == x then 1 else 0
  }

  /** The packages listed are those that occur. */
  lemma {:induction false} Occurs(ids: seq<Ids>, n: nat, i: nat)
    requires i < n <= |ids|
    ensures ids[i].pkg in Packages(ids, n) && ids[i].core in Cores(ids, n, ids[i].pkg)
  {
    if i < n - 1 {
      Occurs(ids, n - 1, i);
    }
  }

  /** A core is listed if and only if it has threads. */
  lemma {:induction false} ListedIffThreads(ids: seq<Ids>, n: nat, p: nat, c: nat)
    requires n <= |ids|
    ensures c in Cores(ids, n, p) <==> Threads(ids, n, Ids(p, c)) > 0
    ensures c in Cores(ids, n, p) ==> p in Packages(ids, n)
  {
    if n > 0 {
      ListedIffThreads(ids, n - 1, p, c);
    }
  }

  function IndexOf(d: seq<nat>, x: nat): (k: nat)
    requires x in d
    ensures k < |d| && d[k] == x && x !in d[..k]
  {
    if d[0] == x then 0
    else
      assert d[1..][..IndexOf(d[1..], x)] == d[1..IndexOf(d[1..], x) + 1];
      1 + IndexOf(d[1..], x)
  }

  /** The ordinals of processor `i` among the first `n`. */
  function PackageOrd(ids: seq<Ids>, n: nat, i: nat): nat
    requires i < n <= |ids|
  {
    Occurs(ids, n, i);
    IndexOf(Packages(ids, n), ids[i].pkg)
  }

  function CoreOrd(ids: seq<Ids>, n: nat, i: nat): nat
    requires i < n <= |ids|
  {
    Occurs(ids, n, i);
    IndexOf(Cores(ids, n, ids[i].pkg), ids[i].core)
  }

  function ThreadOrd(ids: seq<Ids>, i: nat): nat
    requires i < |ids|
  {
    Threads(ids, i, ids[i])
  }

  /** The (package, core) pairs that occur. */
  function Pairs(ids: seq<Ids>, n: nat): set<Ids>
    requires n <= |ids|
  {
    set i | 0 <= i < n :: ids[i]
  }

  // ----- The numbering is the right one -----

  lemma IndexUnique(d: seq<nat>, k: nat)
    requires Distinct(d) && k < |d|
    ensures IndexOf(d, d[k]) == k
  {
  }

  /** Equal ordinals if and only if equal IDs, for packages, and for cores of one package. */
  lemma OrdinalsAgree(ids: seq<Ids>, n: nat, i: nat, j: nat)
    requires i < n <= |ids| && j < n
    ensures PackageOrd(ids, n, i) == PackageOrd(ids, n, j) <==> ids[i].pkg == ids[j].pkg
    ensures ids[i].pkg == ids[j].pkg ==> (CoreOrd(ids, n, i) == CoreOrd(ids, n, j) <==> ids[i].core == ids[j].core)
  {
    hide Packages, Cores;
  }

  lemma {:induction false} ThreadsGrow(ids: seq<Ids>, i: nat, j: nat, x: Ids)
    requires i <= j <= |ids|
    ensures Threads(ids, i, x) <= Threads(ids, j, x)
    decreases j
  {
    if i < j {
      ThreadsGrow(ids, i, j - 1, x);
    }
  }

  /** No two processors have the same three ordinals. */
  lemma TriplesInjective(ids: seq<Ids>, n: nat, i: nat, j: nat)
    requires i < j < n <= |ids|
    ensures !(PackageOrd(ids, n, i) == PackageOrd(ids, n, j) && CoreOrd(ids, n, i) == CoreOrd(ids, n, j)
              && ThreadOrd(ids, i) == ThreadOrd(ids, j))
  {
    hide Packages, Cores, IndexOf;
    OrdinalsAgree(ids, n, i, j);
    if ids[i] == ids[j] {
      assert Threads(ids, i + 1, ids[i]) == ThreadOrd(ids, i) + 1;
      ThreadsGrow(ids, i + 1, j, ids[i]);
    }
  }

  lemma {:induction false} ThreadReached(ids: seq<Ids>, n: nat, x: Ids, t: nat) returns (i: nat)
    requires n <= |ids| && t < Threads(ids, n, x)
    ensures i < n && ids[i] == x && ThreadOrd(ids, i) == t
  {
    if ids[n - 1] == x && t == Threads(ids, n - 1, x) {
      i := n - 1;
    } else {
      i := ThreadReached(ids, n - 1, x, t);
    }
  }

  /** Every triple in range belongs to a processor: the ordinals leave no gaps. */
  lemma TriplesDense(ids: seq<Ids>, n: nat, h: nat, k: nat, t: nat)
    requires n <= |ids| && h < |Packages(ids, n)|
    requires k < |Cores(ids, n, Packages(ids, n)[h])|
    requires t < Threads(ids, n, Ids(Packages(ids, n)[h], Cores(ids, n, Packages(ids, n)[h])[k]))
    ensures exists i :: 0 <= i < n && PackageOrd(ids, n, i) == h && CoreOrd(ids, n, i) == k && ThreadOrd(ids, i) == t
  {
    hide Packages, Cores, Threads, IndexOf;
    var p := Packages(ids, n)[h];
    var c := Cores(ids, n, p)[k];
    var i := ThreadReached(ids, n, Ids(p, c), t);
    IndexUnique(Packages(ids, n), h);
    IndexUnique(Cores(ids, n, p), k);
    assert PackageOrd(ids, n, i) == h && CoreOrd(ids, n, i) == k;
  }

  // ----- Sums of the counts -----

  function Sum(f: nat -> nat, d: seq<nat>): nat {
    if d == [] then 0 else f(d[0]) + Sum(f, d[1..])
  }

  /** One value of `f` goes up by one, or none. */
  lemma {:induction false} SumBump(f: nat -> nat, g: nat -> nat, d: seq<nat>, x: nat, e: nat)
    requires Distinct(d) && forall y :: g(y) == f(y) + if y == x then e else 0
    ensures Sum(g, d) == Sum(f, d) + if x in d then e else 0
  {
    if d != [] {
      SumBump(f, g, d[1..], x, e);
      assert forall i :: 1 <= i < |d| ==> d[1..][i - 1] == d[i];
    }
  }

  lemma {:induction false} SumAppend(f: nat -> nat, d: seq<nat>, x: nat)
    ensures Sum(f, d + [x]) == Sum(f, d) + f(x)
  {
    if d == [] {
      assert d + [x] == [x];
    } else {
      assert (d + [x])[1..] == d[1..] + [x];
      SumAppend(f, d[1..], x);
    }
  }

  function ThreadsOf(ids: seq<Ids>, n: nat, p: nat): nat -> nat
    requires n <= |ids|
  {
    c => Threads(ids, n, Ids(p, c))
  }

  /** The number of threads in package `p`, by its cores. */
  function InPackage(ids: seq<Ids>, n: nat): nat -> nat
    requires n <= |ids|
  {
    p => Sum(ThreadsOf(ids, n, p), Cores(ids, n, p))
  }

  lemma OneMore(s: seq<Ids>, i: nat, p: nat, c: nat)
    requires i < |s|
    ensures Cores(s, i + 1, p) == Cores(s, i, p) + if s[i].pkg != p || s[i].core in Cores(s, i, p) then [] else [s[i].core]
    ensures Threads(s, i + 1, Ids(p, c)) == Threads(s, i, Ids(p, c)) + if s[i] == Ids(p, c) then 1 else 0
  {
  }

  lemma InPackageStep(ids: seq<Ids>, n: nat, p: nat)
    requires 0 < n <= |ids|
    ensures InPackage(ids, n)(p) == InPackage(ids, n - 1)(p) + if ids[n - 1].pkg == p then 1 else 0
  {
    hide Cores, Threads;
    var x, d := ids[n - 1], Cores(ids, n - 1, p);
    forall c ensures Threads(ids, n, Ids(p, c)) == Threads(ids, n - 1, Ids(p, c)) + if x == Ids(p, c) then 1 else 0 {
      OneMore(ids, n - 1, p, c);
    }
    OneMore(ids, n - 1, p, 0);
    var f, g := ThreadsOf(ids, n - 1, p), ThreadsOf(ids, n, p);
    var e := if x.pkg == p then 1 else 0;
    SumBump(f, g, d, x.core, e);
    assert d + [] == d;
    if x.pkg == p && x.core !in d {
      SumAppend(g, d, x.core);
      ListedIffThreads(ids, n - 1, p, x.core);
    }
  }

  /** Over all packages and cores, the thread counts add up to the number of processors. */
  lemma {:induction false} CountsAddUp(ids: seq<Ids>, n: nat)
    requires n <= |ids|
    ensures Sum(InPackage(ids, n), Packages(ids, n)) == n
  {
    hide Cores, Threads, InPackage, ThreadsOf;
    if n > 0 {
      CountsAddUp(ids, n - 1);
      var p, d := ids[n - 1].pkg, Packages(ids, n - 1);
      var f, g := InPackage(ids, n - 1), InPackage(ids, n);
      forall q ensures g(q) == f(q) + if q == p then 1 else 0 {
        InPackageStep(ids, n, q);
      }
      SumBump(f, g, d, p, 1);
      if p !in d {
        SumAppend(g, d, p);
        NoCores(ids, n - 1, p);
      }
    }
  }

  lemma NoCores(ids: seq<Ids>, n: nat, p: nat)
    requires n <= |ids| && p !in Packages(ids, n)
    ensures Cores(ids, n, p) == [] && InPackage(ids, n)(p) == 0
  {
    if Cores(ids, n, p) != [] {
      ListedIffThreads(ids, n, p, Cores(ids, n, p)[0]);
    }
  }

  // ----- The loop -----

  function Pow2(k: nat): (r: nat)
    ensures r > 0
  {
    if k == 0 then 1 else 2 * Pow2(k - 1)
  }

  /** Place `k` in row `h` of a flat table with rows of width `w`. */
  function Cell(h: nat, w: nat, k: nat): nat {
    h * w + k
  }

  lemma {:induction false} RowsApart(h: nat, h': nat, w: nat)
    requires h < h'
    ensures Cell(h, w, w) <= Cell(h', w, 0)
    decreases h'
  {
    if h + 1 < h' {
      RowsApart(h, h' - 1, w);
    }
    NextRow(h' - 1, w);
  }

  lemma NextRow(h: nat, w: nat)
    ensures Cell(h, w, w) == Cell(h + 1, w, 0)
  {
  }

  lemma CellOffset(h: nat, w: nat, k: nat)
    ensures Cell(h, w, k) == Cell(h, w, 0) + k
  {
  }

  lemma CellsDiffer(h: nat, k: nat, h': nat, k': nat, w: nat)
    requires k < w && k' < w && (h != h' || k != k')
    ensures Cell(h, w, k) != Cell(h', w, k')
  {
    hide Cell;
    CellOffset(h, w, k);
    CellOffset(h', w, k');
    CellOffset(h, w, w);
    CellOffset(h', w, w);
    if h < h' {
      RowsApart(h, h', w);
    } else if h' < h {
      RowsApart(h', h, w);
    }
  }

  lemma CellInside(h: nat, rows: nat, w: nat, k: nat)
    requires k < w
    ensures Cell(h, w, k) < Cell(rows, w, 0) <==> h < rows
  {
    hide Cell;
    CellOffset(h, w, k);
    CellOffset(h, w, w);
    if h < rows {
      RowsApart(h, rows, w);
    } else if rows < h {
      RowsApart(rows, h, w);
      CellOffset(rows, w, w);
    }
  }

  /** When the analysis succeeds: the allocated tables have room for the processors, there are at most
      `slots` packages, and no processor comes to a package that already has all its cores. */
  predicate Succeeds(ids: seq<Ids>, n: nat, dim0: nat, slots: nat)
    requires n <= |ids|
  {
    && n < dim0
    && |Packages(ids, n)| <= slots
    && forall i :: 0 <= i < n ==> NotFull(ids, i)
  }

  /** The workspace has rows for as many packages as one package has IDs, so that two packages with one
      processor each are refused. */
  lemma SmallPackagesFail(ids: seq<Ids>)
    requires |ids| == 2 && ids[0].pkg != ids[1].pkg
    ensures !Succeeds(ids, 2, 3, Pow2(0))
  {
    var n := 2;
    assert Packages(ids, n - 1) == [ids[0].pkg];
    assert Packages(ids, n) == [ids[0].pkg] + [ids[1].pkg];
  }

  predicate NotFull(ids: seq<Ids>, i: nat)
    requires i < |ids|
  {
    ids[i].pkg in Packages(ids, i) ==> |Cores(ids, i, ids[i].pkg)| < MAX_CORES
  }

  /** Row `h` of the tables is about package `p`, over the first `i` processors. */
  ghost predicate Row(s: seq<Ids>, i: nat, p: nat, h: nat, w: nat, perPkg: seq<nat>, perCore: seq<nat>, coreIds: seq<nat>)
    requires i <= |s|
  {
    var d := Cores(s, i, p);
    && h < |perPkg| && perPkg[h] == |d| <= MAX_CORES && |d| <= w
    && forall k :: 0 <= k < |d| ==>
         && Cell(h, w, k) < |coreIds| && coreIds[Cell(h, w, k)] == d[k]
         && Cell(h, MAX_CORES, k) < |perCore| && perCore[Cell(h, MAX_CORES, k)] == Threads(s, i, Ids(p, d[k]))
  }

  ghost predicate Rows(s: seq<Ids>, i: nat, w: nat, perPkg: seq<nat>, perCore: seq<nat>, coreIds: seq<nat>)
    requires i <= |s|
  {
    forall h :: 0 <= h < |Packages(s, i)| ==> Row(s, i, Packages(s, i)[h], h, w, perPkg, perCore, coreIds)
  }

  lemma NewPackageFacts(s: seq<Ids>, i: nat)
    requires i < |s| && s[i].pkg !in Packages(s, i)
    ensures Packages(s, i + 1) == Packages(s, i) + [s[i].pkg]
    ensures Cores(s, i, s[i].pkg) == [] && Cores(s, i + 1, s[i].pkg) == [s[i].core] && Threads(s, i, s[i]) == 0
  {
    hide Cores, Threads, Packages;
    NoCores(s, i, s[i].pkg);
    OneMore(s, i, s[i].pkg, s[i].core);
    ListedIffThreads(s, i, s[i].pkg, s[i].core);
    OneMorePackage(s, i);
  }

  lemma OneMorePackage(s: seq<Ids>, i: nat)
    requires i < |s|
    ensures Packages(s, i + 1) == Packages(s, i) + if s[i].pkg in Packages(s, i) then [] else [s[i].pkg]
  {
  }

  lemma RowEntries(s: seq<Ids>, i: nat, p: nat, h: nat, w: nat, perPkg: seq<nat>, perCore: seq<nat>, coreIds: seq<nat>)
    requires i <= |s| && Row(s, i, p, h, w, perPkg, perCore, coreIds)
    ensures h < |perPkg| && perPkg[h] == |Cores(s, i, p)|
    ensures forall k :: 0 <= k < |Cores(s, i, p)| ==>
              && Cell(h, MAX_CORES, k) < |perCore|
              && perCore[Cell(h, MAX_CORES, k)] == Threads(s, i, Ids(p, Cores(s, i, p)[k]))
  {
    hide Cell, Cores, Threads;
  }

  lemma {:induction false} PackagesGrow(s: seq<Ids>, i: nat, n: nat)
    requires i <= n <= |s|
    ensures |Packages(s, i)| <= |Packages(s, n)|
    decreases n
  {
    if i < n {
      PackagesGrow(s, i, n - 1);
    }
  }

  lemma SlotCells(slots: nat, n: nat)
    ensures n * slots == Cell(slots, n, 0)
  {
  }

  lemma RowFacts(s: seq<Ids>, i: nat, h: nat, w: nat, perPkg: seq<nat>, perCore: seq<nat>, coreIds: seq<nat>)
    requires i < |s| && h < |Packages(s, i)| && Packages(s, i)[h] == s[i].pkg && Rows(s, i, w, perPkg, perCore, coreIds)
    ensures Row(s, i, s[i].pkg, h, w, perPkg, perCore, coreIds)
    ensures h < |perPkg| && perPkg[h] == |Cores(s, i, s[i].pkg)| <= MAX_CORES
    ensures forall k :: 0 <= k < |Cores(s, i, s[i].pkg)| ==>
              && Cell(h, w, k) < |coreIds| && coreIds[Cell(h, w, k)] == Cores(s, i, s[i].pkg)[k]
              && Cell(h, MAX_CORES, k) < |perCore|
              && perCore[Cell(h, MAX_CORES, k)] == Threads(s, i, Ids(s[i].pkg, Cores(s, i, s[i].pkg)[k]))
  {
    hide Cell, Cores, Threads, Packages;
  }

  /** Entries of row `g` change, and processor `i` is in another package than row `h`. */
  lemma OtherRow(s: seq<Ids>, i: nat, p: nat, h: nat, w: nat, perPkg: seq<nat>, perCore: seq<nat>, coreIds: seq<nat>,
                 g: nat, count: nat, k: nat, threads: nat, core: nat)
    requires i < |s| && p != s[i].pkg && Row(s, i, p, h, w, perPkg, perCore, coreIds)
    requires g != h && g < |perPkg| && k < MAX_CORES && k < w
    requires Cell(g, MAX_CORES, k) < |perCore| && Cell(g, w, k) < |coreIds|
    ensures Row(s, i + 1, p, h, w, perPkg[g := count], perCore[Cell(g, MAX_CORES, k) := threads],
                coreIds[Cell(g, w, k) := core])
  {
    hide Cell, Distinct, Cores, Threads;
    var d := Cores(s, i, p);
    OneMore(s, i, p, 0);
    forall j | 0 <= j < |d|
      ensures Cell(h, w, j) != Cell(g, w, k) && Cell(h, MAX_CORES, j) != Cell(g, MAX_CORES, k)
      ensures Threads(s, i + 1, Ids(p, d[j])) == Threads(s, i, Ids(p, d[j]))
    {
      OneMore(s, i, p, d[j]);
      CellsDiffer(h, j, g, k, w);
      CellsDiffer(h, j, g, k, MAX_CORES);
    }
  }

  /** A processor on a core already known: one more thread. */
  lemma SameRow(s: seq<Ids>, i: nat, h: nat, k: nat, w: nat, perPkg: seq<nat>, perCore: seq<nat>, coreIds: seq<nat>)
    requires i < |s| && k < |Cores(s, i, s[i].pkg)| && Cores(s, i, s[i].pkg)[k] == s[i].core
    requires Row(s, i, s[i].pkg, h, w, perPkg, perCore, coreIds)
    ensures Row(s, i + 1, s[i].pkg, h, w, perPkg, perCore[Cell(h, MAX_CORES, k) := Threads(s, i, s[i]) + 1], coreIds)
  {
    hide Cell, Cores, Threads;
    var p := s[i].pkg;
    var d := Cores(s, i, p);
    OneMore(s, i, p, 0);
    forall j | 0 <= j < |d|
      ensures j != k ==> Cell(h, MAX_CORES, j) != Cell(h, MAX_CORES, k)
      ensures Threads(s, i + 1, Ids(p, d[j])) == Threads(s, i, Ids(p, d[j])) + if j == k then 1 else 0
    {
      OneMore(s, i, p, d[j]);
      if j != k {
        CellsDiffer(h, j, h, k, MAX_CORES);
      }
    }
  }

  /** A processor on a new core. */
  lemma LongerRow(s: seq<Ids>, i: nat, h: nat, k: nat, w: nat, perPkg: seq<nat>, perCore: seq<nat>, coreIds: seq<nat>)
    requires i < |s| && s[i].core !in Cores(s, i, s[i].pkg) && k == |Cores(s, i, s[i].pkg)| < MAX_CORES && k < w
    requires if k > 0 then Row(s, i, s[i].pkg, h, w, perPkg, perCore, coreIds) else h < |perPkg|
    requires Cell(h, MAX_CORES, k) < |perCore| && Cell(h, w, k) < |coreIds|
    ensures h < |perPkg|
    ensures Row(s, i + 1, s[i].pkg, h, w, perPkg[h := k + 1], perCore[Cell(h, MAX_CORES, k) := 1],
                coreIds[Cell(h, w, k) := s[i].core])
  {
    hide Cell, Distinct, Cores, Threads;
    var p := s[i].pkg;
    var d := Cores(s, i, p);
    ListedIffThreads(s, i, p, s[i].core);
    OneMore(s, i, p, s[i].core);
    forall j | 0 <= j < |d|
      ensures Cell(h, w, j) != Cell(h, w, k) && Cell(h, MAX_CORES, j) != Cell(h, MAX_CORES, k)
      ensures Threads(s, i + 1, Ids(p, d[j])) == Threads(s, i, Ids(p, d[j]))
    {
      OneMore(s, i, p, d[j]);
      CellsDiffer(h, j, h, k, w);
      CellsDiffer(h, j, h, k, MAX_CORES);
    }
  }

  /** Processor `i` changes row `g` only. */
  lemma AllRows(s: seq<Ids>, i: nat, g: nat, w: nat, perPkg: seq<nat>, perCore: seq<nat>, coreIds: seq<nat>,
                count: nat, k: nat, threads: nat, core: nat)
    requires i < |s| && Rows(s, i, w, perPkg, perCore, coreIds)
    requires g < |perPkg| && k < MAX_CORES && k < w && Cell(g, MAX_CORES, k) < |perCore| && Cell(g, w, k) < |coreIds|
    requires g < |Packages(s, i + 1)| && Packages(s, i + 1)[g] == s[i].pkg
    requires Row(s, i + 1, s[i].pkg, g, w, perPkg[g := count], perCore[Cell(g, MAX_CORES, k) := threads],
                 coreIds[Cell(g, w, k) := core])
    ensures Rows(s, i + 1, w, perPkg[g := count], perCore[Cell(g, MAX_CORES, k) := threads], coreIds[Cell(g, w, k) := core])
  {
    hide Cell, Row;
    var n := i + 1;
    var perPkg', perCore', coreIds' := perPkg[g := count], perCore[Cell(g, MAX_CORES, k) := threads], coreIds[Cell(g, w, k) := core];
    forall h | 0 <= h < |Packages(s, n)| ensures Row(s, n, Packages(s, n)[h], h, w, perPkg', perCore', coreIds') {
      if h != g {
        assert Packages(s, n)[h] != s[i].pkg && h < |Packages(s, i)| && Packages(s, i)[h] == Packages(s, n)[h];
        OtherRow(s, i, Packages(s, i)[h], h, w, perPkg, perCore, coreIds, g, count, k, threads, core);
      }
    }
  }

  /** Ordinals never change as more processors come. */
  lemma OrdinalsStay(ids: seq<Ids>, n: nat, j: nat)
    requires j < n < |ids|
    ensures PackageOrd(ids, n + 1, j) == PackageOrd(ids, n, j) && CoreOrd(ids, n + 1, j) == CoreOrd(ids, n, j)
  {
    hide Cores, IndexOf;
    var p := ids[j].pkg;
    Occurs(ids, n, j);
    Occurs(ids, n + 1, j);
    OneMore(ids, n, p, 0);
    IndexUnique(Packages(ids, n + 1), IndexOf(Packages(ids, n), p));
    IndexUnique(Cores(ids, n + 1, p), IndexOf(Cores(ids, n, p), ids[j].core));
  }

  /** A pair counts as new exactly when its core was not listed. */
  lemma PairsGrow(ids: seq<Ids>, i: nat)
    requires i < |ids|
    ensures |Pairs(ids, i + 1)| == |Pairs(ids, i)| + if ids[i].core in Cores(ids, i, ids[i].pkg) then 0 else 1
  {
    var x := ids[i];
    assert Pairs(ids, i + 1) == Pairs(ids, i) + {x};
    ListedIffThreads(ids, i, x.pkg, x.core);
    if x in Pairs(ids, i) {
      var j :| 0 <= j < i && ids[j] == x;
      Occurs(ids, i, j);
    } else if x.core in Cores(ids, i, x.pkg) {
      var j := ThreadReached(ids, i, x, 0);
      assert false;
    }
  }

  /** The linear search of the loops: the place of `x` among `count` entries from `start`, or `count`. */
  method Find(a: array<nat>, start: nat, count: nat, x: nat) returns (k: nat)
    requires start + count <= a.Length
    ensures k <= count && (k < count ==> a[start + k] == x)
    ensures forall j :: start <= j < start + k ==> a[j] != x
  {
    k := 0;
    while k < count
      invariant k <= count
      invariant forall j :: start <= j < start + k ==> a[j] != x
    {
      if a[start + k] == x {
        return;
      }
      k := k + 1;
    }
  }

  /** The tables of glbl_ptr that the analysis fills. */
  class Tables {
    /** Package and core IDs, one entry for each logical processor. */
    const ids: array<Ids>
    const packageORD: array<nat>
    const coreORD: array<nat>
    const threadORD: array<nat>
    /** perPkg_detectedCoresCount, and perCore_detectedThreadsCount in rows of MAX_CORES. */
    const perPkg: array<nat>
    const perCore: array<nat>
    const pkgSelectMaskShift: nat
    var coreCount: nat
    var packageCount: nat

    ghost predicate Shape() {
      && packageORD.Length == coreORD.Length == threadORD.Length == ids.Length
      && perCore.Length == Cell(perPkg.Length, MAX_CORES, 0)
      && packageORD != coreORD && packageORD != threadORD && coreORD != threadORD
      && perPkg != packageORD && perPkg != coreORD && perPkg != threadORD
      && perCore != packageORD && perCore != coreORD && perCore != threadORD && perCore != perPkg
    }

    constructor (ids: array<Ids>, cpus: nat, pkgSelectMaskShift: nat)
      ensures Shape() && this.ids == ids && this.pkgSelectMaskShift == pkgSelectMaskShift
      ensures perPkg.Length == cpus + 1 && coreCount == 0
      ensures fresh(packageORD) && fresh(coreORD) && fresh(threadORD) && fresh(perPkg) && fresh(perCore)
    {
      this.ids, this.pkgSelectMaskShift := ids, pkgSelectMaskShift;
      packageORD, coreORD, threadORD := new nat[ids.Length], new nat[ids.Length], new nat[ids.Length];
      perPkg, perCore := new nat[cpus + 1], new nat[Cell(cpus + 1, MAX_CORES, 0)];
      coreCount, packageCount := 0, 0;
    }

    ghost function Written(): set<object> {
      {this, packageORD, coreORD, threadORD, perPkg, perCore}
    }

    /** The ordinals of the first `i` processors are known. */
    ghost predicate Numbered(i: nat)
      requires Shape() && i <= ids.Length
      reads ids, packageORD, coreORD, threadORD
    {
      forall j :: 0 <= j < i ==>
        && packageORD[j] == PackageOrd(ids[..], i, j)
        && coreORD[j] == CoreOrd(ids[..], i, j)
        && threadORD[j] == ThreadOrd(ids[..], j)
    }

    /** The tables after the first `i` processors. */
    ghost predicate Counted(i: nat, n: nat, pkgIds: array<nat>, coreIds: array<nat>, before: nat)
      requires Shape() && i <= ids.Length
      reads this, ids, packageORD, coreORD, threadORD, perPkg, perCore, pkgIds, coreIds
    {
      && Numbered(i)
      && |Packages(ids[..], i)| <= pkgIds.Length && pkgIds[..|Packages(ids[..], i)|] == Packages(ids[..], i)
      && Rows(ids[..], i, n, perPkg[..], perCore[..], coreIds[..])
      && coreCount == before + |Pairs(ids[..], i)|
    }

    /** The ordinals of processor `i` join the others. */
    twostate lemma NumberedGrows(new i: nat, new h: nat, new k: nat)
      requires Shape() && i < ids.Length && old(Numbered(i)) && ids[..] == old(ids[..])
      requires forall j :: 0 <= j < i ==>
                 packageORD[j] == old(packageORD[j]) && coreORD[j] == old(coreORD[j]) && threadORD[j] == old(threadORD[j])
      requires h < |Packages(ids[..], i + 1)| && Packages(ids[..], i + 1)[h] == ids[i].pkg
      requires k < |Cores(ids[..], i + 1, ids[i].pkg)| && Cores(ids[..], i + 1, ids[i].pkg)[k] == ids[i].core
      requires packageORD[i] == h && coreORD[i] == k && threadORD[i] == Threads(ids[..], i, ids[i])
      ensures Numbered(i + 1)
    {
      hide Packages, Cores, Threads, IndexOf;
      var s := ids[..];
      IndexUnique(Packages(s, i + 1), h);
      IndexUnique(Cores(s, i + 1, s[i].pkg), k);
      forall j | 0 <= j < i
        ensures PackageOrd(s, i + 1, j) == packageORD[j] && CoreOrd(s, i + 1, j) == coreORD[j] && ThreadOrd(s, j) == threadORD[j]
      {
        OrdinalsStay(s, i, j);
      }
    }

    twostate lemma NumberedFrame(new i: nat)
      requires Shape() && i < ids.Length && old(Numbered(i)) && ids[..] == old(ids[..])
      requires forall j :: 0 <= j < i ==>
                 packageORD[j] == old(packageORD[j]) && coreORD[j] == old(coreORD[j]) && threadORD[j] == old(threadORD[j])
      ensures Numbered(i)
    {
    }

    lemma Start(n: nat, pkgIds: array<nat>, coreIds: array<nat>)
      requires Shape()
      ensures Counted(0, n, pkgIds, coreIds, coreCount) && |Packages(ids[..], 0)| == 0
    {
      assert Pairs(ids[..], 0) == {};
    }

    /** The work arrays of one analysis. */
    ghost predicate Work(n: nat, slots: nat, pkgIds: array<nat>, coreIds: array<nat>) {
      && pkgIds.Length == n && coreIds.Length == Cell(slots, n, 0) && pkgIds != coreIds
      && pkgIds !in Written() && coreIds !in Written()
    }

    /** A processor of a new package. */
    method InNewPackage(i: nat, n: nat, slots: nat, h: nat, pkgIds: array<nat>, coreIds: array<nat>, ghost before: nat) returns (ok: bool)
      requires Shape() && i < n <= ids.Length && n < perPkg.Length && Work(n, slots, pkgIds, coreIds)
      requires Counted(i, n, pkgIds, coreIds, before) && h == |Packages(ids[..], i)| && ids[i].pkg !in Packages(ids[..], i)
      modifies Written(), pkgIds, coreIds
      ensures ok <==> h < slots
      ensures ok ==> Counted(i + 1, n, pkgIds, coreIds, before)
    {
      hide Packages, Cores, Threads, Rows, Row, Numbered, Pairs, Cell;
      ghost var s, pp, pc, ci := ids[..], perPkg[..], perCore[..], coreIds[..];
      NewPackageFacts(s, i);
      CellInside(h, slots, n, 0);
      CellInside(h, perPkg.Length, MAX_CORES, 0);
      pkgIds[h] := ids[i].pkg;
      if Cell(h, n, 0) >= coreIds.Length {
        return false;
      }
      coreIds[Cell(h, n, 0)] := ids[i].core;
      if h >= perPkg.Length {
        return false;
      }
      perPkg[h] := 1;
      perCore[Cell(h, MAX_CORES, 0)] := 1;
      packageORD[i] := h;
      coreORD[i] := 0;
      threadORD[i] := 0;
      coreCount := coreCount + 1;
      LongerRow(s, i, h, 0, n, pp, pc, ci);
      AllRows(s, i, h, n, pp, pc, ci, 1, 0, 1, s[i].core);
      assert perPkg[..] == pp[h := 1] && perCore[..] == pc[Cell(h, MAX_CORES, 0) := 1] && coreIds[..] == ci[Cell(h, n, 0) := s[i].core];
      PairsGrow(s, i);
      NumberedGrows(i, h, 0);
      assert pkgIds[..h + 1] == Packages(s, i) + [s[i].pkg];
      return true;
    }

    /** A processor of package `h`. */
    method InKnownPackage(i: nat, n: nat, slots: nat, h: nat, pkgIds: array<nat>, coreIds: array<nat>, ghost before: nat) returns (ok: bool)
      requires Shape() && i < n <= ids.Length && n < perPkg.Length && Work(n, slots, pkgIds, coreIds)
      requires Counted(i, n, pkgIds, coreIds, before)
      requires h < |Packages(ids[..], i)| <= slots && Packages(ids[..], i)[h] == ids[i].pkg
      modifies Written(), pkgIds, coreIds
      ensures ok <==> NotFull(ids[..], i)
      ensures ok ==> Counted(i + 1, n, pkgIds, coreIds, before)
    {
      hide Packages, Cores, Threads, Rows, Row, Numbered, Pairs, Cell;
      ghost var s := ids[..];
      RowFacts(s, i, h, n, perPkg[..], perCore[..], coreIds[..]);
      packageORD[i] := h;
      NumberedFrame(i);
      if perPkg[h] >= MAX_CORES {
        return false;
      }
      var k := FindCore(i, n, slots, h, pkgIds, coreIds, before);
      if k < perPkg[h] {
        AddThread(i, n, slots, h, k, pkgIds, coreIds, before);
      } else {
        ok := AddCore(i, n, slots, h, k, pkgIds, coreIds, before);
        return;
      }
      return true;
    }

    method FindCore(i: nat, n: nat, slots: nat, h: nat, pkgIds: array<nat>, coreIds: array<nat>, ghost before: nat) returns (k: nat)
      requires Shape() && i < n <= ids.Length && Work(n, slots, pkgIds, coreIds)
      requires Rows(ids[..], i, n, perPkg[..], perCore[..], coreIds[..])
      requires h < |Packages(ids[..], i)| <= slots && Packages(ids[..], i)[h] == ids[i].pkg && h < perPkg.Length
      ensures perPkg[h] == |Cores(ids[..], i, ids[i].pkg)| && k <= perPkg[h]
      ensures k < perPkg[h] ==> Cores(ids[..], i, ids[i].pkg)[k] == ids[i].core
      ensures k == perPkg[h] ==> ids[i].core !in Cores(ids[..], i, ids[i].pkg)
    {
      hide Packages, Cores, Threads, Rows, Row, Cell;
      ghost var d := Cores(ids[..], i, ids[i].pkg);
      RowFacts(ids[..], i, h, n, perPkg[..], perCore[..], coreIds[..]);
      CellInside(h, slots, n, |d|);
      CellOffset(h, n, |d|);
      forall j | 0 <= j < |d| ensures Cell(h, n, 0) + j < coreIds.Length && coreIds[Cell(h, n, 0) + j] == d[j] {
        CellOffset(h, n, j);
        assert coreIds[..][Cell(h, n, j)] == d[j];
      }
      k := Find(coreIds, Cell(h, n, 0), perPkg[h], ids[i].core);
      forall j | 0 <= j < k ensures d[j] != ids[i].core {
        assert coreIds[Cell(h, n, 0) + j] == d[j];
      }
    }

    /** One more thread of core `k`. */
    method AddThread(i: nat, n: nat, slots: nat, h: nat, k: nat, pkgIds: array<nat>, coreIds: array<nat>, ghost before: nat)
      requires Shape() && i < n <= ids.Length && n < perPkg.Length && Work(n, slots, pkgIds, coreIds)
      requires Counted(i, n, pkgIds, coreIds, before) && packageORD[i] == h
      requires h < |Packages(ids[..], i)| && Packages(ids[..], i)[h] == ids[i].pkg
      requires k < |Cores(ids[..], i, ids[i].pkg)| && Cores(ids[..], i, ids[i].pkg)[k] == ids[i].core
      modifies Written()
      ensures Counted(i + 1, n, pkgIds, coreIds, before)
    {
      hide Packages, Cores, Threads, Rows, Row, Numbered, Pairs, Cell;
      ghost var s, pp, pc, ci := ids[..], perPkg[..], perCore[..], coreIds[..];
      RowFacts(s, i, h, n, pp, pc, ci);
      coreORD[i] := k;
      threadORD[i] := perCore[Cell(h, MAX_CORES, k)];
      perCore[Cell(h, MAX_CORES, k)] := perCore[Cell(h, MAX_CORES, k)] + 1;
      OneMorePackage(s, i);
      OneMore(s, i, s[i].pkg, 0);
      SameRow(s, i, h, k, n, pp, pc, ci);
      ghost var same, t: nat := ci[Cell(h, n, k)], Threads(s, i, s[i]) + 1;
      assert pp[h := pp[h]] == pp && ci[Cell(h, n, k) := same] == ci;
      AllRows(s, i, h, n, pp, pc, ci, pp[h], k, t, same);
      assert perCore[..] == pc[Cell(h, MAX_CORES, k) := t];
      PairsGrow(s, i);
      NumberedGrows(i, h, k);
    }

    /** A new core of package `h`. */
    method AddCore(i: nat, n: nat, slots: nat, h: nat, core: nat, pkgIds: array<nat>, coreIds: array<nat>, ghost before: nat) returns (ok: bool)
      requires Shape() && i < n <= ids.Length && n < perPkg.Length && Work(n, slots, pkgIds, coreIds)
      requires Counted(i, n, pkgIds, coreIds, before) && packageORD[i] == h
      requires h < |Packages(ids[..], i)| <= slots && Packages(ids[..], i)[h] == ids[i].pkg
      requires ids[i].core !in Cores(ids[..], i, ids[i].pkg) && core == |Cores(ids[..], i, ids[i].pkg)| < MAX_CORES
      modifies Written(), coreIds
      ensures ok && Counted(i + 1, n, pkgIds, coreIds, before)
    {
      hide Packages, Cores, Threads, Rows, Row, Numbered, Pairs, Cell;
      ghost var s, pp, pc, ci := ids[..], perPkg[..], perCore[..], coreIds[..];
      RowFacts(s, i, h, n, pp, pc, ci);
      CellInside(h, slots, n, core);
      CellInside(h, perPkg.Length, MAX_CORES, core);
      if Cell(h, n, core) >= coreIds.Length {
        return false;
      }
      coreIds[Cell(h, n, core)] := ids[i].core;
      perCore[Cell(h, MAX_CORES, core)] := 1;
      perPkg[h] := perPkg[h] + 1;
      coreORD[i] := core;
      threadORD[i] := 0;
      coreCount := coreCount + 1;
      OneMorePackage(s, i);
      OneMore(s, i, s[i].pkg, 0);
      LongerRow(s, i, h, core, n, pp, pc, ci);
      AllRows(s, i, h, n, pp, pc, ci, core + 1, core, 1, s[i].core);
      ghost var count: nat := core + 1;
      assert perPkg[..] == pp[h := count] && perCore[..] == pc[Cell(h, MAX_CORES, core) := 1]
             && coreIds[..] == ci[Cell(h, n, core) := s[i].core];
      PairsGrow(s, i);
      ListedIffThreads(s, i, s[i].pkg, s[i].core);
      NumberedGrows(i, h, core);
      return true;
    }

    /** The body of the loop. */
    method Number(i: nat, n: nat, slots: nat, maxPackage: nat, pkgIds: array<nat>, coreIds: array<nat>, ghost before: nat)
      returns (maxPackage': nat, ok: bool)
      requires Shape() && i < n <= ids.Length && n < perPkg.Length && Work(n, slots, pkgIds, coreIds)
      requires Counted(i, n, pkgIds, coreIds, before) && maxPackage == |Packages(ids[..], i)| <= slots
      modifies Written(), pkgIds, coreIds
      ensures ok <==> NotFull(ids[..], i) && |Packages(ids[..], i + 1)| <= slots
      ensures ok ==> Counted(i + 1, n, pkgIds, coreIds, before) && maxPackage' == |Packages(ids[..], i + 1)|
    {
      hide Packages, Cores, Threads, Rows, Row, Numbered, Pairs, Cell;
      ghost var s, d := ids[..], Packages(ids[..], i);
      OneMorePackage(s, i);
      assert forall j :: 0 <= j < |d| ==> pkgIds[..|d|][j] == d[j];
      var h := Find(pkgIds, 0, maxPackage, ids[i].pkg);
      if h < maxPackage {
        assert pkgIds[h] == d[h];
        ok := InKnownPackage(i, n, slots, h, pkgIds, coreIds, before);
        maxPackage' := maxPackage;
      } else {
        assert forall j :: 0 <= j < |d| ==> d[j] != ids[i].pkg;
        ok := InNewPackage(i, n, slots, h, pkgIds, coreIds, before);
        maxPackage' := maxPackage + 1;
      }
    }

    /** The counts of package `h` and of its cores are the numbers of distinct cores and of threads. */
    ghost predicate CountsOf(n: nat, h: nat)
      requires n <= ids.Length && h < |Packages(ids[..], n)|
      reads ids, perPkg, perCore
    {
      var p := Packages(ids[..], n)[h];
      && h < perPkg.Length && perPkg[h] == |Cores(ids[..], n, p)|
      && forall k :: 0 <= k < |Cores(ids[..], n, p)| ==>
           && Cell(h, MAX_CORES, k) < perCore.Length
           && perCore[Cell(h, MAX_CORES, k)] == Threads(ids[..], n, Ids(p, Cores(ids[..], n, p)[k]))
    }

    lemma Totals(n: nat, pkgIds: array<nat>, coreIds: array<nat>, before: nat)
      requires Shape() && n <= ids.Length && Counted(n, n, pkgIds, coreIds, before)
      ensures Numbered(n) && coreCount == before + |Pairs(ids[..], n)|
      ensures forall h :: 0 <= h < |Packages(ids[..], n)| ==> CountsOf(n, h)
    {
      hide Packages, Cores, Threads, Numbered, Pairs, Cell, Row;
      forall h | 0 <= h < |Packages(ids[..], n)| ensures CountsOf(n, h) {
        assert Row(ids[..], n, Packages(ids[..], n)[h], h, n, perPkg[..], perCore[..], coreIds[..]);
        RowEntries(ids[..], n, Packages(ids[..], n)[h], h, n, perPkg[..], perCore[..], coreIds[..]);
      }
    }

    /** Fills the tables, or returns 1. */
    method AnalyzeCPUHierarchy(n: nat) returns (status: int)
      requires Shape() && n <= ids.Length && n * Pow2(pkgSelectMaskShift) < WORD
      modifies Written()
      ensures status == 0 || status == 1
      ensures status == 0 <==> Succeeds(ids[..], n, perPkg.Length, Pow2(pkgSelectMaskShift))
      ensures status == 0 ==> Numbered(n)
      ensures status == 0 ==> packageCount == |Packages(ids[..], n)| && coreCount == old(coreCount) + |Pairs(ids[..], n)|
      ensures status == 0 ==> forall h :: 0 <= h < |Packages(ids[..], n)| ==> CountsOf(n, h)
    {
      hide Packages, Cores, Threads, Rows, Numbered, Pairs, Cell, NotFull, Counted, Pow2, CountsOf;
      var maxPackage := 0;
      var slots := Pow2(pkgSelectMaskShift);
      var pkgIds := new nat[n];
      var coreIds := new nat[n * slots];
      if n >= perPkg.Length {
        return 1;
      }
      Start(n, pkgIds, coreIds);
      assert coreIds.Length == Cell(slots, n, 0) by {
        SlotCells(slots, n);
      }
      var i := 0;
      while i < n
        invariant 0 <= i <= n
        invariant Counted(i, n, pkgIds, coreIds, old(coreCount)) && maxPackage == |Packages(ids[..], i)|
        invariant maxPackage <= slots && forall j :: 0 <= j < i ==> NotFull(ids[..], j)
      {
        var ok;
        maxPackage, ok := Number(i, n, slots, maxPackage, pkgIds, coreIds, old(coreCount));
        PackagesGrow(ids[..], i + 1, n);
        if !ok {
          return 1;
        }
        i := i + 1;
      }
      Totals(n, pkgIds, coreIds, old(coreCount));
      packageCount := maxPackage;
      return 0;
    }
  }
}
