/** The sub-IDs of an initial APIC ID, from contribs/cpu-topology/cpu_topo.c: the masks come from the
    numbers of IDs that CPUID reports.  Every word is 64 bits wide here; the IDs are 32-bit ones. */
module ApicId {

  type word = bv64

  function Shl(x: word, w: word): word {
    if w < 64 then x << w else 0
  }

  function Shr(x: word, w: word): word {
    if w < 64 then x >> w else 0
  }

  /** All ones in the low `w` bits. */
  function Ones(w: word): word {
    Shl(1, w) - 1
  }

  predicate BitSet(x: word, i: word) {
    x & Shl(1, i) != 0
  }

  lemma NextBit(mask: word, i: word)
    requires 0 < i <= 64 && Shr(mask, i) == 0
    ensures BitSet(mask, i - 1) ==> Shr(mask, i - 1) == 1
    ensures !BitSet(mask, i - 1) ==> Shr(mask, i - 1) == 0
    ensures BitSet(mask, i - 1) ==> mask != 0
  {
  }

  lemma NoShift(mask: word)
    ensures Shr(mask, 0) == mask && Shr(mask, 64) == 0
  {
  }

  /** myBitScanReverse: the highest bit set in `mask`. */
  method BitScanReverse(mask: word) returns (found: bool, index: word)
    ensures found <==> mask != 0
    ensures found ==> index < 64 && Shr(mask, index) == 1
  {
    hide Shr, Shl, BitSet;
    NoShift(mask);
    var i: word := 64;
    index := 0;
    while i > 0
      invariant i <= 64 && Shr(mask, i) == 0
      decreases i
    {
      NextBit(mask, i);
      if BitSet(mask, i - 1) {
        return true, i - 1;
      }
      i := i - 1;
    }
    return false, 0;
  }

  /** Fields of `w` bits have room for `n` values, and no narrower ones have. */
  predicate Selects(w: word, n: word) {
    w <= 31 && n - 1 <= Ones(w) && (w > 0 ==> Ones(w - 1) < n - 1)
  }

  /** Twice `n` less one, in 64 bits: for 0 all ones. */
  function Twice(n: word): word {
    n * 2 - 1
  }

  lemma TopOfTwice(n: word, i: word)
    requires 1 <= n <= 0x8000_0000 && i < 64 && Shr(Twice(n), i) == 1
    ensures Selects(i, n)
  {
    assert Shl(1, i) <= 2 * n - 1;
  }

  lemma TopTooHigh(n: word, i: word)
    requires n <= 0xffff_ffff && i < 64 && Shr(Twice(n), i) == 1
    ensures i > 31 <==> n == 0 || n > 0x8000_0000
  {
  }

  lemma TwiceNotZero(n: word)
    ensures Twice(n) != 0
  {
  }

  /** createMask: for up to 2^31 entries the narrowest field that tells them apart, and its mask; for the
      width 31 the mask has a bit more.  For 0 entries, and for more, a 32-bit number is shifted too far. */
  method CreateMask(numEntries: word) returns (ok: bool, mask: word, width: word)
    requires numEntries <= 0xffff_ffff
    ensures ok <==> 1 <= numEntries <= 0x8000_0000
    ensures ok ==> Selects(width, numEntries) && mask == if width == 31 then 0xffff_ffff else Ones(width)
  {
    hide Shr, Shl, Ones, Selects, Twice;
    var found, i := BitScanReverse(Twice(numEntries));
    TwiceNotZero(numEntries);
    if !found {
      return true, 0, 0;
    }
    TopTooHigh(numEntries, i);
    if i > 31 {
      return false, 0, i;
    }
    TopOfTwice(numEntries, i);
    return true, if i == 31 then 0xffff_ffff else Ones(i), i;
  }

  lemma NarrowMask(w: word, n: word)
    requires 1 <= n <= 255 && Selects(w, n)
    ensures w <= 8
  {
  }

  /** A count of at most 8 bits as a word. */
  lemma CountAsWord(n: nat)
    requires n <= 255
    ensures n as word <= 255 && (1 <= n as word <==> 1 <= n)
  {
    if n >= 1 {
      PositiveAsWord(n);
    }
  }

  lemma PositiveAsWord(n: nat)
    requires 1 <= n <= 255
    ensures n as word >= 1
  {
  }

  lemma QuotientRange(n: nat, d: nat)
    requires d >= 1
    ensures n / d <= n && (1 <= n / d <==> d <= n)
  {
    if d <= n {
      assert n / d >= 1;
    }
  }

  function Xor32(m: word): word {
    0xffff_ffff ^ m
  }

  function And(x: word, y: word): word {
    x & y
  }

  function Or(x: word, y: word): word {
    x | y
  }

  function Plus(x: word, y: word): word {
    x + y
  }

  /** Three masks divide the 32 bits of an ID, into a lowest field of `s` bits, one of `c` bits and the
      rest. */
  ghost predicate Divide(smtMask: word, coreMask: word, pkgMask: word, s: word, c: word) {
    s <= 8 && c <= 8 && smtMask == Ones(s) && coreMask == Shl(Ones(c), s) && pkgMask == Xor32(Or(coreMask, smtMask))
  }

  /** The masks of glbl_ptr, for threads in a core, cores in a package, and packages. */
  class Masks {
    var smtSelectMask: word
    var smtMaskWidth: word
    var coreSelectMask: word
    var pkgSelectMask: word
    var pkgSelectMaskShift: word
    /** The width of the core field. */
    ghost var coreWidth: word

    ghost predicate Valid()
      reads this
    {
      && pkgSelectMaskShift == Plus(coreWidth, smtMaskWidth)
      && Divide(smtSelectMask, coreSelectMask, pkgSelectMask, smtMaskWidth, coreWidth)
    }

    /** CPUTopologyLegacyConstants, from the numbers of IDs of a package for threads and for cores.  When
        a package has more core IDs than thread IDs, the number of threads in a core comes out as 0 and
        createMask fails. */
    method SetLegacyConstants(corePlusSmtMaxCount: nat, coreMaxCount: nat) returns (ok: bool)
      requires corePlusSmtMaxCount <= 255 && 1 <= coreMaxCount <= 64
      modifies this
      ensures ok <==> coreMaxCount <= corePlusSmtMaxCount
      ensures ok ==> && Valid() && corePlusSmtMaxCount / coreMaxCount <= 255
                     && Selects(smtMaskWidth, (corePlusSmtMaxCount / coreMaxCount) as word) && Selects(coreWidth, coreMaxCount as word)
    {
      hide Valid, Selects;
      var smtMaxCount := corePlusSmtMaxCount / coreMaxCount;
      QuotientRange(corePlusSmtMaxCount, coreMaxCount);
      CountAsWord(smtMaxCount);
      CountAsWord(coreMaxCount);
      ok := SetMasks(smtMaxCount as word, coreMaxCount as word);
    }

    /** The same from the numbers of thread IDs of a core and of core IDs of a package. */
    method SetMasks(smtMaxCount: word, coreMaxCount: word) returns (ok: bool)
      requires smtMaxCount <= 255 && 1 <= coreMaxCount <= 255
      modifies this
      ensures ok <==> 1 <= smtMaxCount
      ensures ok ==> Valid() && Selects(smtMaskWidth, smtMaxCount) && Selects(coreWidth, coreMaxCount)
    {
      hide Shl, Ones, Selects, Xor32, Or, Plus;
      ok, smtSelectMask, smtMaskWidth := CreateMask(smtMaxCount);
      if !ok {
        return;
      }
      ok, coreSelectMask, pkgSelectMaskShift := CreateMask(coreMaxCount);
      coreWidth := pkgSelectMaskShift;
      NarrowMask(smtMaskWidth, smtMaxCount);
      NarrowMask(coreWidth, coreMaxCount);
      pkgSelectMaskShift := Plus(pkgSelectMaskShift, smtMaskWidth);
      coreSelectMask := Shl(coreSelectMask, smtMaskWidth);
      pkgSelectMask := Xor32(Or(coreSelectMask, smtSelectMask));
    }

    /** The fields ParseIDS4EachThread stores for one logical processor: they can be put together again,
        so different IDs differ in some field. */
    method ParseIds(apicId: word) returns (pkg: word, core: word, smt: word)
      requires Valid() && apicId <= 0xffff_ffff
      ensures Whole(apicId, pkg, core, smt, smtMaskWidth, coreWidth)
    {
      hide Shl, Shr, Ones, Xor32, Or, Plus, And, Joined, Divide, Whole;
      pkg := Shr(And(apicId, pkgSelectMask), pkgSelectMaskShift);
      core := Shr(And(apicId, coreSelectMask), smtMaskWidth);
      smt := And(apicId, smtSelectMask);
      Decompose(apicId, smtSelectMask, coreSelectMask, pkgSelectMask, smtMaskWidth, coreWidth);
    }
  }

  /** The ID put together from its fields. */
  function Joined(pkg: word, core: word, smt: word, smtWidth: word, pkgShift: word): word {
    Or(Or(Shl(pkg, pkgShift), Shl(core, smtWidth)), smt)
  }

  predicate AtMost(x: word, y: word) {
    x <= y
  }

  /** The fields have their widths and together are the ID. */
  ghost predicate Whole(a: word, pkg: word, core: word, smt: word, s: word, c: word) {
    a == Joined(pkg, core, smt, s, Plus(c, s)) && AtMost(smt, Ones(s)) && AtMost(core, Ones(c))
  }

  ghost predicate Apart(x: word, y: word) {
    And(x, y) == 0
  }

  lemma ShiftBackLow(x: word, s: word)
    requires s <= 4 && Apart(x, Ones(s))
    ensures Shl(Shr(x, s), s) == x
  {
  }

  lemma ShiftBackMiddle(x: word, s: word)
    requires 4 < s <= 8 && Apart(x, Ones(s))
    ensures Shl(Shr(x, s), s) == x
  {
  }

  lemma ShiftBackHigh(x: word, s: word)
    requires 8 < s <= 16 && Apart(x, Ones(s))
    ensures Shl(Shr(x, s), s) == x
  {
  }

  lemma ShiftBack(x: word, s: word)
    requires s <= 16 && Apart(x, Ones(s))
    ensures Shl(Shr(x, s), s) == x
  {
    hide Shl, Shr, Ones, And, Apart;
    if s <= 4 {
      ShiftBackLow(x, s);
    } else if s <= 8 {
      ShiftBackMiddle(x, s);
    } else {
      ShiftBackHigh(x, s);
    }
  }

  lemma MasksJoin(s: word, c: word)
    requires s <= 8 && c <= 8
    ensures Or(Shl(Ones(c), s), Ones(s)) == Ones(Plus(c, s)) && Apart(Shl(Ones(c), s), Ones(s))
    ensures Plus(c, s) < 64
  {
  }

  lemma Masked(a: word, m: word, low: word)
    requires Apart(m, low)
    ensures Apart(And(a, m), low)
  {
  }

  lemma Complement(m: word)
    ensures Apart(Xor32(m), m) || m > 0xffff_ffff
  {
  }

  lemma OnesSmall(w: word)
    requires w <= 16
    ensures Ones(w) <= 0xffff_ffff
  {
  }

  lemma Parts(a: word, coreMask: word, smtMask: word)
    requires a <= 0xffff_ffff
    ensures a == Or(Or(And(a, Xor32(Or(coreMask, smtMask))), And(a, coreMask)), And(a, smtMask))
    ensures AtMost(And(a, smtMask), smtMask)
  {
  }

  lemma CoreField(a: word, s: word, c: word)
    requires s <= 8 && c <= 8
    ensures AtMost(Shr(And(a, Shl(Ones(c), s)), s), Ones(c))
  {
  }

  lemma SmallSum(s: word, c: word)
    requires s <= 8 && c <= 8
    ensures Plus(c, s) <= 16
  {
  }

  lemma FieldsApart(a: word, s: word, c: word, m: word)
    requires s <= 8 && c <= 8 && m == Or(Shl(Ones(c), s), Ones(s))
    ensures Apart(And(a, Xor32(m)), Ones(Plus(c, s))) && Apart(And(a, Shl(Ones(c), s)), Ones(s))
  {
    hide Shl, Ones, Xor32, Or, Plus, And, Apart;
    MasksJoin(s, c);
    SmallSum(s, c);
    OnesSmall(Plus(c, s));
    Complement(m);
    Masked(a, Xor32(m), m);
    Masked(a, Shl(Ones(c), s), Ones(s));
  }

  /** No bit is lost and none is read twice. */
  lemma Decompose(a: word, smtMask: word, coreMask: word, pkgMask: word, s: word, c: word)
    requires a <= 0xffff_ffff && Divide(smtMask, coreMask, pkgMask, s, c)
    ensures Whole(a, Shr(And(a, pkgMask), Plus(c, s)), Shr(And(a, coreMask), s), And(a, smtMask), s, c)
  {
    hide Shl, Shr, Ones, Xor32, Or, Plus, And, Apart, AtMost;
    FieldsApart(a, s, c, Or(coreMask, smtMask));
    SmallSum(s, c);
    ShiftBack(And(a, pkgMask), Plus(c, s));
    ShiftBack(And(a, coreMask), s);
    Parts(a, coreMask, smtMask);
    CoreField(a, s, c);
  }
}
