/** The cron patterns of src/cron.c: the field parser, the pattern parser and the test of one tick. */
module Cron {

  // ----- Text -----

  /** The character at `p`; the string ends with a NUL. */
  function At(text: string, p: nat): char {
    if p < |text| then text[p] else '\0'
  }

  predicate IsSpace(c: char) {
    c == ' ' || c == '\t' || c == '\n'
  }

  predicate Stops(c: char) {
    IsSpace(c) || c == '\0'
  }

  predicate IsDigit(c: char) {
    '0' <= c <= '9'
  }

  function DigitsEnd(text: string, p: nat): (e: nat)
    requires p <= |text|
    ensures p <= e <= |text|
    decreases |text| - p
  {
    if IsDigit(At(text, p)) then DigitsEnd(text, p + 1) else p
  }

  function Value(d: string): nat {
    if d == "" then 0
    else Value(d[..|d| - 1]) * 10 + if IsDigit(d[|d| - 1]) then (d[|d| - 1] - '0') as nat else 0
  }

  predicate IsNumber(d: string) {
    d != "" && forall i :: 0 <= i < |d| ==> IsDigit(d[i])
  }

  function Trim(t: string): string {
    if t != "" && IsSpace(t[0]) then Trim(t[1..]) else t
  }

  // ----- Names -----

  predicate IsLetter(c: char) {
    'a' <= c <= 'z' || 'A' <= c <= 'Z'
  }

  /** A list of names that start with a letter, none of them the beginning of another. */
  predicate PrefixFree(names: seq<string>) {
    && (forall i :: 0 <= i < |names| ==> names[i] != "" && IsLetter(names[i][0]))
    && forall i, j :: 0 <= i < |names| && 0 <= j < |names| && i != j ==> !(names[i] <= names[j])
  }

  type Names = names: seq<string> | PrefixFree(names)

  /** dow_array: a name stands for its index, so those with a capital for 7 to 13. */
  function WeekdayList(): seq<string> {
    ["sun", "mon", "tue", "wed", "thu", "fri", "sat", "Sun", "Mon", "Tue", "Wed", "Thu", "Fri", "Sat"]
  }

  /** mon_array: those with a capital stand for 12 to 23. */
  function MonthList(): seq<string> {
    ["jan", "feb", "mar", "apr", "may", "jun", "jul", "aug", "sep", "oct", "nov", "dec",
     "Jan", "Feb", "Mar", "Apr", "May", "Jun", "Jul", "Aug", "Sep", "Oct", "Nov", "Dec"]
  }

  function Weekdays(): Names {
    WeekdaysApart();
    WeekdayList()
  }

  function Months(): Names {
    MonthsApart();
    MonthList()
  }

  function Key(name: string): int
    requires |name| == 3
  {
    (name[0] as int * 256 + name[1] as int) * 256 + name[2] as int
  }

  ghost predicate AllDifferent(keys: seq<int>) {
    forall i, j :: 0 <= i < j < |keys| ==> keys[i] != keys[j]
  }

  /** Different names of three letters are no beginnings of each other. */
  lemma KeysApart(names: seq<string>, keys: seq<int>)
    requires |names| == |keys| && AllDifferent(keys)
    requires forall i :: 0 <= i < |names| ==> |names[i]| == 3 && IsLetter(names[i][0]) && Key(names[i]) == keys[i]
    ensures PrefixFree(names)
  {
    forall i, j | 0 <= i < |names| && 0 <= j < |names| && i != j ensures !(names[i] <= names[j]) {
      assert Key(names[i]) != Key(names[j]);
    }
  }

  lemma WeekdaysApart()
    ensures PrefixFree(WeekdayList())
  {
    KeysApart(WeekdayList(), [7566702, 7171950, 7632229, 7824740, 7628917, 6713961, 7561588,
                              5469550, 5074798, 5535077, 5727588, 5531765, 4616809, 5464436]);
  }

  ghost function SmallKeys(): seq<int> {
    [6971758, 6710626, 7168370, 6385778, 7168377, 6976878, 6976876, 6387047, 7562608, 7299956, 7237494, 6579555]
  }

  ghost function CapitalKeys(): seq<int> {
    [4874606, 4613474, 5071218, 4288626, 5071225, 4879726, 4879724, 4289895, 5465456, 5202804, 5140342, 4482403]
  }

  lemma SmallKeysDiffer()
    ensures AllDifferent(SmallKeys()) && forall i :: 0 <= i < 12 ==> SmallKeys()[i] > 6000000
  {
  }

  lemma CapitalKeysDiffer()
    ensures AllDifferent(CapitalKeys()) && forall i :: 0 <= i < 12 ==> CapitalKeys()[i] < 6000000
  {
  }

  lemma MonthsApart()
    ensures PrefixFree(MonthList())
  {
    SmallKeysDiffer();
    CapitalKeysDiffer();
    KeysApart(MonthList(), SmallKeys() + CapitalKeys());
  }

  /** The first name from the `i`-th on that `t` begins with. */
  function NameFrom(names: seq<string>, t: string, i: nat): (k: nat)
    requires i <= |names|
    ensures i <= k <= |names| && (k < |names| ==> names[k] <= t)
    decreases |names| - i
  {
    if i == |names| || names[i] <= t then i else NameFrom(names, t, i + 1)
  }

  lemma BothBegin(a: string, b: string, t: string)
    requires a <= t && b <= t
    ensures a <= b || b <= a
  {
    assert a == t[..|a|] && b == t[..|b|];
  }

  /** A name is found, whatever follows it. */
  lemma {:induction false} NameFound(names: Names, k: nat, t: string, i: nat)
    requires i <= k < |names| && names[k] <= t
    ensures NameFrom(names, t, i) == k
    decreases k - i
  {
    if i < k {
      if names[i] <= t {
        BothBegin(names[i], names[k], t);
      }
      NameFound(names, k, t, i + 1);
    }
  }

  const INT := 0x1_0000_0000
  const LONG := 0x8000_0000_0000_0000

  /** What strtol returns for `v`, converted to int. */
  function ToInt(v: int): int {
    var clamped := if v >= LONG then LONG - 1 else if v < -LONG then -LONG else v;
    var low := clamped % INT;
    if low >= INT / 2 then low - INT else low
  }

  /** The remainder of C, for a positive divisor. */
  function Rem(x: int, m: int): int
    requires m > 0
  {
    if x >= 0 then x % m else -((-x) % m)
  }

  // ----- Fields and their meaning -----

  /** An item of a comma list; an empty `step` stands for no step. */
  datatype Item =
    | Star(step: string)
    | One(first: string, step: string)
    | Range(first: string, last: string, step: string)

  /** The text of a step, followed by `cont`. */
  function StepText(step: string, cont: string): string {
    if step == "" then cont else ['/'] + (step + cont)
  }

  function ItemText(it: Item, cont: string): string {
    match it
    case Star(step) => ['*'] + StepText(step, cont)
    case One(first, step) => first + StepText(step, cont)
    case Range(first, last, step) => first + (['-'] + (last + StepText(step, cont)))
  }

  function Text(items: seq<Item>, tail: string): string
    decreases |items|, 1
  {
    if items == [] then tail else ItemText(items[0], After(items, tail))
  }

  /** What follows the first item. */
  function After(items: seq<Item>, tail: string): string
    requires items != []
    decreases |items|, 0
  {
    if |items| == 1 then tail else [','] + Text(items[1..], tail)
  }

  function Step(step: string): nat {
    if step == "" then 1 else Value(step)
  }

  /** What a number or a name stands for. */
  function Place(d: string, off: int, names: Names): int {
    if IsNumber(d) then Value(d) + off else NameFrom(names, d, 0)
  }

  predicate IsPlace(d: string, names: Names) {
    IsNumber(d) || d in names
  }

  /** Where an in-range item starts and ends. */
  function First(it: Item, off: int, names: Names): int {
    if it.Star? then 0 else Place(it.first, off, names)
  }

  function Last(it: Item, mod: nat, off: int, names: Names): int {
    match it
    case Star(_) => mod - 1
    case One(first, _) => Place(first, off, names)
    case Range(_, last, _) => Place(last, off, names)
  }

  predicate GoodStep(step: string) {
    step == "" || (IsNumber(step) && 1 <= Value(step) < INT / 2)
  }

  predicate GoodNumber(d: string, mod: nat, off: int, names: Names) {
    IsPlace(d, names) && 0 <= Place(d, off, names) < mod
  }

  predicate GoodItem(it: Item, mod: nat, off: int, names: Names) {
    && GoodStep(it.step)
    && match it
       case Star(_) => true
       case One(first, _) => GoodNumber(first, mod, off, names)
       case Range(first, last, _) => GoodNumber(first, mod, off, names) && GoodNumber(last, mod, off, names)
  }

  /** Every number and name is in range. */
  predicate GoodField(items: seq<Item>, mod: nat, off: int, names: Names) {
    items != [] && forall i :: 0 <= i < |items| ==> GoodItem(items[i], mod, off, names)
  }

  /** Only the shape is right: the numbers and names may be any. */
  predicate ShapedItem(it: Item, names: Names) {
    && (it.step == "" || IsNumber(it.step))
    && match it
       case Star(_) => true
       case One(first, _) => IsPlace(first, names)
       case Range(first, last, _) => IsPlace(first, names) && IsPlace(last, names)
  }

  predicate ShapedField(items: seq<Item>, names: Names) {
    items != [] && forall i :: 0 <= i < |items| ==> ShapedItem(items[i], names)
  }

  /** How far `x` is after `a` when counting up to `mod` and then from 0 again. */
  function Distance(a: nat, x: nat, mod: nat): nat
    requires a < mod && x < mod
  {
    if a <= x then x - a else x + mod - a
  }

  /** `x` is in the cyclic range from `a` to `b`, at a multiple of the step. */
  predicate Hit(a: nat, b: nat, step: int, mod: nat, x: nat)
    requires a < mod && b < mod && x < mod
  {
    var d := Distance(a, x, mod);
    d <= Distance(a, b, mod) && (d == 0 || (step > 0 && d % step == 0))
  }

  predicate HitBy(it: Item, mod: nat, off: int, names: Names, x: nat)
    requires x < mod && GoodItem(it, mod, off, names)
  {
    Hit(First(it, off, names), Last(it, mod, off, names), Step(it.step), mod, x)
  }

  /** `x` is in the union of the items. */
  predicate Selected(items: seq<Item>, mod: nat, off: int, names: Names, x: nat)
    requires x < mod && forall i :: 0 <= i < |items| ==> GoodItem(items[i], mod, off, names)
  {
    exists i :: 0 <= i < |items| && HitBy(items[i], mod, off, names, x)
  }

  // ----- What the parser does with any text -----

  function SpaceEnd(text: string, p: nat): (e: nat)
    requires p <= |text|
    ensures p <= e <= |text|
    decreases |text| - p
  {
    if IsSpace(At(text, p)) || At(text, p) == '\U{0B}' || At(text, p) == '\U{0C}' || At(text, p) == '\r' then SpaceEnd(text, p + 1) else p
  }

  /** strtol in base 10, converted to int: the value, and where it ends. */
  function StrToInt(text: string, p: nat): (r: (int, nat))
    requires p <= |text|
    ensures p <= r.1 <= |text|
  {
    var a := SpaceEnd(text, p);
    var b := if At(text, a) == '-' || At(text, a) == '+' then a + 1 else a;
    var e := DigitsEnd(text, b);
    if e == b then (0, p)
    else
      var n: int := Value(text[b..e]);
      (ToInt(if At(text, a) == '-' then -n else n), e)
  }

  function WhiteEnd(text: string, p: nat): (e: nat)
    requires p <= |text|
    ensures p <= e <= |text|
    decreases |text| - p
  {
    if IsSpace(At(text, p)) then WhiteEnd(text, p + 1) else p
  }

  /** The place after the field and the white space behind it, or a failure.  `Outside`: the source
      indexes below its array. */
  datatype Parsed = Next(ptr: nat) | Failed | Outside

  /** One run of the filling loop: from a place, taken modulo the size, up to another. */
  datatype Fill = Fill(from: int, until: nat, step: int)

  datatype Scanned = Scanned(end: Parsed, fills: seq<Fill>)

  datatype Term = NoTerm | Term(n1: int, n2: int, q: nat)

  /** A star, a number or a name; `n1` is negative unless a number or a name came before. */
  function ReadTerm(text: string, p: nat, mod: nat, off: int, names: Names, n1: int): (t: Term)
    requires p < |text|
    ensures t.Term? ==> p < t.q <= |text|
  {
    if text[p] == '*' then Term(0, mod - 1, p + 1)
    else if IsDigit(text[p]) then
      var (v, q) := StrToInt(text, p);
      DigitsAdvance(text, p);
      if n1 < 0 then Term(v + off, -1, q) else Term(n1, v + off, q)
    else
      var i := NameFrom(names, text[p..], 0);
      if i == |names| then NoTerm
      else
        var q := p + |names[i]|;
        if n1 < 0 then Term(i, -1, q) else Term(n1, i, q)
  }

  lemma DigitsAdvance(text: string, p: nat)
    requires p < |text| && IsDigit(text[p])
    ensures DigitsEnd(text, p) > p && SpaceEnd(text, p) == p && StrToInt(text, p).1 > p
    ensures StrToInt(text, p) == (ToInt(Value(text[p..DigitsEnd(text, p)])), DigitsEnd(text, p))
  {
  }

  /** The step behind an item, and where it ends. */
  function ReadStep(text: string, p: nat): (r: (int, nat))
    requires p <= |text|
    ensures p <= r.1 <= |text|
  {
    if At(text, p) == '/' then StrToInt(text, p + 1) else (1, p)
  }

  /** The field parser: the ranges it fills, and how it ends. */
  function Scan(text: string, p: nat, mod: nat, off: int, names: Names, n1: int): (s: Scanned)
    requires p <= |text| && mod > 0
    ensures s.end.Next? ==> p <= s.end.ptr <= |text|
    ensures forall i :: 0 <= i < |s.fills| ==> s.fills[i].until < mod
    decreases |text| - p
  {
    if Stops(At(text, p)) then Scanned(Next(WhiteEnd(text, p)), [])
    else
      match ReadTerm(text, p, mod, off, names, n1)
      case NoTerm => Scanned(Failed, [])
      case Term(m1, m2, q) =>
        if At(text, q) == '-' && m2 < 0 then Scan(text, q + 1, mod, off, names, m1)
        else ScanEnd(text, q, mod, off, names, m1, if m2 < 0 then m1 else m2)
  }

  /** From the end of an item's numbers on. */
  function ScanEnd(text: string, q: nat, mod: nat, off: int, names: Names, from: int, until: int): (s: Scanned)
    requires q <= |text| && mod > 0
    ensures s.end.Next? ==> q <= s.end.ptr <= |text|
    ensures forall i :: 0 <= i < |s.fills| ==> s.fills[i].until < mod
    decreases |text| - q
  {
    var (step, e) := ReadStep(text, q);
    if Rem(from, mod) < 0 then Scanned(Outside, [])
    else if until < 0 || until >= mod then Scanned(Failed, [])
    else
      var rest := if At(text, e) == ',' then Scan(text, e + 1, mod, off, names, -1)
                  else if Stops(At(text, e)) then Scanned(Next(WhiteEnd(text, e)), [])
                  else Scanned(Failed, []);
      Scanned(rest.end, [Fill(from, until, step)] + rest.fills)
  }

  /** `x` is in the union of the ranges. */
  predicate Covered(fills: seq<Fill>, mod: nat, x: nat)
    requires x < mod
  {
    exists i :: 0 <= i < |fills| && CoveredBy(fills[i], mod, x)
  }

  predicate CoveredBy(f: Fill, mod: nat, x: nat)
    requires x < mod
  {
    f.until < mod && Hit(f.from % mod, f.until, f.step, mod, x)
  }

  // ----- Numbers -----

  lemma {:induction false} DigitsEndAt(text: string, p: nat, d: string, cont: string)
    requires p <= |text| && text[p..] == d + cont && (forall i :: 0 <= i < |d| ==> IsDigit(d[i]))
    requires cont == "" || !IsDigit(cont[0])
    ensures DigitsEnd(text, p) == p + |d| && text[p..p + |d|] == d && text[p + |d|..] == cont
    decreases |d|
  {
    assert text[p + |d|..] == text[p..][|d|..];
    assert text[p..p + |d|] == text[p..][..|d|];
    if d == "" {
      assert cont != "" ==> text[p] == cont[0];
    } else {
      assert text[p] == d[0];
      assert text[p + 1..] == d[1..] + cont;
      DigitsEndAt(text, p + 1, d[1..], cont);
    }
  }

  lemma SmallInt(v: int)
    requires -1 <= v < INT / 2
    ensures ToInt(v) == v
  {
  }

  method ParseInt(text: string, p: nat) returns (v: int, q: nat)
    requires p <= |text|
    ensures (v, q) == StrToInt(text, p)
  {
    hide ToInt, Value;
    q := p;
    while IsSpace(At(text, q)) || At(text, q) == '\U{0B}' || At(text, q) == '\U{0C}' || At(text, q) == '\r'
      invariant p <= q <= |text| && SpaceEnd(text, q) == SpaceEnd(text, p)
      decreases |text| - q
    {
      q := q + 1;
    }
    var negative := At(text, q) == '-';
    if negative || At(text, q) == '+' {
      q := q + 1;
    }
    if !IsDigit(At(text, q)) {
      return 0, p;
    }
    var begin := q;
    var n: int := 0;
    NoValue(text[begin..q]);
    while IsDigit(At(text, q))
      invariant begin <= q <= |text| && n == Value(text[begin..q])
      invariant DigitsEnd(text, q) == DigitsEnd(text, begin)
      decreases |text| - q
    {
      ValueNext(text, begin, q);
      n := n * 10 + (text[q] - '0') as int;
      q := q + 1;
    }
    v := ToInt(if negative then -n else n);
  }

  lemma NoValue(d: string)
    requires d == ""
    ensures Value(d) == 0
  {
  }

  lemma ValueNext(text: string, begin: nat, q: nat)
    requires begin <= q < |text| && IsDigit(text[q])
    ensures Value(text[begin..q + 1]) == Value(text[begin..q]) * 10 + (text[q] - '0') as int
  {
    assert text[begin..q + 1][..q - begin] == text[begin..q];
  }

  // ----- Filling a stepped cyclic range -----

  function Times(q: int, m: int): int {
    q * m
  }

  lemma TimesNext(q: int, m: int)
    ensures Times(q, m) == Times(q - 1, m) + m
  {
  }

  lemma {:induction false} TimesApart(q: int, d: int, m: int)
    requires m > 0 && q > d
    ensures Times(q, m) >= Times(d, m) + m
    decreases q - d
  {
    hide Times;
    TimesNext(q, m);
    if q - 1 > d {
      TimesApart(q - 1, d, m);
    }
  }

  lemma Quotient(x: int, m: int)
    requires m > 0
    ensures x == Times(x / m, m) + x % m && 0 <= x % m < m
  {
  }

  lemma ModUnique(x: int, q: int, r: int, m: int)
    requires m > 0 && x == Times(q, m) + r && 0 <= r < m
    ensures x % m == r
  {
    hide Times;
    var d := x / m;
    Quotient(x, m);
    if q > d {
      TimesApart(q, d, m);
    } else if d > q {
      TimesApart(d, q, m);
    }
  }

  lemma ModStep(t: nat, gap: nat, step: nat)
    requires step > 0 && (t + gap) % step == 0 && gap < step
    ensures t % step == 0 <==> gap == 0
  {
    hide Times;
    if t % step == 0 {
      Quotient(t, step);
      ModUnique(t + gap, t / step, gap, step);
    }
  }

  lemma ModNext(t: nat, step: nat)
    requires step > 0 && t % step == 0
    ensures (t + step) % step == 0
  {
    hide Times;
    Quotient(t, step);
    TimesNext(t / step + 1, step);
    ModUnique(t + step, t / step + 1, 0, step);
  }

  predicate Filled(a: nat, t: nat, skip: int, mod: nat, x: nat)
    requires a < mod && x < mod
  {
    var d := Distance(a, x, mod);
    d < t && (d == 0 || (skip > 0 && d % skip == 0))
  }

  /** The counter `s0` before the step to distance `t`. */
  predicate Counter(s0: int, t: nat, skip: int) {
    if skip > 0 then 1 <= s0 <= skip && (t + s0 - 1) % skip == 0
    else if t == 0 then s0 == 1 else s0 <= 0
  }

  lemma CounterStep(s0: int, t: nat, skip: int)
    requires Counter(s0, t, skip)
    ensures s0 == 1 <==> t == 0 || (skip > 0 && t % skip == 0)
    ensures Counter(if s0 == 1 then skip else s0 - 1, t + 1, skip)
  {
    if skip > 0 {
      ModStep(t, s0 - 1, skip);
      if s0 == 1 {
        ModNext(t, skip);
      }
    }
  }

  lemma RemNext(x: int, mod: nat)
    requires mod > 0
    ensures 0 <= x < mod ==> Rem(x, mod) == x
    ensures x == mod ==> Rem(x, mod) == 0
    ensures x >= 0 ==> Rem(x, mod) == x % mod && 0 <= x % mod < mod
  {
    var zero, one := 0, 1;
    assert Times(zero, mod) == 0 && Times(one, mod) == mod;
    hide Times;
    Quotient(x, mod);
    if 0 <= x < mod {
      ModUnique(x, zero, x, mod);
    } else if x == mod {
      ModUnique(x, one, 0, mod);
    }
  }

  /** The remainder is the index, unless it is negative: for a negative number that is no multiple. */
  lemma RemIndex(x: int, mod: nat)
    requires mod > 0
    ensures Rem(x, mod) < 0 <==> x < 0 && (-x) % mod != 0
    ensures Rem(x, mod) >= 0 ==> Rem(x, mod) == x % mod && 0 <= x % mod < mod
  {
    hide Times;
    Quotient(x, mod);
    if x < 0 {
      Quotient(-x, mod);
      if (-x) % mod == 0 {
        TimesNegative((-x) / mod, mod);
        ModUnique(x, -((-x) / mod), 0, mod);
      }
    }
  }

  lemma TimesNegative(q: int, m: int)
    ensures Times(-q, m) == -Times(q, m)
  {
  }

  /** The next place is at distance `t`. */
  lemma NextPlace(a: nat, n1: int, t: nat, mod: nat, from: int)
    requires a < mod && a == from % mod && t < mod && Rem(from, mod) >= 0
    requires if t == 0 then n1 == from - 1 else 0 <= n1 < mod && Distance(a, n1, mod) == t - 1
    ensures Rem(n1 + 1, mod) == if a + t < mod then a + t else a + t - mod
    ensures 0 <= Rem(n1 + 1, mod) < mod && Distance(a, Rem(n1 + 1, mod), mod) == t
  {
    if t == 0 {
      RemIndex(from, mod);
    } else {
      RemNext(n1 + 1, mod);
    }
  }

  datatype Filling = Full | Stopped | Below

  /** The do-while loop with its failsafe counter.  Its first index is the remainder of the start, which
      lies below the array for a negative start that is no multiple of the size; otherwise it ends well
      if and only if `until` is a place of the array. */
  method FillRange(ary: array<bool>, mod: nat, from: int, until: int, skip: int) returns (r: Filling)
    requires 0 < mod == ary.Length <= 1000
    modifies ary
    ensures r == Below <==> Rem(from, mod) < 0
    ensures r == Full <==> Rem(from, mod) >= 0 && 0 <= until < mod
    ensures r == Full ==> forall x :: 0 <= x < mod ==> (ary[x] <==> old(ary[x]) || Hit(from % mod, until, skip, mod, x))
  {
    hide Filled, Counter, Distance, Rem, Hit;
    var n1: int := from - 1;
    var s0, failsafe: int := 1, 1024;
    Quotient(from, mod);
    ghost var t: nat, a: nat := 0, from % mod;
    ghost var good := 0 <= until < mod && Rem(from, mod) >= 0;
    StartCounter(skip);
    Unfilled(a, skip, mod);
    var more := true;
    while more
      invariant 0 <= failsafe <= 1024 && (t == 0 ==> s0 == 1 && more) && (t > 0 ==> Rem(from, mod) >= 0)
      invariant good ==> failsafe == 1024 - t + (if more then 0 else 1)
      invariant !good ==> (more <==> failsafe > 0)
      invariant if t == 0 then n1 == from - 1 else 0 <= n1 < mod
      invariant good && t > 0 ==> Distance(a, n1, mod) == t - 1
      invariant good ==> if more then t <= Distance(a, until, mod) else n1 == until
      invariant good ==> t <= mod && Counter(s0, t, skip)
      invariant good ==> forall x :: 0 <= x < mod ==> (ary[x] <==> old(ary[x]) || Filled(a, t, skip, mod, x))
      decreases more, failsafe
    {
      if good {
        Near(a, until, mod);
        NextPlace(a, n1, t, mod, from);
        CounterStep(s0, t, skip);
        FillStep(a, t, skip, mod, Rem(n1 + 1, mod));
        Apart(a, Rem(n1 + 1, mod), until, mod);
      }
      RemIndex(n1 + 1, mod);
      n1 := Rem(n1 + 1, mod);
      s0 := s0 - 1;
      if s0 == 0 {
        if n1 < 0 {
          return Below;
        }
        ary[n1] := true;
        s0 := skip;
      }
      t := t + 1;
      if n1 != until {
        failsafe := failsafe - 1;
        more := failsafe != 0;
      } else {
        more := false;
      }
    }
    if good {
      AllFilled(a, until, skip, mod);
    }
    r := if failsafe != 0 then Full else Stopped;
  }

  lemma StartCounter(skip: int)
    ensures Counter(1, 0, skip)
  {
  }

  lemma Unfilled(a: nat, skip: int, mod: nat)
    requires a < mod
    ensures forall x :: 0 <= x < mod ==> !Filled(a, 0, skip, mod, x)
  {
  }

  lemma Near(a: nat, x: nat, mod: nat)
    requires a < mod && x < mod
    ensures 0 <= Distance(a, x, mod) < mod
  {
  }

  /** Places are told apart by their distance. */
  lemma Apart(a: nat, x: nat, y: nat, mod: nat)
    requires a < mod && x < mod && y < mod
    ensures x == y <==> Distance(a, x, mod) == Distance(a, y, mod)
  {
  }

  lemma FillStep(a: nat, t: nat, skip: int, mod: nat, at: nat)
    requires a < mod && at < mod && Distance(a, at, mod) == t
    ensures forall x :: 0 <= x < mod ==>
              (Filled(a, t + 1, skip, mod, x) <==>
               Filled(a, t, skip, mod, x) || (x == at && (t == 0 || (skip > 0 && t % skip == 0))))
  {
    forall x | 0 <= x < mod
      ensures Filled(a, t + 1, skip, mod, x) <==>
              Filled(a, t, skip, mod, x) || (x == at && (t == 0 || (skip > 0 && t % skip == 0)))
    {
      hide Distance;
      Apart(a, x, at, mod);
      Near(a, x, mod);
    }
  }

  lemma AllFilled(a: nat, until: nat, skip: int, mod: nat)
    requires a < mod && until < mod
    ensures forall x :: 0 <= x < mod ==>
              (Filled(a, Distance(a, until, mod) + 1, skip, mod, x) <==> Hit(a, until, skip, mod, x))
  {
  }


  // ----- Parsing one field -----

  method SkipWhite(text: string, p: nat) returns (q: nat)
    requires p <= |text|
    ensures q == WhiteEnd(text, p)
  {
    q := p;
    while IsSpace(At(text, q))
      invariant p <= q <= |text| && WhiteEnd(text, q) == WhiteEnd(text, p)
      decreases |text| - q
    {
      q := q + 1;
    }
  }

  /** The loop over the names. */
  method FindName(names: Names, text: string, p: nat) returns (i: nat)
    requires p <= |text|
    ensures i == NameFrom(names, text[p..], 0)
  {
    i := 0;
    while i < |names|
      invariant i <= |names| && NameFrom(names, text[p..], i) == NameFrom(names, text[p..], 0)
    {
      if names[i] <= text[p..] {
        return;
      }
      i := i + 1;
    }
  }

  method ParseTerm(text: string, p: nat, mod: nat, off: int, names: Names, n1: int) returns (t: Term)
    requires p < |text|
    ensures t == ReadTerm(text, p, mod, off, names, n1)
  {
    hide StrToInt;
    if text[p] == '*' {
      return Term(0, mod - 1, p + 1);
    }
    if IsDigit(text[p]) {
      var v, q := ParseInt(text, p);
      return if n1 < 0 then Term(v + off, -1, q) else Term(n1, v + off, q);
    }
    var i := FindName(names, text, p);
    if i == |names| {
      return NoTerm;
    }
    var q := p + |names[i]|;
    return if n1 < 0 then Term(i, -1, q) else Term(n1, i, q);
  }

  lemma CoveredMore(fills: seq<Fill>, f: Fill, mod: nat, x: nat)
    requires x < mod
    ensures Covered(fills + [f], mod, x) <==> Covered(fills, mod, x) || CoveredBy(f, mod, x)
  {
    hide CoveredBy;
    var more := fills + [f];
    if CoveredBy(f, mod, x) {
      assert more[|fills|] == f;
    }
    if Covered(fills, mod, x) {
      var i :| 0 <= i < |fills| && CoveredBy(fills[i], mod, x);
      assert more[i] == fills[i];
    }
  }

  lemma NoneCovered(mod: nat)
    ensures forall x :: 0 <= x < mod ==> !Covered([], mod, x)
  {
  }

  /** The end of an item: the optional step, and filling the array.  The source indexes below its array
      if and only if the remainder of the start is negative, and otherwise its failsafe stops it if and
      only if the end is no place of the array. */
  method FinishItem(ary: array<bool>, mod: nat, text: string, q: nat, from: int, until: int) returns (r: Parsed)
    requires 0 < mod == ary.Length <= 1000 && q <= |text|
    modifies ary
    ensures r.Outside? <==> Rem(from, mod) < 0
    ensures r.Failed? <==> Rem(from, mod) >= 0 && !(0 <= until < mod)
    ensures r.Next? ==> r.ptr == ReadStep(text, q).1 && until >= 0
    ensures r.Next? ==> forall x :: 0 <= x < mod ==>
              (ary[x] <==> old(ary[x]) || CoveredBy(Fill(from, until, ReadStep(text, q).0), mod, x))
  {
    hide Hit, StrToInt, Rem;
    var e, step := q, 1;
    if At(text, q) == '/' {
      step, e := ParseInt(text, q + 1);
    }
    var r' := FillRange(ary, mod, from, until, step);
    match r'
    case Full => return Next(e);
    case Stopped => return Failed;
    case Below => return Outside;
  }

  /** __ina_parse_field, for every text: how it ends, and that a field that is accepted
      adds exactly the ranges it names. */
  method ParseField(ary: array<bool>, mod: nat, off: int, names: Names, text: string, start: nat) returns (r: Parsed)
    requires 0 < mod == ary.Length <= 1000 && start <= |text|
    modifies ary
    ensures r == Scan(text, start, mod, off, names, -1).end
    ensures r.Next? ==> forall x :: 0 <= x < mod ==>
              (ary[x] <==> old(ary[x]) || Covered(Scan(text, start, mod, off, names, -1).fills, mod, x))
  {
    hide ReadTerm, ReadStep, StrToInt, Covered, CoveredBy, Hit, WhiteEnd, Scan, ScanEnd, Rem;
    var ptr, n1: int := start, -1;
    ghost var whole := Scan(text, start, mod, off, names, -1);
    ghost var done: seq<Fill> := [];
    NoneCovered(mod);
    while !Stops(At(text, ptr))
      invariant start <= ptr <= |text|
      invariant whole == Behind(done, Scan(text, ptr, mod, off, names, n1))
      invariant forall x :: 0 <= x < mod ==> (ary[x] <==> old(ary[x]) || Covered(done, mod, x))
      decreases |text| - ptr
    {
      ScanTurn(text, ptr, mod, off, names, n1);
      var t := ParseTerm(text, ptr, mod, off, names, n1);
      if t.NoTerm? {
        return Failed;
      }
      if At(text, t.q) == '-' && t.n2 < 0 {
        ptr, n1 := t.q + 1, t.n1;
        continue;
      }
      var until := if t.n2 < 0 then t.n1 else t.n2;
      var f := FinishItem(ary, mod, text, t.q, t.n1, until);
      if !f.Next? {
        return f;
      }
      ptr := f.ptr;
      ghost var fill := Fill(t.n1, until, ReadStep(text, t.q).0);
      AllCoveredMore(done, fill, mod);
      ghost var before := done;
      done := done + [fill];
      if At(text, ptr) != ',' {
        BehindMore(before, fill, if Stops(At(text, ptr)) then Scanned(Next(WhiteEnd(text, ptr)), []) else Scanned(Failed, []));
        break;
      }
      BehindMore(before, fill, Scan(text, ptr + 1, mod, off, names, -1));
      ptr := ptr + 1;
      n1 := -1;
    }
    ScanStops(text, ptr, mod, off, names, n1);
    assert done + [] == done;
    if !Stops(At(text, ptr)) {
      return Failed;
    }
    ptr := SkipWhite(text, ptr);
    return Next(ptr);
  }

  /** Ranges filled before what is still to be scanned. */
  function Behind(done: seq<Fill>, s: Scanned): Scanned {
    Scanned(s.end, done + s.fills)
  }

  lemma BehindMore(done: seq<Fill>, f: Fill, s: Scanned)
    ensures Behind(done, Behind([f], s)) == Behind(done + [f], s)
  {
    assert done + ([f] + s.fills) == (done + [f]) + s.fills;
  }

  lemma ScanStops(text: string, p: nat, mod: nat, off: int, names: Names, n1: int)
    requires p <= |text| && mod > 0
    ensures Stops(At(text, p)) ==> Scan(text, p, mod, off, names, n1) == Scanned(Next(WhiteEnd(text, p)), [])
  {
  }

  /** One turn of the loop, by how the item ends. */
  lemma ScanTurn(text: string, p: nat, mod: nat, off: int, names: Names, n1: int)
    requires p <= |text| && mod > 0 && !Stops(At(text, p))
    ensures p < |text|
    ensures match ReadTerm(text, p, mod, off, names, n1)
            case NoTerm => Scan(text, p, mod, off, names, n1) == Scanned(Failed, [])
            case Term(m1, m2, q) =>
              if At(text, q) == '-' && m2 < 0 then q < |text| && Scan(text, p, mod, off, names, n1) == Scan(text, q + 1, mod, off, names, m1)
              else
                var until := if m2 < 0 then m1 else m2;
                var (step, e) := ReadStep(text, q);
                if Rem(m1, mod) < 0 then Scan(text, p, mod, off, names, n1) == Scanned(Outside, [])
                else if until < 0 || until >= mod then Scan(text, p, mod, off, names, n1) == Scanned(Failed, [])
                else Scan(text, p, mod, off, names, n1) == Behind([Fill(m1, until, step)],
                       if At(text, e) == ',' then Scan(text, e + 1, mod, off, names, -1)
                       else if Stops(At(text, e)) then Scanned(Next(WhiteEnd(text, e)), [])
                       else Scanned(Failed, []))
  {
    hide ReadTerm, ReadStep, WhiteEnd, Rem;
  }

  lemma AllCoveredMore(done: seq<Fill>, f: Fill, mod: nat)
    ensures forall x :: 0 <= x < mod ==> (Covered(done + [f], mod, x) <==> Covered(done, mod, x) || CoveredBy(f, mod, x))
  {
    forall x | 0 <= x < mod ensures Covered(done + [f], mod, x) <==> Covered(done, mod, x) || CoveredBy(f, mod, x) {
      CoveredMore(done, f, mod, x);
    }
  }

  // ----- Fields of the right shape -----

  /** A number, or a name, as the parser takes it. */
  function Number(d: string, off: int, names: Names): int {
    if IsNumber(d) then ToInt(Value(d)) + off else NameFrom(names, d, 0)
  }

  /** Where the filling of an item starts and ends.  A negative first number of a range is forgotten
      when the second is read; a negative second one counts as missing. */
  function Start(it: Item, off: int, names: Names): int {
    match it
    case Star(_) => 0
    case One(first, _) => Number(first, off, names)
    case Range(first, last, _) => if Number(first, off, names) < 0 then Number(last, off, names) else Number(first, off, names)
  }

  function Until(it: Item, mod: nat, off: int, names: Names): int {
    match it
    case Star(_) => mod - 1
    case One(first, _) => Number(first, off, names)
    case Range(first, last, _) =>
      if Number(first, off, names) < 0 || Number(last, off, names) >= 0 then Number(last, off, names) else Number(first, off, names)
  }

  function StepOf(step: string): int {
    if step == "" then 1 else ToInt(Value(step))
  }

  /** Whether the first index of an item lies below the array. */
  predicate StartsBelow(it: Item, mod: nat, off: int, names: Names) {
    mod > 0 && Rem(Start(it, off, names), mod) < 0
  }

  /** Whether an item can be filled. */
  predicate Fillable(it: Item, mod: nat, off: int, names: Names) {
    0 <= Start(it, off, names) && 0 <= Until(it, mod, off, names) < mod
  }

  function FillOf(it: Item, mod: nat, off: int, names: Names): Fill
    requires Fillable(it, mod, off, names)
  {
    Fill(Start(it, off, names), Until(it, mod, off, names), StepOf(it.step))
  }

  /** What a field of the right shape comes to: the first item that cannot be filled ends it. */
  function Verdict(items: seq<Item>, mod: nat, off: int, names: Names, rest: Parsed): Scanned {
    if items == [] then Scanned(rest, [])
    else if StartsBelow(items[0], mod, off, names) then Scanned(Outside, [])
    else if !Fillable(items[0], mod, off, names) then Scanned(Failed, [])
    else Behind([FillOf(items[0], mod, off, names)], Verdict(items[1..], mod, off, names, rest))
  }

  /** What can follow a number or a step. */
  predicate Quiet(cont: string) {
    cont == "" || !(IsDigit(cont[0]) || cont[0] == '-' || cont[0] == '/')
  }

  predicate IsTail(tail: string) {
    tail == "" || IsSpace(tail[0])
  }

  /** What can follow a field: white space or nothing, and a comma before it does no harm. */
  predicate EndsField(tail: string) {
    IsTail(tail) || (tail[0] == ',' && IsTail(tail[1..]))
  }

  function Rest(tail: string): string
    requires EndsField(tail)
  {
    if IsTail(tail) then Trim(tail) else Trim(tail[1..])
  }

  /** A number in the text, read where it stands. */
  lemma ReadsNumber(text: string, p: nat, d: string, cont: string)
    requires p <= |text| && IsNumber(d) && text[p..] == d + cont && (cont == "" || !IsDigit(cont[0]))
    ensures p < |text| && IsDigit(text[p]) && StrToInt(text, p) == (ToInt(Value(d)), p + |d|)
    ensures p + |d| <= |text| && text[p + |d|..] == cont
  {
    hide Value, ToInt;
    DigitsEndAt(text, p, d, cont);
    assert text[p] == text[p..][0] == d[0];
    DigitsAdvance(text, p);
  }

  /** A number or a name, read where it stands. */
  lemma ReadsPlace(text: string, p: nat, d: string, cont: string, mod: nat, off: int, names: Names, n1: int)
    requires p <= |text| && IsPlace(d, names) && text[p..] == d + cont && (cont == "" || !IsDigit(cont[0]))
    ensures p < |text| && !Stops(At(text, p))
    ensures var v, q := Number(d, off, names), p + |d|;
            ReadTerm(text, p, mod, off, names, n1) == if n1 < 0 then Term(v, -1, q) else Term(n1, v, q)
    ensures p + |d| <= |text| && text[p + |d|..] == cont
  {
    hide Value, ToInt, StrToInt;
    if IsNumber(d) {
      ReadsNumber(text, p, d, cont);
    } else {
      var k :| 0 <= k < |names| && names[k] == d;
      assert text[p] == text[p..][0] == d[0];
      assert text[p + |d|..] == text[p..][|d|..];
      NameFound(names, k, d, 0);
      NameFound(names, k, text[p..], 0);
    }
  }

  lemma ReadsStep(text: string, p: nat, step: string, cont: string)
    requires p <= |text| && text[p..] == StepText(step, cont) && (step == "" || IsNumber(step)) && Quiet(cont)
    ensures var (n, e) := ReadStep(text, p); n == StepOf(step) && text[e..] == cont
    ensures At(text, p) != '-' && !IsDigit(At(text, p))
  {
    hide Value, ToInt, StrToInt;
    if step == "" {
      assert cont != "" ==> text[p] == text[p..][0] == cont[0];
    } else {
      assert text[p] == text[p..][0] == '/';
      assert text[p + 1..] == text[p..][1..] == step + cont;
      ReadsNumber(text, p + 1, step, cont);
    }
  }

  /** What the scan does once the numbers of an item are read. */
  ghost function AfterItem(text: string, e: nat, f: Fill, mod: nat, off: int, names: Names): Scanned
    requires e <= |text| && mod > 0
  {
    Behind([f],
           if At(text, e) == ',' then Scan(text, e + 1, mod, off, names, -1)
           else if Stops(At(text, e)) then Scanned(Next(WhiteEnd(text, e)), [])
           else Scanned(Failed, []))
  }

  ghost predicate ScansAs(text: string, p: nat, n1: int, e: nat, it: Item, mod: nat, off: int, names: Names)
    requires p <= |text| && e <= |text| && mod > 0
  {
    Scan(text, p, mod, off, names, n1)
    == if StartsBelow(it, mod, off, names) then Scanned(Outside, [])
       else if !Fillable(it, mod, off, names) then Scanned(Failed, [])
       else AfterItem(text, e, FillOf(it, mod, off, names), mod, off, names)
  }

  lemma QuietStep(step: string, cont: string)
    requires Quiet(cont)
    ensures var t := StepText(step, cont); t == "" || !IsDigit(t[0])
  {
  }

  lemma ScanStar(text: string, p: nat, step: string, cont: string, mod: nat, off: int, names: Names) returns (e: nat)
    requires p <= |text| && 0 < mod && (step == "" || IsNumber(step)) && Quiet(cont)
    requires text[p..] == ItemText(Star(step), cont)
    ensures e <= |text| && text[e..] == cont && ScansAs(text, p, -1, e, Star(step), mod, off, names)
  {
    hide StepOf, ReadStep, StrToInt, Scan, WhiteEnd, StepText;
    assert text[p] == text[p..][0] == '*';
    assert text[p + 1..] == text[p..][1..] == StepText(step, cont);
    ReadsStep(text, p + 1, step, cont);
    e := ReadStep(text, p + 1).1;
    ScanTurn(text, p, mod, off, names, -1);
  }

  lemma ScanOne(text: string, p: nat, it: Item, cont: string, mod: nat, off: int, names: Names) returns (e: nat)
    requires p <= |text| && 0 < mod && it.One? && ShapedItem(it, names) && Quiet(cont)
    requires text[p..] == ItemText(it, cont)
    ensures e <= |text| && text[e..] == cont && ScansAs(text, p, -1, e, it, mod, off, names)
  {
    hide StepOf, ReadStep, ReadTerm, Number, StrToInt, Scan, WhiteEnd, StepText, IsNumber, IsPlace, ToInt, Value, Rem, Stops;
    QuietStep(it.step, cont);
    ReadsPlace(text, p, it.first, StepText(it.step, cont), mod, off, names, -1);
    var q := p + |it.first|;
    ReadsStep(text, q, it.step, cont);
    e := ReadStep(text, q).1;
    ScanTurn(text, p, mod, off, names, -1);
  }

  /** The second number of a range. */
  lemma ScanSecond(text: string, p: nat, it: Item, cont: string, mod: nat, off: int, names: Names) returns (e: nat)
    requires p <= |text| && 0 < mod && it.Range? && ShapedItem(it, names) && Quiet(cont)
    requires text[p..] == it.last + StepText(it.step, cont)
    ensures e <= |text| && text[e..] == cont && ScansAs(text, p, Number(it.first, off, names), e, it, mod, off, names)
  {
    hide StepOf, ReadStep, ReadTerm, Number, StrToInt, Scan, WhiteEnd, StepText, IsNumber, IsPlace, ToInt, Value, Rem, Stops;
    QuietStep(it.step, cont);
    ReadsPlace(text, p, it.last, StepText(it.step, cont), mod, off, names, Number(it.first, off, names));
    var q := p + |it.last|;
    ReadsStep(text, q, it.step, cont);
    e := ReadStep(text, q).1;
    ScanTurn(text, p, mod, off, names, Number(it.first, off, names));
  }

  lemma ScanRange(text: string, p: nat, it: Item, cont: string, mod: nat, off: int, names: Names) returns (e: nat)
    requires p <= |text| && 0 < mod && it.Range? && ShapedItem(it, names) && Quiet(cont)
    requires text[p..] == ItemText(it, cont)
    ensures e <= |text| && text[e..] == cont && ScansAs(text, p, -1, e, it, mod, off, names)
  {
    hide StepOf, ReadStep, ReadTerm, Number, StrToInt, Scan, WhiteEnd, StepText, IsNumber, IsPlace, ToInt, Value, Start, Until, Quiet, Rem, Stops;
    var second := it.last + StepText(it.step, cont);
    ReadsPlace(text, p, it.first, ['-'] + second, mod, off, names, -1);
    var q := p + |it.first|;
    assert text[q] == text[q..][0] == '-';
    assert text[q + 1..] == text[q..][1..] == second;
    ScanTurn(text, p, mod, off, names, -1);
    e := ScanSecond(text, q + 1, it, cont, mod, off, names);
  }

  /** The text of one item: its numbers lead to its filling. */
  lemma ScanItem(text: string, p: nat, it: Item, cont: string, mod: nat, off: int, names: Names) returns (e: nat)
    requires p <= |text| && 0 < mod && ShapedItem(it, names) && text[p..] == ItemText(it, cont) && Quiet(cont)
    ensures e <= |text| && text[e..] == cont && ScansAs(text, p, -1, e, it, mod, off, names)
  {
    hide ScansAs, ItemText, Quiet;
    match it
    case Star(step) => e := ScanStar(text, p, step, cont, mod, off, names);
    case One(_, _) => e := ScanOne(text, p, it, cont, mod, off, names);
    case Range(_, _, _) => e := ScanRange(text, p, it, cont, mod, off, names);
  }

  lemma QuietAfter(items: seq<Item>, tail: string)
    requires items != [] && EndsField(tail)
    ensures Quiet(After(items, tail))
  {
  }

  lemma {:induction false} WhiteTrims(text: string, p: nat)
    requires p <= |text|
    ensures text[WhiteEnd(text, p)..] == Trim(text[p..])
    decreases |text| - p
  {
    if IsSpace(At(text, p)) {
      assert text[p..][1..] == text[p + 1..];
      WhiteTrims(text, p + 1);
    } else {
      assert text[p..] != "" ==> text[p..][0] == text[p];
    }
  }

  /** The end of a field. */
  lemma ScanTail(text: string, e: nat, tail: string, mod: nat, off: int, names: Names) returns (s: Scanned)
    requires e <= |text| && 0 < mod && text[e..] == tail && EndsField(tail)
    ensures s == (if At(text, e) == ',' then Scan(text, e + 1, mod, off, names, -1)
                  else if Stops(At(text, e)) then Scanned(Next(WhiteEnd(text, e)), [])
                  else Scanned(Failed, []))
    ensures s.end.Next? && s.end.ptr <= |text| && text[s.end.ptr..] == Rest(tail) && s.fills == []
  {
    hide Trim, WhiteEnd;
    assert tail != "" ==> text[e] == text[e..][0];
    WhiteTrims(text, e);
    if At(text, e) == ',' {
      assert text[e + 1..] == text[e..][1..] == tail[1..];
      assert tail[1..] != "" ==> text[e + 1] == text[e + 1..][0];
      ScanStops(text, e + 1, mod, off, names, -1);
      WhiteTrims(text, e + 1);
      s := Scan(text, e + 1, mod, off, names, -1);
    } else {
      s := Scanned(Next(WhiteEnd(text, e)), []);
    }
  }

  /** A field of the right shape, whatever its numbers are: the parser comes to its verdict, and goes on
      behind it if there is nothing wrong. */
  lemma {:induction false} ScanField(text: string, p: nat, items: seq<Item>, tail: string, mod: nat, off: int, names: Names)
    requires p <= |text| && 0 < mod && ShapedField(items, names) && EndsField(tail) && text[p..] == Text(items, tail)
    ensures var s := Scan(text, p, mod, off, names, -1);
            && s == Verdict(items, mod, off, names, s.end)
            && (s.end.Next? <==> forall i :: 0 <= i < |items| ==> Fillable(items[i], mod, off, names))
            && (s.end.Next? ==> text[s.end.ptr..] == Rest(tail))
    decreases |items|
  {
    hide ItemText, After, Scan, WhiteEnd, Start, Until, ShapedItem, Rest, EndsField, IsTail, Stops;
    QuietAfter(items, tail);
    var it := items[0];
    assert ShapedItem(it, names);
    var e := ScanItem(text, p, it, After(items, tail), mod, off, names);
    if Fillable(it, mod, off, names) {
      if |items| == 1 {
        AfterOne(items, tail);
        var s := ScanTail(text, e, tail, mod, off, names);
      } else {
        AfterMore(text, e, items, tail);
        ScanField(text, e + 1, items[1..], tail, mod, off, names);
        assert forall i :: 0 <= i < |items| ==> items[i] == if i == 0 then it else items[1..][i - 1];
      }
    }
  }

  lemma AfterOne(items: seq<Item>, tail: string)
    requires |items| == 1
    ensures After(items, tail) == tail
  {
  }

  lemma AfterMore(text: string, e: nat, items: seq<Item>, tail: string)
    requires |items| > 1 && e <= |text| && text[e..] == After(items, tail)
    ensures At(text, e) == ',' && e < |text| && text[e + 1..] == Text(items[1..], tail)
  {
    hide Text;
    assert text[e] == text[e..][0] == ',';
    assert text[e + 1..] == text[e..][1..];
  }

  /** An item starts below the array exactly for a number that is negative as the parser takes it and no
      multiple of the size; and then, as with a multiple, its end is no place of the array either. */
  lemma StartsBelowIff(it: Item, mod: nat, off: int, names: Names)
    requires mod > 0
    ensures StartsBelow(it, mod, off, names) <==>
            match it
            case Star(_) => false
            case One(first, _) => IsNumber(first) && IsNegativeRest(ToInt(Value(first)) + off, mod)
            case Range(first, last, _) =>
              && IsNumber(first) && IsNumber(last)
              && ToInt(Value(first)) + off < 0 && IsNegativeRest(ToInt(Value(last)) + off, mod)
    ensures StartsBelow(it, mod, off, names) ==> !Fillable(it, mod, off, names)
  {
    hide Rem, ToInt, Value;
    RemIndex(Start(it, off, names), mod);
  }

  predicate IsNegativeRest(v: int, mod: nat)
    requires mod > 0
  {
    v < 0 && (-v) % mod != 0
  }

  /** Whether item `i` is the first that cannot be filled. */
  predicate FirstBad(items: seq<Item>, i: nat, mod: nat, off: int, names: Names)
    requires i < |items|
  {
    !Fillable(items[i], mod, off, names) && forall j :: 0 <= j < i ==> Fillable(items[j], mod, off, names)
  }

  lemma FillableStarts(it: Item, mod: nat, off: int, names: Names)
    ensures Fillable(it, mod, off, names) ==> !StartsBelow(it, mod, off, names)
  {
  }

  lemma BadShift(items: seq<Item>, i: nat, mod: nat, off: int, names: Names)
    requires i + 1 < |items| && Fillable(items[0], mod, off, names)
    ensures FirstBad(items[1..], i, mod, off, names) <==> FirstBad(items, i + 1, mod, off, names)
  {
    hide Fillable;
    var later := items[1..];
    assert forall j :: 0 <= j <= i ==> later[j] == items[j + 1];
    if FirstBad(later, i, mod, off, names) {
      forall j | 0 <= j < i + 1 ensures Fillable(items[j], mod, off, names) {
        assert j > 0 ==> later[j - 1] == items[j];
      }
    }
  }

  /** The source indexes below its array if and only if the first item it cannot fill starts there; it
      refuses the field if and only if that item does not. */
  lemma {:induction false} VerdictIff(items: seq<Item>, mod: nat, off: int, names: Names, rest: Parsed)
    requires rest.Next? && mod > 0
    ensures var end := Verdict(items, mod, off, names, rest).end;
            && (end.Outside? <==> exists i :: 0 <= i < |items| && FirstBad(items, i, mod, off, names) && StartsBelow(items[i], mod, off, names))
            && (end.Failed? <==> exists i :: 0 <= i < |items| && FirstBad(items, i, mod, off, names) && !StartsBelow(items[i], mod, off, names))
    decreases |items|
  {
    hide Fillable, StartsBelow;
    if items != [] {
      FillableStarts(items[0], mod, off, names);
      if Fillable(items[0], mod, off, names) {
        VerdictIff(items[1..], mod, off, names, rest);
        var later := items[1..];
        forall i | 0 <= i < |later| && FirstBad(later, i, mod, off, names)
          ensures FirstBad(items, i + 1, mod, off, names) && items[i + 1] == later[i]
        {
          BadShift(items, i, mod, off, names);
        }
        forall i | 0 <= i < |items| && FirstBad(items, i, mod, off, names)
          ensures i > 0 && FirstBad(later, i - 1, mod, off, names) && items[i] == later[i - 1]
        {
          BadShift(items, i - 1, mod, off, names);
        }
      } else {
        assert FirstBad(items, 0, mod, off, names);
      }
    }
  }

  /** A range without its second number fills nothing. */
  lemma OpenRange(text: string, p: nat, d: string, tail: string, mod: nat, off: int, names: Names)
    requires p <= |text| && 0 < mod && IsPlace(d, names) && IsTail(tail) && text[p..] == d + (['-'] + tail)
    ensures var s := Scan(text, p, mod, off, names, -1);
            s.fills == [] && s.end.Next? && text[s.end.ptr..] == Trim(tail)
  {
    hide ToInt, Value, StrToInt, ReadTerm, Number, Scan, WhiteEnd, Trim, IsNumber, IsPlace, Rem;
    ReadsPlace(text, p, d, ['-'] + tail, mod, off, names, -1);
    var q := p + |d|;
    assert text[q] == text[q..][0] == '-';
    assert text[q + 1..] == text[q..][1..] == tail;
    assert tail != "" ==> text[q + 1] == text[q + 1..][0];
    ScanTurn(text, p, mod, off, names, -1);
    ScanStops(text, q + 1, mod, off, names, Number(d, off, names));
    WhiteTrims(text, q + 1);
  }

  /** A comma may end a field. */
  lemma TrailingComma(text: string, items: seq<Item>, tail: string, mod: nat, off: int, names: Names)
    requires 0 < mod && ShapedField(items, names) && IsTail(tail) && text == Text(items, [','] + tail)
    requires forall i :: 0 <= i < |items| ==> Fillable(items[i], mod, off, names)
    ensures var s := Scan(text, 0, mod, off, names, -1);
            s.end.Next? && text[s.end.ptr..] == Trim(tail) && s == Verdict(items, mod, off, names, s.end)
  {
    hide Scan, Verdict, Text, Trim;
    assert text[0..] == text && ([','] + tail)[1..] == tail;
    ScanField(text, 0, items, [','] + tail, mod, off, names);
  }

  // ----- Single items that are not filled -----

  /** What a number or a name alone comes to. */
  lemma LoneItem(text: string, mod: nat, off: int, names: Names)
    requires 0 < mod && IsPlace(text, names)
    ensures var v, end := Number(text, off, names), Scan(text, 0, mod, off, names, -1).end;
            && (end.Outside? <==> v < 0 && (-v) % mod != 0)
            && (end.Next? <==> 0 <= v < mod)
  {
    hide Scan, Rem, ToInt, Value, Number, IsPlace;
    var it := One(text, "");
    var items := [it];
    assert Text(items, "") == ItemText(it, "") == text + "" == text == text[0..];
    assert ShapedItem(it, names);
    ScanField(text, 0, items, "", mod, off, names);
    RemIndex(Start(it, off, names), mod);
    assert Fillable(items[0], mod, off, names) <==> 0 <= Number(text, off, names) < mod;
  }

  lemma ValueMore(d: string, c: char)
    requires IsDigit(c)
    ensures Value(d + [c]) == Value(d) * 10 + (c - '0') as int
  {
    assert (d + [c])[..|d|] == d;
  }

  /** A month of 0. */
  lemma MonthZero()
    ensures Scan("0", 0, 12, -1, Months(), -1).end.Outside?
  {
    hide Scan, Months;
    ValueMore("", '0');
    assert "" + ['0'] == "0";
    LoneItem("0", 12, -1, Months());
  }

  lemma BigValue(a: char, b: char)
    requires IsDigit(a) && IsDigit(b)
    ensures Value("42949672" + [a] + [b]) == 4294967200 + (a - '0') as int * 10 + (b - '0') as int
    ensures IsNumber("42949672" + [a] + [b])
  {
    hide Value;
    assert "" + ['4'] == "4" && "4" + ['2'] == "42" && "42" + ['9'] == "429" && "429" + ['4'] == "4294";
    assert "4294" + ['9'] == "42949" && "42949" + ['6'] == "429496" && "429496" + ['7'] == "4294967";
    assert "4294967" + ['2'] == "42949672";
    NoValue("");
    ValueMore("", '4');
    ValueMore("4", '2');
    ValueMore("42", '9');
    ValueMore("429", '4');
    ValueMore("4294", '9');
    ValueMore("42949", '6');
    ValueMore("429496", '7');
    ValueMore("4294967", '2');
    ValueMore("42949672", a);
    ValueMore("42949672" + [a], b);
  }

  /** A minute that the conversion to int makes -1. */
  lemma MinuteWraps()
    ensures Scan("4294967295", 0, 60, 0, [], -1).end.Outside?
  {
    hide Scan, Value;
    BigValue('9', '5');
    assert "4294967295" == "42949672" + ['9'] + ['5'];
    LoneItem("4294967295", 60, 0, []);
  }

  /** One that it makes -60 fills nothing outside: the remainder is 0, and the field is refused. */
  lemma MultipleRefused()
    ensures Scan("4294967236", 0, 60, 0, [], -1).end.Failed?
  {
    hide Scan, Value;
    BigValue('3', '6');
    assert "4294967236" == "42949672" + ['3'] + ['6'];
    LoneItem("4294967236", 60, 0, []);
  }

  /** A name alone is accepted if and only if its index is a place: in small letters. */
  lemma NameAlone(names: Names, k: nat, mod: nat, off: int)
    requires k < |names| && 0 < mod
    ensures !Scan(names[k], 0, mod, off, names, -1).end.Outside?
    ensures Scan(names[k], 0, mod, off, names, -1).end.Next? <==> k < mod
  {
    hide Scan;
    NameFound(names, k, names[k], 0);
    assert IsLetter(names[k][0]);
    LoneItem(names[k], mod, off, names);
  }

  /** Sunday with a capital is refused, although it is in the list. */
  lemma SundayRefused()
    ensures Scan("Sun", 0, 7, 0, Weekdays(), -1).end.Failed?
  {
    hide Scan;
    NameAlone(Weekdays(), 7, 7, 0);
  }

  // ----- Fields in range -----

  /** An item in range fills exactly what it selects. */
  lemma GoodFill(it: Item, mod: nat, off: int, names: Names)
    requires 0 < mod <= 1000 && -1 <= off <= 0 && GoodItem(it, mod, off, names)
    ensures ShapedItem(it, names) && Fillable(it, mod, off, names)
    ensures FillOf(it, mod, off, names) == Fill(First(it, off, names), Last(it, mod, off, names), Step(it.step))
    ensures forall x :: 0 <= x < mod ==> (CoveredBy(FillOf(it, mod, off, names), mod, x) <==> HitBy(it, mod, off, names, x))
  {
    hide ToInt, Value, Hit;
    if it.step != "" {
      SmallInt(Value(it.step));
    }
    if !it.Star? && IsNumber(it.first) {
      SmallInt(Value(it.first));
    }
    if it.Range? && IsNumber(it.last) {
      SmallInt(Value(it.last));
    }
    SmallMod(First(it, off, names), mod);
  }

  lemma SmallMod(x: int, mod: nat)
    requires 0 <= x < mod
    ensures x % mod == x
  {
  }

  /** A good field covers exactly what it selects. */
  lemma {:induction false} GoodVerdict(items: seq<Item>, mod: nat, off: int, names: Names, rest: Parsed)
    requires 0 < mod <= 1000 && -1 <= off <= 0 && forall i :: 0 <= i < |items| ==> GoodItem(items[i], mod, off, names)
    ensures forall i :: 0 <= i < |items| ==> ShapedItem(items[i], names) && Fillable(items[i], mod, off, names)
    ensures Verdict(items, mod, off, names, rest).end == rest
    ensures forall x :: 0 <= x < mod ==> (Covered(Verdict(items, mod, off, names, rest).fills, mod, x) <==> Selected(items, mod, off, names, x))
    decreases |items|
  {
    hide GoodItem, ShapedItem, Fillable, FillOf, HitBy, CoveredBy, Covered, Selected, Start, Until;
    if items == [] {
      NoneCovered(mod);
      NoneSelected(items, mod, off, names);
    } else {
      GoodFill(items[0], mod, off, names);
      StartsInside(items[0], mod, off, names);
      GoodVerdict(items[1..], mod, off, names, rest);
      var more := Verdict(items[1..], mod, off, names, rest).fills;
      assert forall i :: 1 <= i < |items| ==> items[i] == items[1..][i - 1];
      forall x | 0 <= x < mod
        ensures Covered([FillOf(items[0], mod, off, names)] + more, mod, x) <==> Selected(items, mod, off, names, x)
      {
        CoveredFirst(FillOf(items[0], mod, off, names), more, mod, x);
        SelectedStep(items, mod, off, names, x);
      }
    }
  }

  lemma StartsInside(it: Item, mod: nat, off: int, names: Names)
    requires Fillable(it, mod, off, names)
    ensures Start(it, off, names) >= 0
  {
  }

  lemma NoneSelected(items: seq<Item>, mod: nat, off: int, names: Names)
    requires items == []
    ensures forall x :: 0 <= x < mod ==> !Selected(items, mod, off, names, x)
  {
  }

  lemma CoveredFirst(f: Fill, fills: seq<Fill>, mod: nat, x: nat)
    requires x < mod
    ensures Covered([f] + fills, mod, x) <==> CoveredBy(f, mod, x) || Covered(fills, mod, x)
  {
    hide CoveredBy;
    var all := [f] + fills;
    if Covered(fills, mod, x) {
      var i :| 0 <= i < |fills| && CoveredBy(fills[i], mod, x);
      assert all[i + 1] == fills[i];
    }
    if CoveredBy(f, mod, x) {
      assert all[0] == f;
    }
  }

  lemma SelectedStep(items: seq<Item>, mod: nat, off: int, names: Names, x: nat)
    requires items != [] && x < mod && forall i :: 0 <= i < |items| ==> GoodItem(items[i], mod, off, names)
    ensures Selected(items, mod, off, names, x) <==> HitBy(items[0], mod, off, names, x) || Selected(items[1..], mod, off, names, x)
  {
    hide HitBy, GoodItem;
    if Selected(items, mod, off, names, x) && !HitBy(items[0], mod, off, names, x) {
      var i :| 0 <= i < |items| && HitBy(items[i], mod, off, names, x);
      assert items[1..][i - 1] == items[i];
    } else if Selected(items[1..], mod, off, names, x) {
      var i :| 0 <= i < |items[1..]| && HitBy(items[1..][i], mod, off, names, x);
      assert items[i + 1] == items[1..][i];
    }
  }

  /** On the text of a good field the parser fills the union of the stepped cyclic ranges, and the rest
      of the text follows. */
  lemma ScanGoodField(text: string, p: nat, items: seq<Item>, tail: string, mod: nat, off: int, names: Names)
    requires p <= |text| && 0 < mod <= 1000 && -1 <= off <= 0
    requires GoodField(items, mod, off, names) && IsTail(tail) && text[p..] == Text(items, tail)
    ensures var s := Scan(text, p, mod, off, names, -1);
            && s.end.Next? && text[s.end.ptr..] == Trim(tail)
            && forall x :: 0 <= x < mod ==> (Covered(s.fills, mod, x) <==> Selected(items, mod, off, names, x))
  {
    hide Scan, Verdict, GoodItem, ShapedItem, Fillable, Covered, Selected, Trim, Text;
    GoodVerdict(items, mod, off, names, Next(0));
    ScanField(text, p, items, tail, mod, off, names);
    GoodVerdict(items, mod, off, names, Scan(text, p, mod, off, names, -1).end);
  }

  // ----- Patterns -----

  /** Five fields, the white space between them, and what follows the last. */
  datatype Pattern = Pattern(mins: seq<Item>, hours: seq<Item>, days: seq<Item>, mons: seq<Item>, dow: seq<Item>,
                             gap0: string, gap1: string, gap2: string, gap3: string, end: string)

  predicate IsGap(g: string) {
    g != "" && forall i :: 0 <= i < |g| ==> IsSpace(g[i])
  }

  predicate GoodPattern(p: Pattern) {
    && GoodField(p.mins, 60, 0, []) && GoodField(p.hours, 24, 0, []) && GoodField(p.days, 32, 0, [])
    && GoodField(p.mons, 12, -1, Months()) && GoodField(p.dow, 7, 0, Weekdays())
    && IsGap(p.gap0) && IsGap(p.gap1) && IsGap(p.gap2) && IsGap(p.gap3) && IsTail(p.end)
  }

  function Field(p: Pattern, k: nat): seq<Item>
    requires k < 5
  {
    match k case 0 => p.mins case 1 => p.hours case 2 => p.days case 3 => p.mons case _ => p.dow
  }

  function Size(k: nat): nat
    requires k < 5
  {
    match k case 0 => 60 case 1 => 24 case 2 => 32 case 3 => 12 case _ => 7
  }

  /** The names that stand for places. */
  function NamesOf(k: nat): Names {
    if k == 3 then Months() else if k == 4 then Weekdays() else []
  }

  /** Months count from 1 in the text. */
  function Offset(k: nat): int {
    if k == 3 then -1 else 0
  }

  /** The text from field `k` on. */
  function PatternText(p: Pattern, k: nat): string
    requires k < 5
    decreases 5 - k, 0
  {
    Text(Field(p, k), TailOf(p, k))
  }

  /** The text behind field `k`. */
  function TailOf(p: Pattern, k: nat): string
    requires k < 5
    decreases 5 - k - 1, 1
  {
    match k
    case 0 => p.gap0 + PatternText(p, 1)
    case 1 => p.gap1 + PatternText(p, 2)
    case 2 => p.gap2 + PatternText(p, 3)
    case 3 => p.gap3 + PatternText(p, 4)
    case _ => p.end
  }

  lemma {:induction false} TrimGap(g: string, rest: string)
    requires (forall i :: 0 <= i < |g| ==> IsSpace(g[i])) && (rest == "" || !IsSpace(rest[0]))
    ensures Trim(g + rest) == rest
  {
    if g == "" {
      assert g + rest == rest;
    } else {
      assert (g + rest)[1..] == g[1..] + rest;
      TrimGap(g[1..], rest);
    }
  }

  lemma TextStarts(items: seq<Item>, tail: string, mod: nat, off: int, names: Names)
    requires GoodField(items, mod, off, names)
    ensures Text(items, tail) != "" && !IsSpace(Text(items, tail)[0])
  {
    hide Value, After;
    assert GoodItem(items[0], mod, off, names);
  }

  /** A gap is a tail, and trimming it leaves the next field. */
  lemma Gap(g: string, items: seq<Item>, tail: string, mod: nat, off: int, names: Names)
    requires IsGap(g) && GoodField(items, mod, off, names)
    ensures IsTail(g + Text(items, tail)) && Trim(g + Text(items, tail)) == Text(items, tail)
  {
    TextStarts(items, tail, mod, off, names);
    TrimGap(g, Text(items, tail));
  }

  lemma NotEmpty(p: Pattern)
    requires GoodPattern(p)
    ensures PatternText(p, 0) != ""
  {
    hide GoodField;
    TextStarts(p.mins, TailOf(p, 0), 60, 0, []);
  }

  lemma FieldFacts(p: Pattern)
    requires GoodPattern(p)
    ensures forall k :: 0 <= k < 5 ==> PatternText(p, k) == Text(Field(p, k), TailOf(p, k)) && IsTail(TailOf(p, k))
    ensures forall k :: 0 <= k < 5 ==> GoodField(Field(p, k), Size(k), Offset(k), NamesOf(k))
    ensures forall k :: 0 <= k < 4 ==> Trim(TailOf(p, k)) == PatternText(p, k + 1)
  {
    hide GoodField, IsTail, Trim, IsGap, Text;
    Gap(p.gap0, p.hours, TailOf(p, 1), 24, 0, []);
    Gap(p.gap1, p.days, TailOf(p, 2), 32, 0, []);
    Gap(p.gap2, p.mons, TailOf(p, 3), 12, -1, Months());
    Gap(p.gap3, p.dow, TailOf(p, 4), 7, 0, Weekdays());
  }

  // ----- What the pattern parser does with any text -----

  /** The five fields from `k` on, from place `p`: how they end, and the ranges of each. */
  function ScanFields(text: string, k: nat, p: nat): (r: (Parsed, seq<seq<Fill>>))
    requires k <= 5 && p <= |text|
    ensures r.0.Next? ==> |r.1| == 5 - k
    decreases 5 - k
  {
    if k == 5 then (Next(p), [])
    else
      var s := Scan(text, p, Size(k), Offset(k), NamesOf(k), -1);
      if !s.end.Next? then (s.end, [])
      else
        var (end, more) := ScanFields(text, k + 1, s.end.ptr);
        (end, [s.fills] + more)
  }

  datatype Outcome = Success | InvalidArgument | InvalidPattern | OutsideArray

  function PatternOutcome(text: string): Outcome {
    if text == "" then InvalidArgument
    else
      match ScanFields(text, 0, 0).0
      case Next(_) => Success
      case Failed => InvalidPattern
      case Outside => OutsideArray
  }

  predicate EveryCovered(fills: seq<Fill>, mod: nat) {
    forall x :: 0 <= x < mod ==> Covered(fills, mod, x)
  }

  /** The rule for days and weekdays: they are alternatives, except that a complete list of one leaves
      the decision to an incomplete list of the other. */
  predicate DayAdmitted(everyDay: bool, everyWeekday: bool, day: bool, weekday: bool) {
    if everyDay && !everyWeekday then weekday
    else if everyWeekday && !everyDay then day
    else day || weekday
  }

  /** When the ranges of five fields admit a broken-down time. */
  predicate FillsAdmit(f: seq<seq<Fill>>, min: nat, hour: nat, mday: nat, mon: nat, wday: nat)
    requires |f| == 5 && min < 60 && hour < 24 && mday < 32 && mon < 12 && wday < 7
  {
    && Covered(f[0], 60, min) && Covered(f[1], 24, hour) && Covered(f[3], 12, mon)
    && DayAdmitted(EveryCovered(f[2], 32), EveryCovered(f[4], 7), Covered(f[2], 32, mday), Covered(f[4], 7, wday))
  }

  // ----- Good patterns -----

  predicate Every(items: seq<Item>, mod: nat, off: int, names: Names)
    requires GoodField(items, mod, off, names)
  {
    forall x :: 0 <= x < mod ==> Selected(items, mod, off, names, x)
  }

  /** When a good pattern admits a broken-down time. */
  predicate Admits(p: Pattern, min: nat, hour: nat, mday: nat, mon: nat, wday: nat)
    requires GoodPattern(p) && min < 60 && hour < 24 && mday < 32 && mon < 12 && wday < 7
  {
    && Selected(p.mins, 60, 0, [], min) && Selected(p.hours, 24, 0, [], hour) && Selected(p.mons, 12, -1, Months(), mon)
    && DayAdmitted(Every(p.days, 32, 0, []), Every(p.dow, 7, 0, Weekdays()),
                   Selected(p.days, 32, 0, [], mday), Selected(p.dow, 7, 0, Weekdays(), wday))
  }

  /** Ranges and items that stand for the same places. */
  ghost predicate Same(fills: seq<Fill>, items: seq<Item>, mod: nat, off: int, names: Names)
    requires GoodField(items, mod, off, names)
  {
    forall x :: 0 <= x < mod ==> (Covered(fills, mod, x) <==> Selected(items, mod, off, names, x))
  }

  /** The ranges of field `k`. */
  ghost predicate Stands(fills: seq<Fill>, p: Pattern, k: nat)
    requires k < 5
  {
    && GoodField(Field(p, k), Size(k), Offset(k), NamesOf(k))
    && Same(fills, Field(p, k), Size(k), Offset(k), NamesOf(k))
  }

  lemma IsStanding(fills: seq<Fill>, p: Pattern, k: nat)
    requires k < 5 && GoodField(Field(p, k), Size(k), Offset(k), NamesOf(k)) && Same(fills, Field(p, k), Size(k), Offset(k), NamesOf(k))
    ensures Stands(fills, p, k)
  {
  }

  lemma {:induction false} ScanGoodFields(p: Pattern, text: string, k: nat, at: nat)
    requires GoodPattern(p) && k < 5 && at <= |text| && text[at..] == PatternText(p, k)
    ensures var (end, fills) := ScanFields(text, k, at);
            end.Next? && forall i :: 0 <= i < 5 - k ==> Stands(fills[i], p, k + i)
    decreases 5 - k
  {
    hide Scan, GoodPattern, GoodField, IsTail, Trim, Text, Covered, Selected, PatternText, TailOf, Same, Size, Offset, NamesOf, Field, Stands;
    FieldFacts(p);
    Sizes(k);
    assert PatternText(p, k) == Text(Field(p, k), TailOf(p, k));
    ScanGoodField(text, at, Field(p, k), TailOf(p, k), Size(k), Offset(k), NamesOf(k));
    var s := Scan(text, at, Size(k), Offset(k), NamesOf(k), -1);
    IsSame(s.fills, Field(p, k), Size(k), Offset(k), NamesOf(k));
    IsStanding(s.fills, p, k);
    if k < 4 {
      assert Trim(TailOf(p, k)) == PatternText(p, k + 1);
      ScanGoodFields(p, text, k + 1, s.end.ptr);
      var (end, more) := ScanFields(text, k + 1, s.end.ptr);
      var fills := [s.fills] + more;
      forall i | 0 <= i < 5 - k ensures Stands(fills[i], p, k + i) {
        if i > 0 {
          assert fills[i] == more[i - 1] && k + i == k + 1 + (i - 1);
        }
      }
    } else {
      LastFields(text, s.end.ptr);
    }
  }

  lemma Sizes(k: nat)
    requires k < 5
    ensures 0 < Size(k) <= 1000 && -1 <= Offset(k) <= 0
  {
  }

  lemma LastFields(text: string, p: nat)
    requires p <= |text|
    ensures ScanFields(text, 5, p) == (Next(p), [])
  {
  }

  lemma IsSame(fills: seq<Fill>, items: seq<Item>, mod: nat, off: int, names: Names)
    requires GoodField(items, mod, off, names)
    requires forall x :: 0 <= x < mod ==> (Covered(fills, mod, x) <==> Selected(items, mod, off, names, x))
    ensures Same(fills, items, mod, off, names)
  {
  }

  /** A pattern of in-range items is accepted, and its ranges admit a time if and only if its items do. */
  lemma PatternMeans(p: Pattern)
    requires GoodPattern(p)
    ensures var text := PatternText(p, 0);
            var f := ScanFields(text, 0, 0).1;
            && PatternOutcome(text) == Success && |f| == 5
            && forall min: nat, hour: nat, mday: nat, mon: nat, wday: nat ::
                 min < 60 && hour < 24 && mday < 32 && mon < 12 && wday < 7 ==>
                   (FillsAdmit(f, min, hour, mday, mon, wday) <==> Admits(p, min, hour, mday, mon, wday))
  {
    hide PatternText, ScanFields, Covered, Selected, Same, GoodField;
    var text := PatternText(p, 0);
    NotEmpty(p);
    assert text[0..] == text;
    ScanGoodFields(p, text, 0, 0);
    var (end, f) := ScanFields(text, 0, 0);
    assert forall k :: 0 <= k < 5 ==> Stands(f[k], p, k);
    assert Same(f[0], p.mins, 60, 0, []) && Same(f[1], p.hours, 24, 0, []) && Same(f[2], p.days, 32, 0, []);
    assert Same(f[3], p.mons, 12, -1, Months()) && Same(f[4], p.dow, 7, 0, Weekdays());
    forall min: nat, hour: nat, mday: nat, mon: nat, wday: nat
      | min < 60 && hour < 24 && mday < 32 && mon < 12 && wday < 7
      ensures FillsAdmit(f, min, hour, mday, mon, wday) <==> Admits(p, min, hour, mday, mon, wday)
    {
      SameAdmits(p, f, min, hour, mday, mon, wday);
    }
  }

  lemma SameAdmits(p: Pattern, f: seq<seq<Fill>>, min: nat, hour: nat, mday: nat, mon: nat, wday: nat)
    requires GoodPattern(p) && |f| == 5 && min < 60 && hour < 24 && mday < 32 && mon < 12 && wday < 7
    requires Same(f[0], p.mins, 60, 0, []) && Same(f[1], p.hours, 24, 0, []) && Same(f[2], p.days, 32, 0, [])
    requires Same(f[3], p.mons, 12, -1, Months()) && Same(f[4], p.dow, 7, 0, Weekdays())
    ensures FillsAdmit(f, min, hour, mday, mon, wday) <==> Admits(p, min, hour, mday, mon, wday)
  {
    hide Covered, Selected, GoodField;
  }

  /** Day 0 exists in the table, so a field that lists exactly the real days is not complete: with it an
      incomplete list of weekdays decides nothing. */
  lemma AllRealDays(p: Pattern, min: nat, hour: nat, mday: nat, mon: nat, wday: nat)
    requires GoodPattern(p) && min < 60 && hour < 24 && 1 <= mday < 32 && mon < 12 && wday < 7
    requires forall d :: 0 <= d < 32 ==> (Selected(p.days, 32, 0, [], d) <==> d != 0)
    requires !Every(p.dow, 7, 0, Weekdays())
    ensures Admits(p, min, hour, mday, mon, wday) <==>
            Selected(p.mins, 60, 0, [], min) && Selected(p.hours, 24, 0, [], hour) && Selected(p.mons, 12, -1, Months(), mon)
  {
    hide HitBy;
    assert !Selected(p.days, 32, 0, [], 0);
  }

  // ----- The timetable -----

  /** Whether some entry is not set. */
  method Restricted(ary: array<bool>) returns (used: bool)
    ensures used <==> exists i :: 0 <= i < ary.Length && !ary[i]
  {
    var i := 0;
    while i < ary.Length
      invariant 0 <= i <= ary.Length && forall j :: 0 <= j < i ==> ary[j]
    {
      if !ary[i] {
        return true;
      }
      i := i + 1;
    }
    return false;
  }

  method SetZero(ary: array<bool>)
    modifies ary
    ensures forall i :: 0 <= i < ary.Length ==> !ary[i]
  {
    forall i | 0 <= i < ary.Length {
      ary[i] := false;
    }
  }

  /** ina_cron_timetable_t. */
  class Timetable {
    const mins: array<bool>
    const hours: array<bool>
    const days: array<bool>
    const mons: array<bool>
    const dow: array<bool>

    constructor ()
      ensures Valid() && Zeroed()
      ensures fresh(mins) && fresh(hours) && fresh(days) && fresh(mons) && fresh(dow)
    {
      mins, hours, days := new bool[60](_ => false), new bool[24](_ => false), new bool[32](_ => false);
      mons, dow := new bool[12](_ => false), new bool[7](_ => false);
    }

    predicate Valid() {
      mins.Length == 60 && hours.Length == 24 && days.Length == 32 && mons.Length == 12 && dow.Length == 7
    }

    ghost predicate Zeroed()
      reads mins, hours, days, mons, dow
    {
      && (forall x :: 0 <= x < mins.Length ==> !mins[x]) && (forall x :: 0 <= x < hours.Length ==> !hours[x])
      && (forall x :: 0 <= x < days.Length ==> !days[x]) && (forall x :: 0 <= x < mons.Length ==> !mons[x])
      && (forall x :: 0 <= x < dow.Length ==> !dow[x])
    }

    /** `ary` holds exactly the ranges, or nothing if another field decides. */
    ghost predicate Holds(ary: array<bool>, fills: seq<Fill>, unused: bool)
      reads ary
    {
      forall x :: 0 <= x < ary.Length ==> (ary[x] <==> Covered(fills, ary.Length, x) && !unused)
    }

    /** The timetable of five fields. */
    ghost predicate IsTableOf(f: seq<seq<Fill>>)
      requires Valid() && |f| == 5
      reads mins, hours, days, mons, dow
    {
      && Holds(mins, f[0], false) && Holds(hours, f[1], false) && Holds(mons, f[3], false)
      && Holds(days, f[2], EveryCovered(f[2], 32) && !EveryCovered(f[4], 7))
      && Holds(dow, f[4], EveryCovered(f[4], 7) && !EveryCovered(f[2], 32))
    }

    /** The five fields in turn, for every text. */
    method ParseFields(text: string) returns (buf: Parsed)
      requires Valid()
      modifies mins, hours, days, mons, dow
      ensures buf == ScanFields(text, 0, 0).0
      ensures buf.Next? && old(Zeroed()) ==>
                var f := ScanFields(text, 0, 0).1;
                && Holds(mins, f[0], false) && Holds(hours, f[1], false) && Holds(days, f[2], false)
                && Holds(mons, f[3], false) && Holds(dow, f[4], false)
    {
      hide Scan, Covered, ScanFields;
      NextFields(text, 0, 0);
      buf := ParseField(mins, 60, 0, [], text, 0);
      if buf.Next? {
        NextFields(text, 1, buf.ptr);
        buf := ParseField(hours, 24, 0, [], text, buf.ptr);
      }
      if buf.Next? {
        NextFields(text, 2, buf.ptr);
        buf := ParseField(days, 32, 0, [], text, buf.ptr);
      }
      if buf.Next? {
        NextFields(text, 3, buf.ptr);
        buf := ParseField(mons, 12, -1, Months(), text, buf.ptr);
      }
      if buf.Next? {
        NextFields(text, 4, buf.ptr);
        buf := ParseField(dow, 7, 0, Weekdays(), text, buf.ptr);
      }
      if buf.Next? {
        LastFields(text, buf.ptr);
      }
    }

    lemma NextFields(text: string, k: nat, p: nat)
      requires k < 5 && p <= |text|
      ensures var s := Scan(text, p, Size(k), Offset(k), NamesOf(k), -1);
              && (!s.end.Next? ==> ScanFields(text, k, p) == (s.end, []))
              && (s.end.Next? ==> var r := ScanFields(text, k + 1, s.end.ptr); ScanFields(text, k, p) == (r.0, [s.fills] + r.1))
    {
      hide Scan;
    }

    /** ina_cron_parse_pattern, for every text. */
    method ParsePattern(text: string) returns (r: Outcome)
      requires Valid()
      modifies mins, hours, days, mons, dow
      ensures r == PatternOutcome(text)
      ensures r == Success && old(Zeroed()) ==> IsTableOf(ScanFields(text, 0, 0).1)
    {
      hide ScanFields, Covered;
      if text == "" {
        return InvalidArgument;
      }
      var buf := ParseFields(text);
      if !buf.Next? {
        return if buf.Failed? then InvalidPattern else OutsideArray;
      }
      var weekUsed := Restricted(dow);
      var daysUsed := Restricted(days);
      if weekUsed && !daysUsed {
        SetZero(days);
      }
      if daysUsed && !weekUsed {
        SetZero(dow);
      }
      return Success;
    }

    /** The test of one tick in __ina_test_jobs. */
    method Passes(min: nat, hour: nat, mday: nat, mon: nat, wday: nat, ghost f: seq<seq<Fill>>) returns (b: bool)
      requires Valid() && min < 60 && hour < 24 && mday < 32 && mon < 12 && wday < 7
      ensures |f| == 5 && IsTableOf(f) ==> (b <==> FillsAdmit(f, min, hour, mday, mon, wday))
    {
      hide Covered;
      b := mins[min] && hours[hour] && (days[mday] || dow[wday]) && mons[mon];
    }
  }

  /** From the text of a good pattern to the test of a tick: it passes if and only if the pattern admits
      it. */
  method PatternPasses(text: string, min: nat, hour: nat, mday: nat, mon: nat, wday: nat, ghost p: Pattern)
    returns (r: Outcome, b: bool)
    requires min < 60 && hour < 24 && mday < 32 && mon < 12 && wday < 7
    ensures GoodPattern(p) && text == PatternText(p, 0) ==> r == Success && (b <==> Admits(p, min, hour, mday, mon, wday))
  {
    hide GoodPattern, PatternText, FillsAdmit, Admits, PatternOutcome, ScanFields;
    var tt := new Timetable();
    r := tt.ParsePattern(text);
    b := false;
    if r == Success {
      OutcomeFields(text);
      b := tt.Passes(min, hour, mday, mon, wday, ScanFields(text, 0, 0).1);
    }
    if GoodPattern(p) && text == PatternText(p, 0) {
      PatternMeans(p);
    }
  }

  lemma OutcomeFields(text: string)
    requires PatternOutcome(text) == Success
    ensures |ScanFields(text, 0, 0).1| == 5
  {
  }
}
