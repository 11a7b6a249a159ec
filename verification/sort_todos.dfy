/**
 * Task ordering (lib/sort-todos.js). `GetDateInfo` classifies a task as undated, date-only
 * or date-and-time; `CompareTodos` is the tiered three-way comparator; `SortTodos` is the
 * stable sort that breaks comparator ties by input position.
 *
 * The source puts UNDATED tasks FIRST (a dated task compares greater than an undated one),
 * then dated tasks by local calendar day, and within a day date-only tasks before timed
 * ones, timed ones by timestamp.
 */
module SortTodos {
  import opened Wrappers
  import opened JsDate
  import opened TodoModel

  /** What `getDateInfo` returns: `{hasDate: false}` or `{hasDate: true, dayValue, hasTime, timestamp}`. */
  datatype DateInfo = NoDate | Dated(dayValue: int, hasTime: bool, timestamp: int)

  function GetDateInfo(h: Host, t: Todo): DateInfo {
    if t.remindAt.None? || t.remindAt.value == "" then NoDate
    else match h.parse(t.remindAt.value)
      case Invalid => NoDate
      case At(ms) =>
        var l := h.local(ms);
        var hasTime := match t.remindHasTime
          case Some(b) => b
          case None => l.hour != 0 || l.minute != 0 || l.second != 0;
        Dated(h.startOfDay(DateCtorYear(l.year), l.month, l.day), hasTime, ms)
  }

  /** `compareTodos(a, b)`: negative when `a` goes first, positive when `b` does, 0 on a tie. */
  function CompareTodos(h: Host, a: Todo, b: Todo): int {
    var ai := GetDateInfo(h, a);
    var bi := GetDateInfo(h, b);
    if ai.Dated? != bi.Dated? then (if ai.Dated? then 1 else -1)
    else if ai.NoDate? then 0
    else if ai.dayValue != bi.dayValue then ai.dayValue - bi.dayValue
    else if ai.hasTime != bi.hasTime then (if ai.hasTime then 1 else -1)
    else if !ai.hasTime then 0
    else ai.timestamp - bi.timestamp
  }

  // ---------------------------------------------------------------- classification

  /** A task counts as dated exactly when its reminder text is present, non-empty and parses. */
  lemma DatedIffParses(h: Host, t: Todo)
    ensures GetDateInfo(h, t).Dated? <==>
      t.remindAt.Some? && t.remindAt.value != "" && h.parse(t.remindAt.value).At?
    ensures GetDateInfo(h, t).Dated? ==> GetDateInfo(h, t).timestamp == h.parse(t.remindAt.value).time
  {
  }

  /**
   * An explicit `remindHasTime` decides; without one, a task has a time exactly when its
   * local time is not midnight to the second (milliseconds are not looked at).
   */
  lemma HasTimeRule(h: Host, t: Todo, ms: int)
    requires t.remindAt.Some? && t.remindAt.value != "" && h.parse(t.remindAt.value) == At(ms)
    ensures GetDateInfo(h, t).Dated?
    ensures t.remindHasTime.Some? ==> GetDateInfo(h, t).hasTime == t.remindHasTime.value
    ensures t.remindHasTime.None? ==>
      (GetDateInfo(h, t).hasTime <==> !(h.local(ms).hour == 0 && h.local(ms).minute == 0 && h.local(ms).second == 0))
  {
  }

  // ---------------------------------------------------------------- the order behind the comparator

  /** The lexicographic key the comparator orders by: (hasDate, day, hasTime, timestamp if timed). */
  datatype SortKey = SortKey(hasDate: bool, day: int, hasTime: bool, time: int)

  function KeyOf(info: DateInfo): SortKey {
    match info
    case NoDate => SortKey(false, 0, false, 0)
    case Dated(d, ht, ts) => SortKey(true, d, ht, if ht then ts else 0)
  }

  function Key(h: Host, t: Todo): SortKey {
    KeyOf(GetDateInfo(h, t))
  }

  /** Lexicographic order on keys, `false` before `true`. */
  predicate KeyLess(x: SortKey, y: SortKey) {
    if x.hasDate != y.hasDate then !x.hasDate
    else if x.day != y.day then x.day < y.day
    else if x.hasTime != y.hasTime then !x.hasTime
    else x.time < y.time
  }

  predicate KeyLe(x: SortKey, y: SortKey) {
    KeyLess(x, y) || x == y
  }

  lemma KeyOrderTotal(x: SortKey, y: SortKey)
    ensures KeyLe(x, y) || KeyLe(y, x)
    ensures KeyLe(x, y) && KeyLe(y, x) ==> x == y
  {
  }

  lemma KeyLeTransitive(x: SortKey, y: SortKey, z: SortKey)
    requires KeyLe(x, y) && KeyLe(y, z)
    ensures KeyLe(x, z)
    ensures KeyLess(x, y) || KeyLess(y, z) ==> KeyLess(x, z)
  {
  }

  /** The sign of `compareTodos` is the lexicographic comparison of the keys. */
  lemma CompareIsKeyOrder(h: Host, a: Todo, b: Todo)
    ensures CompareTodos(h, a, b) < 0 <==> KeyLess(Key(h, a), Key(h, b))
    ensures CompareTodos(h, a, b) == 0 <==> Key(h, a) == Key(h, b)
    ensures CompareTodos(h, a, b) > 0 <==> KeyLess(Key(h, b), Key(h, a))
  {
  }

  function Sign(n: int): int {
    if n < 0 then -1 else if n > 0 then 1 else 0
  }

  /** Swapping the arguments flips the sign. */
  lemma CompareAntisymmetric(h: Host, a: Todo, b: Todo)
    ensures Sign(CompareTodos(h, a, b)) == -Sign(CompareTodos(h, b, a))
  {
    CompareIsKeyOrder(h, a, b);
    CompareIsKeyOrder(h, b, a);
  }

  /** "Not after" is transitive, and strictly so when either step is strict. */
  lemma CompareTransitive(h: Host, a: Todo, b: Todo, c: Todo)
    requires CompareTodos(h, a, b) <= 0 && CompareTodos(h, b, c) <= 0
    ensures CompareTodos(h, a, c) <= 0
    ensures CompareTodos(h, a, b) < 0 || CompareTodos(h, b, c) < 0 ==> CompareTodos(h, a, c) < 0
  {
    CompareIsKeyOrder(h, a, b);
    CompareIsKeyOrder(h, b, c);
    CompareIsKeyOrder(h, a, c);
    KeyLeTransitive(Key(h, a), Key(h, b), Key(h, c));
  }

  // ---------------------------------------------------------------- the tiers

  /** An undated task sorts before every dated one. */
  lemma UndatedFirst(h: Host, undated: Todo, dated: Todo)
    requires GetDateInfo(h, undated).NoDate? && GetDateInfo(h, dated).Dated?
    ensures CompareTodos(h, undated, dated) < 0 && CompareTodos(h, dated, undated) > 0
  {
  }

  /** Two undated tasks tie. */
  lemma UndatedTie(h: Host, a: Todo, b: Todo)
    requires GetDateInfo(h, a).NoDate? && GetDateInfo(h, b).NoDate?
    ensures CompareTodos(h, a, b) == 0
  {
  }

  /** Two date-only tasks on the same local day tie, whatever their timestamps. */
  lemma DateOnlySameDayTie(h: Host, a: Todo, b: Todo)
    requires GetDateInfo(h, a).Dated? && GetDateInfo(h, b).Dated?
    requires !GetDateInfo(h, a).hasTime && !GetDateInfo(h, b).hasTime
    requires SameDay(h.local(GetDateInfo(h, a).timestamp), h.local(GetDateInfo(h, b).timestamp))
    ensures CompareTodos(h, a, b) == 0
  {
  }

  /** A year that `new Date(y, m, d)` reads as 1900 plus the year. */
  predicate TwoDigitYear(y: int) {
    0 <= y <= 99
  }

  /**
   * Dated tasks on different local days go in calendar order, whatever their times, when
   * both years fall on the same side of the two-digit-year rule.
   */
  lemma EarlierDayFirst(h: Host, a: Todo, b: Todo)
    requires StartOfDayIncreasing(h)
    requires GetDateInfo(h, a).Dated? && GetDateInfo(h, b).Dated?
    requires DayBefore(h.local(GetDateInfo(h, a).timestamp), h.local(GetDateInfo(h, b).timestamp))
    requires TwoDigitYear(h.local(GetDateInfo(h, a).timestamp).year) == TwoDigitYear(h.local(GetDateInfo(h, b).timestamp).year)
    ensures CompareTodos(h, a, b) < 0 && CompareTodos(h, b, a) > 0
  {
    var la, lb := h.local(GetDateInfo(h, a).timestamp), h.local(GetDateInfo(h, b).timestamp);
    var ca, cb := la.(year := DateCtorYear(la.year)), lb.(year := DateCtorYear(lb.year));
    assert DayBefore(ca, cb);
    assert h.startOfDay(ca.year, ca.month, ca.day) < h.startOfDay(cb.year, cb.month, cb.day);
  }

  /**
   * The two-digit-year rule reorders days: a task in local year 50 has the midnight of 1950
   * and so sorts after a task in local year 1000, although its day comes first.
   */
  lemma TwoDigitYearSortsLate(h: Host, a: Todo, b: Todo)
    requires StartOfDayIncreasing(h)
    requires GetDateInfo(h, a).Dated? && GetDateInfo(h, b).Dated?
    requires h.local(GetDateInfo(h, a).timestamp).year == 50
    requires h.local(GetDateInfo(h, b).timestamp).year == 1000
    ensures DayBefore(h.local(GetDateInfo(h, a).timestamp), h.local(GetDateInfo(h, b).timestamp))
    ensures CompareTodos(h, a, b) > 0 && CompareTodos(h, b, a) < 0
  {
    var la, lb := h.local(GetDateInfo(h, a).timestamp), h.local(GetDateInfo(h, b).timestamp);
    var ca := la.(year := 1950);
    assert DayBefore(lb, ca);
    assert h.startOfDay(lb.year, lb.month, lb.day) < h.startOfDay(ca.year, ca.month, ca.day);
  }

  /** On one local day, a date-only task precedes a timed one, and timed ones go by timestamp. */
  lemma SameDayOrder(h: Host, a: Todo, b: Todo)
    requires GetDateInfo(h, a).Dated? && GetDateInfo(h, b).Dated?
    requires SameDay(h.local(GetDateInfo(h, a).timestamp), h.local(GetDateInfo(h, b).timestamp))
    ensures !GetDateInfo(h, a).hasTime && GetDateInfo(h, b).hasTime ==> CompareTodos(h, a, b) < 0
    ensures GetDateInfo(h, a).hasTime && GetDateInfo(h, b).hasTime ==>
      CompareTodos(h, a, b) == GetDateInfo(h, a).timestamp - GetDateInfo(h, b).timestamp
  {
  }

  // ---------------------------------------------------------------- the stable sort

  ghost predicate SortedByKey(h: Host, s: seq<Todo>) {
    forall i, j :: 0 <= i < j < |s| ==> KeyLe(Key(h, s[i]), Key(h, s[j]))
  }

  /** Every earlier element compares "not after" every later one. */
  ghost predicate SortedByCompare(h: Host, s: seq<Todo>) {
    forall i, j :: 0 <= i < j < |s| ==> CompareTodos(h, s[i], s[j]) <= 0
  }

  /** The elements of `s` that have key `k`, in their order in `s`: one class of comparator ties. */
  function WithKey(h: Host, s: seq<Todo>, k: SortKey): seq<Todo> {
    if s == [] then []
    else (if Key(h, s[0]) == k then [s[0]] else []) + WithKey(h, s[1..], k)
  }

  /** Inserts `x` before the first element it does not compare after. */
  function Insert(h: Host, x: Todo, s: seq<Todo>): seq<Todo> {
    if s == [] then [x]
    else if CompareTodos(h, x, s[0]) <= 0 then [x] + s
    else [s[0]] + Insert(h, x, s[1..])
  }

  function SortList(h: Host, s: seq<Todo>): seq<Todo> {
    if s == [] then [] else Insert(h, s[0], SortList(h, s[1..]))
  }

  /**
   * `sortTodos(list)`: `[]` when `list` is not an array; otherwise the input rearranged so
   * that it is sorted by `compareTodos`, with every class of tied tasks kept in input order.
   */
  function SortTodos(h: Host, list: Option<seq<Todo>>): (r: seq<Todo>)
    ensures list.None? ==> r == []
    ensures list.Some? ==> multiset(r) == multiset(list.value)
    ensures list.Some? ==> SortedByCompare(h, r)
    ensures list.Some? ==> forall k :: WithKey(h, r, k) == WithKey(h, list.value, k)
  {
    match list
    case None => []
    case Some(s) =>
      SortListFacts(h, s);
      SortedByKeyIsSortedByCompare(h, SortList(h, s));
      SortList(h, s)
  }

  lemma {:induction false} InsertMultiset(h: Host, x: Todo, s: seq<Todo>)
    ensures multiset(Insert(h, x, s)) == multiset(s) + multiset{x}
  {
    if s != [] && CompareTodos(h, x, s[0]) > 0 {
      InsertMultiset(h, x, s[1..]);
      assert s == [s[0]] + s[1..];
    }
  }

  lemma {:induction false} InsertSorted(h: Host, x: Todo, s: seq<Todo>)
    requires SortedByKey(h, s)
    ensures SortedByKey(h, Insert(h, x, s))
  {
    if s == [] {
    } else if CompareTodos(h, x, s[0]) <= 0 {
      CompareIsKeyOrder(h, x, s[0]);
      forall z | z in s ensures KeyLe(Key(h, x), Key(h, z)) {
        HeadFirst(h, s, z);
        KeyLeTransitive(Key(h, x), Key(h, s[0]), Key(h, z));
      }
      ConsSorted(h, x, s);
    } else {
      CompareIsKeyOrder(h, x, s[0]);
      KeyOrderTotal(Key(h, x), Key(h, s[0]));
      var t := Insert(h, x, s[1..]);
      assert SortedByKey(h, s[1..]);
      InsertSorted(h, x, s[1..]);
      InsertMultiset(h, x, s[1..]);
      forall z | z in t ensures KeyLe(Key(h, s[0]), Key(h, z)) {
        assert z in multiset(s[1..]) + multiset{x};
        if z != x {
          assert z in s;
          HeadFirst(h, s, z);
        }
      }
      ConsSorted(h, s[0], t);
      assert Insert(h, x, s) == [s[0]] + t;
    }
  }

  /** The head of a sorted list has the least key. */
  lemma HeadFirst(h: Host, s: seq<Todo>, z: Todo)
    requires SortedByKey(h, s) && z in s
    ensures KeyLe(Key(h, s[0]), Key(h, z))
  {
    var m :| 0 <= m < |s| && s[m] == z;
    if m > 0 {
      assert KeyLe(Key(h, s[0]), Key(h, s[m]));
    }
  }

  /** Putting an element whose key is at most every key of a sorted list in front keeps it sorted. */
  lemma ConsSorted(h: Host, y: Todo, t: seq<Todo>)
    requires SortedByKey(h, t)
    requires forall z :: z in t ==> KeyLe(Key(h, y), Key(h, z))
    ensures SortedByKey(h, [y] + t)
  {
    var r := [y] + t;
    forall i, j | 0 <= i < j < |r| ensures KeyLe(Key(h, r[i]), Key(h, r[j])) {
      assert r[j] == t[j - 1];
      if i == 0 {
        assert t[j - 1] in t;
      } else {
        assert r[i] == t[i - 1];
      }
    }
  }

  lemma {:induction false} InsertWithKey(h: Host, x: Todo, s: seq<Todo>, k: SortKey)
    ensures WithKey(h, Insert(h, x, s), k) ==
      (if k == Key(h, x) then [x] + WithKey(h, s, k) else WithKey(h, s, k))
  {
    if s == [] {
    } else if CompareTodos(h, x, s[0]) <= 0 {
      assert ([x] + s)[1..] == s;
    } else {
      CompareIsKeyOrder(h, x, s[0]);
      InsertWithKey(h, x, s[1..], k);
      assert ([s[0]] + Insert(h, x, s[1..]))[1..] == Insert(h, x, s[1..]);
    }
  }

  lemma SortListFacts(h: Host, s: seq<Todo>)
    ensures multiset(SortList(h, s)) == multiset(s)
    ensures SortedByKey(h, SortList(h, s))
    ensures forall k :: WithKey(h, SortList(h, s), k) == WithKey(h, s, k)
  {
    SortListMultiset(h, s);
    SortListSorted(h, s);
    forall k ensures WithKey(h, SortList(h, s), k) == WithKey(h, s, k) {
      SortListClasses(h, s, k);
    }
  }

  lemma {:induction false} SortListMultiset(h: Host, s: seq<Todo>)
    ensures multiset(SortList(h, s)) == multiset(s)
  {
    if s != [] {
      var r := SortList(h, s[1..]);
      assert SortList(h, s) == Insert(h, s[0], r);
      SortListMultiset(h, s[1..]);
      InsertMultiset(h, s[0], r);
      assert s == [s[0]] + s[1..];
      SamePlusOne(s[0], s[1..], r, Insert(h, s[0], r));
    }
  }

  lemma SamePlusOne(x: Todo, s: seq<Todo>, r: seq<Todo>, q: seq<Todo>)
    requires multiset(r) == multiset(s) && multiset(q) == multiset(r) + multiset{x}
    ensures multiset(q) == multiset([x] + s)
  {
  }

  lemma {:induction false} SortListSorted(h: Host, s: seq<Todo>)
    ensures SortedByKey(h, SortList(h, s))
  {
    if s != [] {
      SortListSorted(h, s[1..]);
      InsertSorted(h, s[0], SortList(h, s[1..]));
    }
  }

  lemma {:induction false} SortListClasses(h: Host, s: seq<Todo>, k: SortKey)
    ensures WithKey(h, SortList(h, s), k) == WithKey(h, s, k)
  {
    if s != [] {
      SortListClasses(h, s[1..], k);
      InsertWithKey(h, s[0], SortList(h, s[1..]), k);
    }
  }

  lemma SortedByKeyIsSortedByCompare(h: Host, s: seq<Todo>)
    ensures SortedByKey(h, s) <==> SortedByCompare(h, s)
  {
    forall i, j | 0 <= i < j < |s| ensures KeyLe(Key(h, s[i]), Key(h, s[j])) <==> CompareTodos(h, s[i], s[j]) <= 0 {
      CompareIsKeyOrder(h, s[i], s[j]);
    }
  }

  lemma {:induction false} WithKeyMembers(h: Host, s: seq<Todo>, k: SortKey, x: Todo)
    ensures x in WithKey(h, s, k) <==> x in s && Key(h, x) == k
  {
    if s != [] {
      WithKeyMembers(h, s[1..], k, x);
      assert s == [s[0]] + s[1..];
    }
  }

  lemma HeadTieClass(h: Host, s: seq<Todo>)
    requires s != []
    ensures WithKey(h, s, Key(h, s[0])) != []
  {
  }

  /**
   * The stable sort is unique: two arrangements that are both sorted by key and hold the
   * same tie classes in the same orders are equal.
   */
  lemma {:induction false} StableArrangementUnique(h: Host, r1: seq<Todo>, r2: seq<Todo>)
    requires SortedByKey(h, r1) && SortedByKey(h, r2)
    requires forall k :: WithKey(h, r1, k) == WithKey(h, r2, k)
    ensures r1 == r2
  {
    if r1 == [] && r2 == [] {
    } else if r1 == [] || r2 == [] {
      // the non-empty side has a non-empty tie class that the empty side lacks
      var r := if r1 == [] then r2 else r1;
      HeadTieClass(h, r);
      assert false;
    } else {
      SameHead(h, r1, r2);
      TailClasses(h, r1, r2);
      assert SortedByKey(h, r1[1..]) && SortedByKey(h, r2[1..]);
      StableArrangementUnique(h, r1[1..], r2[1..]);
      assert r1 == [r1[0]] + r1[1..] && r2 == [r2[0]] + r2[1..];
    }
  }

  /** Two sorted arrangements with the same tie classes start with the same task. */
  lemma SameHead(h: Host, r1: seq<Todo>, r2: seq<Todo>)
    requires r1 != [] && r2 != []
    requires SortedByKey(h, r1) && SortedByKey(h, r2)
    requires forall k :: WithKey(h, r1, k) == WithKey(h, r2, k)
    ensures r1[0] == r2[0]
  {
    var k1, k2 := Key(h, r1[0]), Key(h, r2[0]);
    assert r1[0] in WithKey(h, r1, k1);
    WithKeyMembers(h, r2, k1, r1[0]);
    var j :| 0 <= j < |r2| && r2[j] == r1[0];
    assert KeyLe(k2, k1) by { if j > 0 { assert KeyLe(Key(h, r2[0]), Key(h, r2[j])); } }
    assert r2[0] in WithKey(h, r2, k2);
    WithKeyMembers(h, r1, k2, r2[0]);
    var i :| 0 <= i < |r1| && r1[i] == r2[0];
    assert KeyLe(k1, k2) by { if i > 0 { assert KeyLe(Key(h, r1[0]), Key(h, r1[i])); } }
    KeyOrderTotal(k1, k2);
    assert WithKey(h, r1, k1)[0] == r1[0];
    assert WithKey(h, r2, k1)[0] == r2[0];
  }

  /** With the same head, the tails have the same tie classes too. */
  lemma TailClasses(h: Host, r1: seq<Todo>, r2: seq<Todo>)
    requires r1 != [] && r2 != [] && r1[0] == r2[0]
    requires forall k :: WithKey(h, r1, k) == WithKey(h, r2, k)
    ensures forall k :: WithKey(h, r1[1..], k) == WithKey(h, r2[1..], k)
  {
    forall k ensures WithKey(h, r1[1..], k) == WithKey(h, r2[1..], k) {
      assert WithKey(h, r1, k) == WithKey(h, r2, k);
      if Key(h, r1[0]) == k {
        assert WithKey(h, r1, k) == [r1[0]] + WithKey(h, r1[1..], k);
        assert WithKey(h, r2, k) == [r2[0]] + WithKey(h, r2[1..], k);
        assert WithKey(h, r1[1..], k) == WithKey(h, r1, k)[1..];
        assert WithKey(h, r2[1..], k) == WithKey(h, r2, k)[1..];
      } else {
        assert [] + WithKey(h, r1[1..], k) == WithKey(h, r1[1..], k);
        assert [] + WithKey(h, r2[1..], k) == WithKey(h, r2[1..], k);
        assert WithKey(h, r1, k) == WithKey(h, r1[1..], k);
        assert WithKey(h, r2, k) == WithKey(h, r2[1..], k);
      }
    }
  }

  /**
   * `sortTodos` is THE stable sort by `compareTodos`: any arrangement of the input that is
   * sorted by the comparator and keeps every tie class in input order is its result. So the
   * result does not depend on which algorithm the engine's `Array.prototype.sort` runs.
   */
  lemma SortTodosIsTheStableSort(h: Host, s: seq<Todo>, r: seq<Todo>)
    requires SortedByCompare(h, r)
    requires forall k :: WithKey(h, r, k) == WithKey(h, s, k)
    ensures r == SortTodos(h, Some(s))
  {
    SortedByKeyIsSortedByCompare(h, r);
    SortListFacts(h, s);
    StableArrangementUnique(h, r, SortList(h, s));
  }
}
