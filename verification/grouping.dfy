/**
 * `groupByMonth` and `groupByDate` (`src/lib/utils/date.ts`): one pass over the todos fills
 * a `Map` from key to bucket in insertion order, skipping todos whose reminder does not
 * parse; the entries are then sorted by key. The `Map` is modelled by its key order
 * (`order`) and its contents (`buckets`).
 */
module DateGrouping {
  import opened Wrappers
  import opened Text
  import opened JsDate
  import opened TodoModel
  import opened DateUtils

  datatype Granularity = ByMonth | ByDate

  /** One entry of the result: a key and its bucket. */
  type Group = (string, seq<Todo>)

  /** The key a todo is filed under; nothing when its reminder does not parse and it is skipped. */
  function KeyOf(h: Host, t: Todo, g: Granularity): Option<string> {
    var d := ParseISO(h, t.remindAt);
    if !IsValidDate(d) then None else Some(KeyText(h, d, g))
  }

  /** The key text of a valid date: its `YYYY-MM` month key, or its `formatISODate` text. */
  function KeyText(h: Host, d: Date, g: Granularity): string
    requires IsValidDate(d)
  {
    if g == ByMonth then MonthKey(h.local(d.time)) else FormatISODate(h, d)
  }

  /** The key function of a granularity. */
  function Key(h: Host, g: Granularity): Todo -> Option<string> {
    t => KeyOf(h, t, g)
  }

  /** The todos filed under `k`, in input order. */
  function Bucket(key: Todo -> Option<string>, items: seq<Todo>, k: string): seq<Todo> {
    if items == [] then []
    else
      var last := items[|items| - 1];
      Bucket(key, items[..|items| - 1], k) + (if key(last) == Some(k) then [last] else [])
  }

  /** The todos that have a key, in input order. */
  function Filed(key: Todo -> Option<string>, items: seq<Todo>): seq<Todo> {
    if items == [] then []
    else
      var last := items[|items| - 1];
      Filed(key, items[..|items| - 1]) + (if key(last).Some? then [last] else [])
  }

  function Keys(groups: seq<Group>): seq<string> {
    seq(|groups|, i requires 0 <= i < |groups| => groups[i].0)
  }

  function Flatten(groups: seq<Group>): seq<Todo> {
    if groups == [] then [] else groups[0].1 + Flatten(groups[1..])
  }

  predicate Ascending(keys: seq<string>) {
    forall i, j :: 0 <= i < j < |keys| ==> StrLess(keys[i], keys[j])
  }

  predicate Distinct(keys: seq<string>) {
    forall i, j :: 0 <= i < j < |keys| ==> keys[i] != keys[j]
  }

  /**
   * What the grouping functions return: keys in ascending order, each with the non-empty
   * bucket of todos filed under it (in input order), and a group for every todo with a key.
   */
  predicate IsGrouping(key: Todo -> Option<string>, items: seq<Todo>, groups: seq<Group>) {
    && Ascending(Keys(groups))
    && (forall i :: 0 <= i < |groups| ==> groups[i].1 != [] && groups[i].1 == Bucket(key, items, groups[i].0))
    && (forall t :: t in items && key(t).Some? ==> key(t).value in Keys(groups))
  }

  // ---------------------------------------------------------------- the methods

  /** `groupByMonth`. */
  method GroupByMonth(h: Host, items: seq<Todo>) returns (groups: seq<Group>)
    ensures IsGrouping(Key(h, ByMonth), items, groups)
  {
    groups := GroupBy(h, items, ByMonth);
  }

  /** `groupByDate`. */
  method GroupByDate(h: Host, items: seq<Todo>) returns (groups: seq<Group>)
    ensures IsGrouping(Key(h, ByDate), items, groups)
  {
    groups := GroupBy(h, items, ByDate);
  }

  /** The loop both grouping functions share; only the key differs. */
  method GroupBy(h: Host, items: seq<Todo>, g: Granularity) returns (groups: seq<Group>)
    ensures IsGrouping(Key(h, g), items, groups)
  {
    var order: seq<string> := [];
    var buckets: map<string, seq<Todo>> := map[];
    for n := 0 to |items|
      invariant Filing(Key(h, g), items[..n], order, buckets)
    {
      var t := items[n];
      var d := ParseISO(h, t.remindAt);
      if !IsValidDate(d) {
        SkipStep(Key(h, g), items, n, order, buckets);
        continue;
      }
      var key := KeyText(h, d, g);
      FileStep(Key(h, g), items, n, order, buckets, key);
      if key !in buckets {
        order := order + [key];
        buckets := buckets[key := []];
      }
      buckets := buckets[key := buckets[key] + [t]];
    }
    assert items[..|items|] == items;
    var keys := SortKeys(order);
    groups := Entries(keys, buckets);
    EntriesAreGrouping(Key(h, g), items, keys, buckets);
  }

  /**
   * What the loop keeps after reading a prefix: the keys met so far, once each in first-seen
   * order, are the map's keys, and each maps to the non-empty bucket of the prefix.
   */
  ghost predicate Filing(key: Todo -> Option<string>, prefix: seq<Todo>, order: seq<string>, buckets: map<string, seq<Todo>>) {
    && Distinct(order)
    && (forall k :: k in buckets <==> k in order)
    && (forall k :: k in buckets ==> buckets[k] != [] && buckets[k] == Bucket(key, prefix, k))
    && (forall k :: k !in buckets ==> Bucket(key, prefix, k) == [])
  }

  /** A todo without a key leaves the map as it is. */
  lemma SkipStep(key: Todo -> Option<string>, items: seq<Todo>, n: int, order: seq<string>, buckets: map<string, seq<Todo>>)
    requires 0 <= n < |items| && key(items[n]).None?
    requires Filing(key, items[..n], order, buckets)
    ensures Filing(key, items[..n + 1], order, buckets)
  {
    BucketStep(key, items, n);
  }

  /** A todo with key `k` opens the bucket of `k` if it is new, and goes at the end of it. */
  lemma FileStep(key: Todo -> Option<string>, items: seq<Todo>, n: int, order: seq<string>, buckets: map<string, seq<Todo>>, k: string)
    requires 0 <= n < |items| && key(items[n]) == Some(k)
    requires Filing(key, items[..n], order, buckets)
    ensures var order' := if k in buckets then order else order + [k];
      var started := if k in buckets then buckets else buckets[k := []];
      Filing(key, items[..n + 1], order', started[k := started[k] + [items[n]]])
  {
    if k in buckets {
      KnownKeyStep(key, items, n, order, buckets, k);
    } else {
      assert [] + [items[n]] == [items[n]];
      assert buckets[k := []][k := [] + [items[n]]] == buckets[k := [items[n]]];
      NewKeyStep(key, items, n, order, buckets, k);
    }
  }

  lemma KnownKeyStep(key: Todo -> Option<string>, items: seq<Todo>, n: int, order: seq<string>, buckets: map<string, seq<Todo>>, k: string)
    requires 0 <= n < |items| && key(items[n]) == Some(k) && k in buckets
    requires Filing(key, items[..n], order, buckets)
    ensures Filing(key, items[..n + 1], order, buckets[k := buckets[k] + [items[n]]])
  {
    BucketStep(key, items, n);
    var b := buckets[k := buckets[k] + [items[n]]];
    forall k' | k' in b
      ensures b[k'] != [] && b[k'] == Bucket(key, items[..n + 1], k')
    {
      if k' != k {
        assert b[k'] == buckets[k'];
      }
    }
  }

  lemma NewKeyStep(key: Todo -> Option<string>, items: seq<Todo>, n: int, order: seq<string>, buckets: map<string, seq<Todo>>, k: string)
    requires 0 <= n < |items| && key(items[n]) == Some(k) && k !in buckets
    requires Filing(key, items[..n], order, buckets)
    ensures Filing(key, items[..n + 1], order + [k], buckets[k := [items[n]]])
  {
    DistinctAppend(order, k);
    NewKeySet(order, buckets, k);
    NewKeyBuckets(key, items, n, buckets, k);
  }

  lemma NewKeySet(order: seq<string>, buckets: map<string, seq<Todo>>, k: string)
    requires forall k' :: k' in buckets <==> k' in order
    ensures forall k' :: k' in buckets[k := []] <==> k' in order + [k]
  {
    forall k'
      ensures k' in buckets[k := []] <==> k' in order + [k]
    {
      assert k' in order + [k] <==> k' in order || k' == k;
    }
  }

  lemma NewKeyBuckets(key: Todo -> Option<string>, items: seq<Todo>, n: int, buckets: map<string, seq<Todo>>, k: string)
    requires 0 <= n < |items| && key(items[n]) == Some(k) && k !in buckets
    requires forall k' :: k' in buckets ==> buckets[k'] != [] && buckets[k'] == Bucket(key, items[..n], k')
    requires forall k' :: k' !in buckets ==> Bucket(key, items[..n], k') == []
    ensures var b := buckets[k := [items[n]]];
      && (forall k' :: k' in b ==> b[k'] != [] && b[k'] == Bucket(key, items[..n + 1], k'))
      && (forall k' :: k' !in b ==> Bucket(key, items[..n + 1], k') == [])
  {
    BucketStep(key, items, n);
    var b := buckets[k := [items[n]]];
    forall k' | k' in b
      ensures b[k'] != [] && b[k'] == Bucket(key, items[..n + 1], k')
    {
      if k' != k {
        assert b[k'] == buckets[k'];
      }
    }
    forall k' | k' !in b
      ensures Bucket(key, items[..n + 1], k') == []
    {
      assert k' != k && k' !in buckets;
    }
  }

  lemma DistinctAppend(order: seq<string>, k: string)
    requires Distinct(order) && k !in order
    ensures Distinct(order + [k])
  {
    var order' := order + [k];
    forall i, j | 0 <= i < j < |order'|
      ensures order'[i] != order'[j]
    {
      if j == |order| {
        assert order[i] in order;
      }
    }
  }

  /** The map's entries, in the order of `keys`. */
  function Entries(keys: seq<string>, buckets: map<string, seq<Todo>>): (r: seq<Group>)
    requires forall k :: k in keys ==> k in buckets
    ensures Keys(r) == keys
    ensures forall i :: 0 <= i < |r| ==> r[i].1 == buckets[keys[i]]
  {
    seq(|keys|, i requires 0 <= i < |keys| => (keys[i], buckets[keys[i]]))
  }

  lemma EntriesAreGrouping(key: Todo -> Option<string>, items: seq<Todo>, keys: seq<string>, buckets: map<string, seq<Todo>>)
    requires Ascending(keys)
    requires forall k :: k in buckets <==> k in keys
    requires forall k :: k in buckets ==> buckets[k] != [] && buckets[k] == Bucket(key, items, k)
    requires forall k :: k !in buckets ==> Bucket(key, items, k) == []
    ensures IsGrouping(key, items, Entries(keys, buckets))
  {
    var groups := Entries(keys, buckets);
    forall t | t in items && key(t).Some?
      ensures key(t).value in Keys(groups)
    {
      BucketMembers(key, items, key(t).value);
    }
  }

  lemma BucketStep(key: Todo -> Option<string>, items: seq<Todo>, n: int)
    requires 0 <= n < |items|
    ensures forall k ::
      Bucket(key, items[..n + 1], k) == Bucket(key, items[..n], k) + (if key(items[n]) == Some(k) then [items[n]] else [])
  {
    assert items[..n + 1][..n] == items[..n];
  }

  // ---------------------------------------------------------------- sorting the keys

  /** Inserts a new key into an ascending key list. */
  function InsertKey(k: string, s: seq<string>): (r: seq<string>)
    requires Ascending(s) && k !in s
    ensures Ascending(r) && |r| == |s| + 1
    ensures forall x :: x in r <==> x == k || x in s
  {
    if s == [] then [k]
    else if StrLess(k, s[0]) then
      AscendingAfter(k, s);
      [k] + s
    else
      StrLessTotal(k, s[0]);
      var rest := InsertKey(k, s[1..]);
      AscendingCons(k, rest, s);
      [s[0]] + rest
  }

  lemma AscendingAfter(k: string, s: seq<string>)
    requires Ascending(s) && s != [] && StrLess(k, s[0])
    ensures Ascending([k] + s)
  {
    forall j | 0 <= j < |s|
      ensures StrLess(k, s[j])
    {
      if j > 0 {
        StrLessTransitive(k, s[0], s[j]);
      }
    }
    var r := [k] + s;
    forall i, j | 0 <= i < j < |r|
      ensures StrLess(r[i], r[j])
    {
      if i > 0 {
        assert r[i] == s[i - 1] && r[j] == s[j - 1];
      }
    }
  }

  lemma AscendingCons(k: string, r: seq<string>, s: seq<string>)
    requires Ascending(s) && s != [] && Ascending(r) && StrLess(s[0], k)
    requires forall y :: y in r ==> y == k || y in s[1..]
    ensures Ascending([s[0]] + r)
  {
    forall j | 0 <= j < |r|
      ensures StrLess(s[0], r[j])
    {
      if r[j] != k {
        assert r[j] in r;
        TailIndex(s, r[j]);
      }
    }
    var q := [s[0]] + r;
    forall i, j | 0 <= i < j < |q|
      ensures StrLess(q[i], q[j])
    {
      if i > 0 {
        assert q[i] == r[i - 1] && q[j] == r[j - 1];
      } else {
        assert q[j] == r[j - 1];
      }
    }
  }

  /** A key in the tail of a list sits at a positive index. */
  lemma TailIndex(s: seq<string>, k: string)
    requires Ascending(s) && s != [] && k in s[1..]
    ensures StrLess(s[0], k) && k in s
  {
    var m :| 0 <= m < |s[1..]| && s[1..][m] == k;
    assert s[m + 1] == k;
  }

  /** The keys sorted by ordinal order (`localeCompare` on the fixed-width keys). */
  function SortKeys(s: seq<string>): (r: seq<string>)
    requires Distinct(s)
    ensures Ascending(r) && |r| == |s|
    ensures forall x :: x in r <==> x in s
  {
    if s == [] then []
    else
      var init := s[..|s| - 1];
      assert forall x :: x in init ==> x in s && x != s[|s| - 1];
      InsertKey(s[|s| - 1], SortKeys(init))
  }

  // ---------------------------------------------------------------- lemmas

  /** A bucket holds exactly the todos filed under its key. */
  lemma {:induction false} BucketMembers(key: Todo -> Option<string>, items: seq<Todo>, k: string)
    ensures forall t :: t in Bucket(key, items, k) <==> t in items && key(t) == Some(k)
  {
    if items != [] {
      var init := items[..|items| - 1];
      BucketMembers(key, init, k);
      assert items == init + [items[|items| - 1]];
    }
  }

  /**
   * Every todo of the result sits in the one group whose key is its own key, and the todos
   * dropped are exactly those without a key.
   */
  lemma GroupMembership(key: Todo -> Option<string>, items: seq<Todo>, groups: seq<Group>)
    requires IsGrouping(key, items, groups)
    ensures forall i, t :: 0 <= i < |groups| ==> (t in groups[i].1 <==> t in items && key(t) == Some(groups[i].0))
    ensures forall t :: t in items ==> (key(t).Some? <==> exists i :: 0 <= i < |groups| && t in groups[i].1)
  {
    forall i | 0 <= i < |groups| {
      BucketMembers(key, items, groups[i].0);
    }
    forall t | t in items && key(t).Some?
      ensures exists i :: 0 <= i < |groups| && t in groups[i].1
    {
      var k := key(t).value;
      assert k in Keys(groups);
      var i :| 0 <= i < |Keys(groups)| && Keys(groups)[i] == k;
      assert t in groups[i].1;
    }
  }

  /** The buckets together hold exactly the todos with a key, each once. */
  lemma GroupingPartitions(key: Todo -> Option<string>, items: seq<Todo>, groups: seq<Group>)
    requires IsGrouping(key, items, groups)
    ensures multiset(Flatten(groups)) == multiset(Filed(key, items))
  {
    FlattenIsConcat(key, items, groups);
    AscendingDistinct(Keys(groups));
    ConcatBucketsPartition(key, items, Keys(groups));
  }

  function ConcatBuckets(key: Todo -> Option<string>, items: seq<Todo>, keys: seq<string>): seq<Todo> {
    if keys == [] then [] else Bucket(key, items, keys[0]) + ConcatBuckets(key, items, keys[1..])
  }

  lemma {:induction false} FlattenIsConcat(key: Todo -> Option<string>, items: seq<Todo>, groups: seq<Group>)
    requires forall i :: 0 <= i < |groups| ==> groups[i].1 == Bucket(key, items, groups[i].0)
    ensures Flatten(groups) == ConcatBuckets(key, items, Keys(groups))
  {
    if groups != [] {
      FlattenIsConcat(key, items, groups[1..]);
      assert Keys(groups)[1..] == Keys(groups[1..]);
    }
  }

  lemma AscendingDistinct(keys: seq<string>)
    requires Ascending(keys)
    ensures Distinct(keys)
  {
    forall i, j | 0 <= i < j < |keys|
      ensures keys[i] != keys[j]
    {
      StrLessIrreflexive(keys[i]);
    }
  }

  lemma {:induction false} ConcatBucketsAppend(key: Todo -> Option<string>, p: seq<Todo>, t: Todo, keys: seq<string>)
    requires Distinct(keys)
    ensures multiset(ConcatBuckets(key, p + [t], keys)) ==
      multiset(ConcatBuckets(key, p, keys)) + (if key(t).Some? && key(t).value in keys then multiset{t} else multiset{})
  {
    if keys != [] {
      var k0, rest := keys[0], keys[1..];
      var here: seq<Todo> := if key(t) == Some(k0) then [t] else [];
      assert Bucket(key, p + [t], k0) == Bucket(key, p, k0) + here by {
        assert (p + [t])[..|p|] == p;
      }
      assert ConcatBuckets(key, p + [t], keys) == Bucket(key, p + [t], k0) + ConcatBuckets(key, p + [t], rest);
      assert ConcatBuckets(key, p, keys) == Bucket(key, p, k0) + ConcatBuckets(key, p, rest);
      assert Distinct(rest);
      ConcatBucketsAppend(key, p, t, rest);
      assert key(t).Some? && key(t).value in keys <==> key(t) == Some(k0) || (key(t).Some? && key(t).value in rest) by {
        assert keys == [k0] + rest;
      }
      if key(t) == Some(k0) {
        assert k0 !in rest;
      }
      var extra: multiset<Todo> := if key(t).Some? && key(t).value in rest then multiset{t} else multiset{};
      ConcatStep(Bucket(key, p, k0), here, ConcatBuckets(key, p, rest), ConcatBuckets(key, p + [t], rest), extra);
    }
  }

  lemma ConcatStep(b: seq<Todo>, here: seq<Todo>, r: seq<Todo>, r': seq<Todo>, extra: multiset<Todo>)
    requires multiset(r') == multiset(r) + extra
    ensures multiset(b + here + r') == multiset(b + r) + multiset(here) + extra
  {
  }

  lemma {:induction false} ConcatBucketsPartition(key: Todo -> Option<string>, items: seq<Todo>, keys: seq<string>)
    requires Distinct(keys)
    requires forall t :: t in items && key(t).Some? ==> key(t).value in keys
    ensures multiset(ConcatBuckets(key, items, keys)) == multiset(Filed(key, items))
  {
    if items == [] {
      EmptyConcat(key, keys);
    } else {
      var p, t := items[..|items| - 1], items[|items| - 1];
      assert items == p + [t];
      ConcatBucketsPartition(key, p, keys);
      ConcatBucketsAppend(key, p, t, keys);
    }
  }

  lemma {:induction false} EmptyConcat(key: Todo -> Option<string>, keys: seq<string>)
    ensures ConcatBuckets(key, [], keys) == []
  {
    if keys != [] {
      EmptyConcat(key, keys[1..]);
    }
  }

  /** Two ascending key lists with the same keys are the same list. */
  lemma {:induction false} AscendingUnique(a: seq<string>, b: seq<string>)
    requires Ascending(a) && Ascending(b)
    requires forall k :: k in a <==> k in b
    ensures a == b
  {
    EmptyAlike(a, b);
    if a != [] && b != [] {
      if a[0] != b[0] {
        assert a[0] in a && b[0] in b;
        InTail(a, b[0]);
        InTail(b, a[0]);
        TailIndex(a, b[0]);
        TailIndex(b, a[0]);
        StrLessTotal(a[0], b[0]);
        assert false;
      }
      AscendingDistinct(a);
      AscendingDistinct(b);
      forall k
        ensures k in a[1..] <==> k in b[1..]
      {
        if k in a[1..] {
          TailIndex(a, k);
          StrLessIrreflexive(k);
          InTail(b, k);
        }
        if k in b[1..] {
          TailIndex(b, k);
          StrLessIrreflexive(k);
          InTail(a, k);
        }
      }
      AscendingUnique(a[1..], b[1..]);
      assert a == [a[0]] + a[1..] && b == [b[0]] + b[1..];
    }
  }

  lemma EmptyAlike(a: seq<string>, b: seq<string>)
    requires forall k :: k in a <==> k in b
    ensures a == [] <==> b == []
  {
    if a != [] {
      assert a[0] in b;
    }
    if b != [] {
      assert b[0] in a;
    }
  }

  lemma InTail(s: seq<string>, k: string)
    requires k in s && s != [] && k != s[0]
    ensures k in s[1..]
  {
    var i :| 0 <= i < |s| && s[i] == k;
    assert s[1..][i - 1] == k;
  }

  /** The grouping is determined by its input: the specification admits exactly one result. */
  lemma GroupingUnique(key: Todo -> Option<string>, items: seq<Todo>, x: seq<Group>, y: seq<Group>)
    requires IsGrouping(key, items, x) && IsGrouping(key, items, y)
    ensures x == y
  {
    forall k
      ensures k in Keys(x) <==> k in Keys(y)
    {
      BucketMembers(key, items, k);
      if k in Keys(x) {
        var i :| 0 <= i < |Keys(x)| && Keys(x)[i] == k;
        assert x[i].1[0] in Bucket(key, items, k);
      }
      if k in Keys(y) {
        var i :| 0 <= i < |Keys(y)| && Keys(y)[i] == k;
        assert y[i].1[0] in Bucket(key, items, k);
      }
    }
    AscendingUnique(Keys(x), Keys(y));
    assert |x| == |Keys(x)| == |Keys(y)| == |y|;
    forall i | 0 <= i < |x|
      ensures x[i] == y[i]
    {
      assert Keys(x)[i] == Keys(y)[i];
    }
  }

  /** A todo has a key exactly when its reminder parses, whatever the granularity. */
  lemma FiledIsDated(h: Host, g: Granularity, t: Todo)
    ensures Key(h, g)(t).Some? <==> IsValidDate(ParseISO(h, t.remindAt))
  {
  }

  /** The local fields of a todo whose reminder parses. */
  function LocalOf(h: Host, t: Todo): Local
    requires IsValidDate(ParseISO(h, t.remindAt))
  {
    h.local(ParseISO(h, t.remindAt).time)
  }

  /** Within four-digit years, date groups come in calendar order: a todo of an earlier group is on an earlier day. */
  lemma DateGroupsChronological(h: Host, items: seq<Todo>, groups: seq<Group>, i: int, j: int, t: Todo, u: Todo)
    requires IsGrouping(Key(h, ByDate), items, groups)
    requires 0 <= i < j < |groups| && t in groups[i].1 && u in groups[j].1
    requires forall v :: v in items && IsValidDate(ParseISO(h, v.remindAt)) ==> 1000 <= LocalOf(h, v).year <= 9999
    ensures IsValidDate(ParseISO(h, t.remindAt)) && IsValidDate(ParseISO(h, u.remindAt))
    ensures DayBefore(LocalOf(h, t), LocalOf(h, u))
  {
    BucketMembers(Key(h, ByDate), items, groups[i].0);
    BucketMembers(Key(h, ByDate), items, groups[j].0);
    assert Keys(groups)[i] == groups[i].0 && Keys(groups)[j] == groups[j].0;
    DateKeyOrder(LocalOf(h, t), LocalOf(h, u));
  }

  /** Within four-digit years, month groups come in calendar order of months. */
  lemma MonthGroupsChronological(h: Host, items: seq<Todo>, groups: seq<Group>, i: int, j: int, t: Todo, u: Todo)
    requires IsGrouping(Key(h, ByMonth), items, groups)
    requires 0 <= i < j < |groups| && t in groups[i].1 && u in groups[j].1
    requires forall v :: v in items && IsValidDate(ParseISO(h, v.remindAt)) ==> 1000 <= LocalOf(h, v).year <= 9999
    ensures IsValidDate(ParseISO(h, t.remindAt)) && IsValidDate(ParseISO(h, u.remindAt))
    ensures MonthBefore(LocalOf(h, t), LocalOf(h, u))
  {
    BucketMembers(Key(h, ByMonth), items, groups[i].0);
    BucketMembers(Key(h, ByMonth), items, groups[j].0);
    assert Keys(groups)[i] == groups[i].0 && Keys(groups)[j] == groups[j].0;
    MonthKeyOrder(LocalOf(h, t), LocalOf(h, u));
  }

  // ---------------------------------------------------------------- the calendar pipeline

  /** Grouping a month's bucket by date gives the same day buckets as grouping everything by date. */
  lemma DayOfMonthBucket(h: Host, items: seq<Todo>, mk: string, dk: string)
    requires Bucket(Key(h, ByDate), Bucket(Key(h, ByMonth), items, mk), dk) != []
    ensures |dk| == |mk| + 3 && dk[..|mk|] == mk
    ensures Bucket(Key(h, ByDate), Bucket(Key(h, ByMonth), items, mk), dk) == Bucket(Key(h, ByDate), items, dk)
  {
    var mb := Bucket(Key(h, ByMonth), items, mk);
    var t := Bucket(Key(h, ByDate), mb, dk)[0];
    assert Key(h, ByDate)(t) == Some(dk) && Key(h, ByMonth)(t) == Some(mk) by {
      assert t in Bucket(Key(h, ByDate), mb, dk);
      BucketMembers(Key(h, ByDate), mb, dk);
      BucketMembers(Key(h, ByMonth), items, mk);
    }
    DayKeyFixesMonth(h, t, mk, dk);
    NestedBucket(Key(h, ByMonth), Key(h, ByDate), items, mk, dk);
  }

  /** A date key extends the month key of the same todo, and every todo under that date key is under that month key. */
  lemma DayKeyFixesMonth(h: Host, t: Todo, mk: string, dk: string)
    requires Key(h, ByDate)(t) == Some(dk) && Key(h, ByMonth)(t) == Some(mk)
    ensures |dk| == |mk| + 3 && dk[..|mk|] == mk
    ensures forall u :: Key(h, ByDate)(u) == Some(dk) ==> Key(h, ByMonth)(u) == Some(mk)
  {
    var lt := LocalOf(h, t);
    assert DateKey(lt) == dk && MonthKey(lt) == mk;
    MonthKeyIsDatePrefix(lt);
    forall u | Key(h, ByDate)(u) == Some(dk)
      ensures Key(h, ByMonth)(u) == Some(mk)
    {
      MonthOfDay(LocalOf(h, u), lt);
    }
  }

  lemma MonthOfDay(a: Local, b: Local)
    requires DateKey(a) == DateKey(b)
    ensures MonthKey(a) == MonthKey(b)
  {
    DateKeyInjective(a, b);
  }

  /** Filtering by an outer key and then an inner one is filtering by the inner one, when the inner key fixes the outer. */
  lemma {:induction false} NestedBucket(outer: Todo -> Option<string>, inner: Todo -> Option<string>,
                                        items: seq<Todo>, mk: string, dk: string)
    requires forall u :: inner(u) == Some(dk) ==> outer(u) == Some(mk)
    ensures Bucket(inner, Bucket(outer, items, mk), dk) == Bucket(inner, items, dk)
  {
    if items != [] {
      var p, t := items[..|items| - 1], items[|items| - 1];
      NestedBucket(outer, inner, p, mk, dk);
      var mp := Bucket(outer, p, mk);
      if outer(t) == Some(mk) {
        assert Bucket(outer, items, mk) == mp + [t];
        assert (mp + [t])[..|mp|] == mp;
        assert Bucket(inner, mp + [t], dk) == Bucket(inner, mp, dk) + (if inner(t) == Some(dk) then [t] else []);
      } else {
        assert Bucket(outer, items, mk) == mp;
      }
    }
  }

  /**
   * The day sections shown under one month: the month's bucket grouped by date, where every
   * day key extends the month key, every day bucket holds exactly that day's todos from the
   * whole list, and the day buckets together hold exactly the month's todos.
   */
  predicate DaySections(h: Host, items: seq<Todo>, month: Group, days: seq<Group>) {
    && IsGrouping(Key(h, ByDate), month.1, days)
    && (forall j :: 0 <= j < |days| ==>
          && |days[j].0| == |month.0| + 3 && days[j].0[..|month.0|] == month.0
          && days[j].1 == Bucket(Key(h, ByDate), items, days[j].0))
    && multiset(Flatten(days)) == multiset(month.1)
  }

  /** The month view: each month's bucket grouped again by date. */
  method CalendarSections(h: Host, items: seq<Todo>) returns (months: seq<Group>, sections: seq<seq<Group>>)
    ensures IsGrouping(Key(h, ByMonth), items, months) && |sections| == |months|
    ensures forall i :: 0 <= i < |months| ==> DaySections(h, items, months[i], sections[i])
  {
    months := GroupByMonth(h, items);
    sections := [];
    for i := 0 to |months|
      invariant |sections| == i
      invariant forall m :: 0 <= m < i ==> DaySections(h, items, months[m], sections[m])
    {
      var days := GroupByDate(h, months[i].1);
      MonthDays(h, items, months, i, days);
      SectionsGrow(h, items, months, sections, days);
      sections := sections + [days];
    }
  }

  lemma SectionsGrow(h: Host, items: seq<Todo>, months: seq<Group>, sections: seq<seq<Group>>, days: seq<Group>)
    requires |sections| < |months|
    requires forall m :: 0 <= m < |sections| ==> DaySections(h, items, months[m], sections[m])
    requires DaySections(h, items, months[|sections|], days)
    ensures forall m :: 0 <= m < |sections| + 1 ==> DaySections(h, items, months[m], (sections + [days])[m])
  {
    forall m | 0 <= m < |sections| + 1
      ensures DaySections(h, items, months[m], (sections + [days])[m])
    {
      if m < |sections| {
        assert (sections + [days])[m] == sections[m];
      }
    }
  }

  lemma MonthDays(h: Host, items: seq<Todo>, months: seq<Group>, i: int, days: seq<Group>)
    requires IsGrouping(Key(h, ByMonth), items, months) && 0 <= i < |months|
    requires IsGrouping(Key(h, ByDate), months[i].1, days)
    ensures DaySections(h, items, months[i], days)
  {
    forall j | 0 <= j < |days|
      ensures |days[j].0| == |months[i].0| + 3
      ensures days[j].0[..|months[i].0|] == months[i].0
      ensures days[j].1 == Bucket(Key(h, ByDate), items, days[j].0)
    {
      DayOfMonthBucket(h, items, months[i].0, days[j].0);
    }
    GroupingPartitions(Key(h, ByDate), months[i].1, days);
    AllFiled(Key(h, ByMonth), Key(h, ByDate), items, months[i].0);
  }

  /** A bucket of an outer key has only todos with an inner key, when every todo with the one has the other. */
  lemma {:induction false} AllFiled(outer: Todo -> Option<string>, inner: Todo -> Option<string>, items: seq<Todo>, mk: string)
    requires forall u :: outer(u).Some? ==> inner(u).Some?
    ensures Filed(inner, Bucket(outer, items, mk)) == Bucket(outer, items, mk)
  {
    if items != [] {
      var p, t := items[..|items| - 1], items[|items| - 1];
      AllFiled(outer, inner, p, mk);
      var mp := Bucket(outer, p, mk);
      if outer(t) == Some(mk) {
        assert Bucket(outer, items, mk) == mp + [t];
        assert (mp + [t])[..|mp|] == mp;
        assert Filed(inner, mp + [t]) == Filed(inner, mp) + [t];
      } else {
        assert Bucket(outer, items, mk) == mp;
      }
    }
  }

  /**
   * The "today" section: the page asks `isTodayISO(key + "T00:00:00")` of each date key. When
   * the host reads that text as local midnight of the key's day, the answer is whether the
   * key is today's date text.
   */
  lemma TodaySection(h: Host, l: Local, now: int)
    requires h.parse(DateKey(l) + "T00:00:00").At?
    requires SameDay(h.local(h.parse(DateKey(l) + "T00:00:00").time), l)
    ensures IsTodayISO(h, DateKey(l) + "T00:00:00", now) <==> DateKey(l) == FormatISODate(h, At(now))
  {
    var s := DateKey(l) + "T00:00:00";
    assert s != "";
    DateKeyInjective(h.local(h.parse(s).time), h.local(now));
    DateKeyInjective(h.local(h.parse(s).time), l);
  }
}
