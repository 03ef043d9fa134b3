/** Chat messages grouped by day: what a grouping is, how it grows, and how one is computed. */
module ChatGroups {
  import opened Outcomes

  datatype Message = Message(account: string, date: Option<int>, content: string)

  /** The calendar: later times are on the same day or a later one. */
  ghost predicate Monotone(day: int -> int) {
    forall a, b :: a <= b ==> day(a) <= day(b)
  }

  // ----- what a grouping is -----

  predicate Dated(ms: seq<Message>) {
    forall i :: 0 <= i < |ms| ==> ms[i].date.Some?
  }

  predicate Sorted(ms: seq<Message>) {
    && Dated(ms)
    && forall i, j :: 0 <= i < j < |ms| ==> ms[i].date.value <= ms[j].date.value
  }

  function DatedOnly(ms: seq<Message>): (r: seq<Message>)
    ensures Dated(r)
  {
    if ms == [] then []
    else DatedOnly(ms[..|ms| - 1]) + if ms[|ms| - 1].date.Some? then [ms[|ms| - 1]] else []
  }

  function Flat(groups: seq<seq<Message>>): (r: seq<Message>)
    ensures Shaped(groups) ==> Dated(r)
  {
    if groups == [] then [] else Flat(groups[..|groups| - 1]) + groups[|groups| - 1]
  }

  /** No group is empty, and every message has a date. */
  predicate Shaped(groups: seq<seq<Message>>) {
    forall i :: 0 <= i < |groups| ==> groups[i] != [] && Dated(groups[i])
  }

  /** One group a day, days in order, and each group in order. */
  predicate Grouped(day: int -> int, groups: seq<seq<Message>>) {
    && Shaped(groups)
    && (forall i :: 0 <= i < |groups| ==> Sorted(groups[i]) && OneDay(day, groups[i]))
    && (forall i, j :: 0 <= i < j < |groups| ==> day(groups[i][0].date.value) < day(groups[j][0].date.value))
  }

  predicate OneDay(day: int -> int, g: seq<Message>)
    requires g != [] && Dated(g)
  {
    forall k :: 0 <= k < |g| ==> day(g[k].date.value) == day(g[0].date.value)
  }

  /** Grouped, and made of exactly the messages that have a date. */
  predicate Grouping(day: int -> int, ms: seq<Message>, groups: seq<seq<Message>>) {
    Grouped(day, groups) && multiset(Flat(groups)) == multiset(DatedOnly(ms))
  }

  // ----- one more message -----

  /** The message joins the last group if that is the group of its day, and otherwise starts one. */
  function Extend(day: int -> int, groups: seq<seq<Message>>, m: Message): (r: seq<seq<Message>>)
    requires Shaped(groups) && m.date.Some?
    ensures Shaped(r) && r != [] && Flat(r) == Flat(groups) + [m]
  {
    var n := |groups|;
    if n > 0 && day(groups[n - 1][0].date.value) == day(m.date.value) then
      var r := groups[..n - 1] + [groups[n - 1] + [m]];
      assert r[..n - 1] == groups[..n - 1];
      r
    else
      var r := groups + [[m]];
      assert r[..n] == groups;
      r
  }

  function ExtendAll(day: int -> int, groups: seq<seq<Message>>, ms: seq<Message>): (r: seq<seq<Message>>)
    requires Shaped(groups) && Dated(ms)
    ensures Shaped(r) && Flat(r) == Flat(groups) + ms
  {
    if ms == [] then groups
    else
      assert Flat(groups) + ms == Flat(groups) + ms[..|ms| - 1] + [ms[|ms| - 1]];
      Extend(day, ExtendAll(day, groups, ms[..|ms| - 1]), ms[|ms| - 1])
  }

  lemma SortedJoin(a: seq<Message>, b: seq<Message>)
    requires Sorted(a) && Sorted(b)
    requires a != [] && b != [] ==> a[|a| - 1].date.value <= b[0].date.value
    ensures Sorted(a + b)
  {
  }

  /** The last group of a grouping, and the groups before it. */
  lemma GroupedLast(day: int -> int, groups: seq<seq<Message>>)
    requires Monotone(day) && Grouped(day, groups) && groups != []
    ensures var n := |groups| - 1;
            && Grouped(day, groups[..n]) && groups[n] != [] && Sorted(groups[n])
            && (n > 0 ==>
                  var h := groups[n - 1];
                  h != [] && Sorted(h) && h[|h| - 1].date.value <= groups[n][0].date.value)
  {
  }

  /** Read group after group, a grouping is in order. */
  lemma {:induction false} GroupedSorted(day: int -> int, groups: seq<seq<Message>>)
    requires Monotone(day) && Grouped(day, groups)
    ensures Sorted(Flat(groups))
    ensures groups != [] ==>
      var g := groups[|groups| - 1];
      Flat(groups) != [] && Flat(groups)[|Flat(groups)| - 1] == g[|g| - 1]
  {
    if groups != [] {
      GroupedLast(day, groups);
      hide Sorted, Grouped;
      var n := |groups| - 1;
      GroupedSorted(day, groups[..n]);
      SortedJoin(Flat(groups[..n]), groups[n]);
    }
  }

  lemma SortedPrefix(ms: seq<Message>, m: Message)
    ensures Sorted(ms + [m]) <==>
      Sorted(ms) && m.date.Some? && (ms == [] || ms[|ms| - 1].date.value <= m.date.value)
  {
    var s := ms + [m];
    if Sorted(s) {
      assert forall i :: 0 <= i < |ms| ==> s[i] == ms[i];
      assert s[|ms|] == m;
    }
  }

  lemma JoinGrouped(day: int -> int, groups: seq<seq<Message>>, g: seq<Message>, m: Message)
    requires g != [] && Dated(g) && m.date.Some?
    requires Grouped(day, groups + [g]) && day(g[0].date.value) == day(m.date.value)
    requires g[|g| - 1].date.value <= m.date.value
    ensures Grouped(day, groups + [g + [m]])
  {
    var before, after, n := groups + [g], groups + [g + [m]], |groups|;
    assert before[n] == g && after[n] == g + [m];
    SortedPrefix(g, m);
    assert OneDay(day, g);
    assert OneDay(day, g + [m]);
    forall i | 0 <= i < n
      ensures after[i] == before[i] && after[i] != [] && Sorted(after[i]) && OneDay(day, after[i])
      ensures day(after[i][0].date.value) < day(m.date.value)
    {
      assert day(before[i][0].date.value) < day(before[n][0].date.value);
    }
  }

  lemma StartGrouped(day: int -> int, groups: seq<seq<Message>>, m: Message)
    requires Grouped(day, groups) && m.date.Some?
    requires groups != [] ==> day(groups[|groups| - 1][0].date.value) < day(m.date.value)
    ensures Grouped(day, groups + [[m]])
  {
  }

  /** A message keeps a grouping exactly when it is not older than the last one. */
  lemma ExtendKeepsGrouped(day: int -> int, groups: seq<seq<Message>>, m: Message)
    requires Monotone(day) && Grouped(day, groups) && m.date.Some?
    ensures Grouped(day, Extend(day, groups, m)) <==> Sorted(Flat(groups) + [m])
  {
    hide Flat, Sorted;
    var r, n := Extend(day, groups, m), |groups|;
    if Grouped(day, r) {
      GroupedSorted(day, r);
    }
    GroupedSorted(day, groups);
    if Sorted(Flat(groups) + [m]) {
      SortedPrefix(Flat(groups), m);
      if n == 0 {
        StartGrouped(day, groups, m);
      } else {
        var g := groups[n - 1];
        assert OneDay(day, g);
        assert day(g[|g| - 1].date.value) <= day(m.date.value);
        if day(g[0].date.value) == day(m.date.value) {
          assert groups == groups[..n - 1] + [g];
          JoinGrouped(day, groups[..n - 1], g, m);
        } else {
          StartGrouped(day, groups, m);
        }
      }
    }
  }

  /**
   Adding messages one at a time to a grouping leaves a grouping if and only if they come in the
   order of their dates, after all the messages before them.
   */
  lemma {:induction false} IncrementalExact(day: int -> int, groups: seq<seq<Message>>, ms: seq<Message>)
    requires Monotone(day) && Grouped(day, groups) && Dated(ms)
    ensures Grouped(day, ExtendAll(day, groups, ms)) <==> Sorted(Flat(groups) + ms)
  {
    if ms == [] {
      GroupedSorted(day, groups);
      assert Flat(groups) + [] == Flat(groups);
    } else {
      var init, m := ms[..|ms| - 1], ms[|ms| - 1];
      var before := ExtendAll(day, groups, init);
      assert Flat(groups) + ms == Flat(groups) + init + [m] by { assert ms == init + [m]; }
      IncrementalExact(day, groups, init);
      SortedPrefix(Flat(groups) + init, m);
      if Grouped(day, before) {
        ExtendKeepsGrouped(day, before, m);
      } else if Grouped(day, ExtendAll(day, groups, ms)) {
        GroupedSorted(day, ExtendAll(day, groups, ms));
      }
    }
  }

  // ----- a list has one grouping -----

  lemma {:induction false} ExtendAllAppend(day: int -> int, groups: seq<seq<Message>>, a: seq<Message>, b: seq<Message>)
    requires Shaped(groups) && Dated(a) && Dated(b)
    ensures ExtendAll(day, groups, a + b) == ExtendAll(day, ExtendAll(day, groups, a), b)
  {
    if b == [] {
      assert a + [] == a;
    } else {
      assert (a + b)[..|a + b| - 1] == a + b[..|b| - 1];
      ExtendAllAppend(day, groups, a, b[..|b| - 1]);
    }
  }

  lemma ExtendLast(day: int -> int, groups: seq<seq<Message>>, g: seq<Message>, m: Message)
    requires Shaped(groups + [g]) && g != [] && Dated(g) && m.date.Some?
    requires day(g[0].date.value) == day(m.date.value)
    ensures Extend(day, groups + [g], m) == groups + [g + [m]]
  {
  }

  lemma ShapedJoin(groups: seq<seq<Message>>, g: seq<Message>)
    requires Shaped(groups) && g != [] && Dated(g)
    ensures Shaped(groups + [g])
  {
  }

  /** Messages of one new day make one new group. */
  lemma {:induction false} ExtendByGroup(day: int -> int, groups: seq<seq<Message>>, g: seq<Message>)
    requires Shaped(groups) && g != [] && Dated(g) && OneDay(day, g)
    requires groups != [] ==> day(groups[|groups| - 1][0].date.value) != day(g[0].date.value)
    ensures ExtendAll(day, groups, g) == groups + [g]
  {
    hide Extend, Flat, Shaped;
    var init, m := g[..|g| - 1], g[|g| - 1];
    assert g == init + [m];
    if init == [] {
      assert ExtendAll(day, groups, init) == groups;
      assert Extend(day, groups, m) == groups + [[m]] by { ExtendNew(day, groups, m); }
    } else {
      assert OneDay(day, init);
      ExtendByGroup(day, groups, init);
      ShapedJoin(groups, init);
      ExtendLast(day, groups, init, m);
    }
  }

  lemma ExtendNew(day: int -> int, groups: seq<seq<Message>>, m: Message)
    requires Shaped(groups) && m.date.Some?
    requires groups != [] ==> day(groups[|groups| - 1][0].date.value) != day(m.date.value)
    ensures Extend(day, groups, m) == groups + [[m]]
  {
  }

  /** A grouping is what adding its own messages one at a time gives. */
  lemma {:induction false} Regroup(day: int -> int, groups: seq<seq<Message>>)
    requires Grouped(day, groups)
    ensures groups == ExtendAll(day, [], Flat(groups))
  {
    hide ExtendAll, Sorted, OneDay;
    if groups == [] {
      NothingToExtend(day);
    } else {
      var n := |groups| - 1;
      Regroup(day, groups[..n]);
      ExtendByGroup(day, groups[..n], groups[n]);
      ExtendAllAppend(day, [], Flat(groups[..n]), groups[n]);
      assert groups == groups[..n] + [groups[n]];
    }
  }

  lemma NothingToExtend(day: int -> int)
    ensures ExtendAll(day, [], []) == []
  {
  }

  /** Messages of the same time are the same message. */
  predicate DatesIdentify(ms: seq<Message>) {
    forall x, y :: x in ms && y in ms && x.date == y.date ==> x == y
  }

  lemma MultisetTail(a: seq<Message>, b: seq<Message>)
    requires a != [] && b != [] && a[0] == b[0] && multiset(a) == multiset(b)
    ensures multiset(a[1..]) == multiset(b[1..])
  {
    assert a == [a[0]] + a[1..] && b == [b[0]] + b[1..];
    assert multiset(a[1..]) == multiset(a) - multiset{a[0]};
    assert multiset(b[1..]) == multiset(b) - multiset{b[0]};
  }

  lemma SortedTail(a: seq<Message>)
    requires Sorted(a) && a != []
    ensures Sorted(a[1..])
    ensures forall x :: x in a ==> x.date.Some? && a[0].date.value <= x.date.value
  {
  }

  /** The least message is the same on both sides. */
  lemma SortedHead(a: seq<Message>, b: seq<Message>)
    requires Sorted(a) && Sorted(b) && multiset(a) == multiset(b) && DatesIdentify(a) && a != []
    ensures b != [] && a[0] == b[0] && DatesIdentify(a[1..])
  {
    assert |multiset(a)| == |multiset(b)|;
    SortedTail(a);
    SortedTail(b);
    hide Sorted;
    assert a[0] in multiset(b) && b[0] in multiset(a);
  }

  lemma {:induction false} SortedUnique(a: seq<Message>, b: seq<Message>)
    requires Sorted(a) && Sorted(b) && multiset(a) == multiset(b) && DatesIdentify(a)
    ensures a == b
    decreases |a|
  {
    hide Sorted, DatesIdentify;
    if a == [] {
      assert |multiset(b)| == 0;
    } else {
      SortedHead(a, b);
      SortedTail(a);
      SortedTail(b);
      MultisetTail(a, b);
      SortedUnique(a[1..], b[1..]);
      assert a == [a[0]] + a[1..] && b == [b[0]] + b[1..];
    }
  }

  /** Two groupings of the same messages are the same, however ties were broken. */
  lemma GroupingUnique(day: int -> int, ms: seq<Message>, g: seq<seq<Message>>, h: seq<seq<Message>>)
    requires Monotone(day) && DatesIdentify(DatedOnly(ms))
    requires Grouping(day, ms, g) && Grouping(day, ms, h)
    ensures g == h
  {
    GroupedSorted(day, g);
    GroupedSorted(day, h);
    forall x | x in Flat(g)
      ensures x in DatedOnly(ms)
    {
      assert x in multiset(Flat(g));
    }
    SortedUnique(Flat(g), Flat(h));
    Regroup(day, g);
    Regroup(day, h);
  }

  lemma {:induction false} DatedOnlyAppend(ms: seq<Message>, ns: seq<Message>)
    requires Dated(ns)
    ensures DatedOnly(ms + ns) == DatedOnly(ms) + ns
  {
    if ns == [] {
      assert ms + ns == ms;
    } else {
      assert (ms + ns)[..|ms + ns| - 1] == ms + ns[..|ns| - 1];
      DatedOnlyAppend(ms, ns[..|ns| - 1]);
      assert ns == ns[..|ns| - 1] + [ns[|ns| - 1]];
    }
  }

  // ----- grouping a fetched list -----

  /** The messages whose date falls on one of the days, in their order. */
  function OnDays(day: int -> int, ms: seq<Message>, days: set<int>): (r: seq<Message>)
    ensures Dated(r) && forall m :: m in r ==> day(m.date.value) in days
  {
    if ms == [] then []
    else
      var before, m := OnDays(day, ms[..|ms| - 1], days), ms[|ms| - 1];
      if m.date.Some? && day(m.date.value) in days then before + [m] else before
  }

  lemma {:induction false} OneMoreDay(day: int -> int, ms: seq<Message>, days: set<int>, k: int)
    requires k !in days
    ensures multiset(OnDays(day, ms, days + {k})) == multiset(OnDays(day, ms, days)) + multiset(OnDays(day, ms, {k}))
  {
    if ms != [] {
      OneMoreDay(day, ms[..|ms| - 1], days, k);
    }
  }

  lemma {:induction false} AllDays(day: int -> int, ms: seq<Message>, days: set<int>)
    requires forall k :: k !in days ==> OnDays(day, ms, {k}) == []
    ensures OnDays(day, ms, days) == DatedOnly(ms)
  {
    if ms != [] {
      var m := ms[|ms| - 1];
      forall k | k !in days
        ensures OnDays(day, ms[..|ms| - 1], {k}) == []
      {
        assert OnDays(day, ms, {k}) == [];
      }
      AllDays(day, ms[..|ms| - 1], days);
      if m.date.Some? {
        var k := day(m.date.value);
        assert k !in days ==> OnDays(day, ms, {k}) == [];
      }
    }
  }

  predicate Increasing(ks: seq<int>) {
    forall i, j :: 0 <= i < j < |ks| ==> ks[i] < ks[j]
  }

  lemma IncreasingPrefix(ks: seq<int>, k: int)
    ensures Increasing(ks + [k]) <==> Increasing(ks) && (ks == [] || ks[|ks| - 1] < k)
  {
    if Increasing(ks + [k]) {
      assert forall i :: 0 <= i < |ks| ==> (ks + [k])[i] == ks[i];
      assert (ks + [k])[|ks|] == k;
    }
  }

  lemma IncreasingLast(ks: seq<int>)
    requires Increasing(ks) && ks != []
    ensures forall x :: x in ks ==> x <= ks[|ks| - 1]
  {
  }

  function InsertedKey(ks: seq<int>, k: int): seq<int> {
    if ks == [] || ks[|ks| - 1] < k then ks + [k] else InsertedKey(ks[..|ks| - 1], k) + [ks[|ks| - 1]]
  }

  lemma {:induction false} InsertedIncreasing(ks: seq<int>, k: int)
    requires Increasing(ks) && k !in ks
    ensures Increasing(InsertedKey(ks, k)) && forall x :: x in InsertedKey(ks, k) <==> x in ks || x == k
  {
    hide Increasing;
    IncreasingPrefix(ks, k);
    if ks != [] && k < ks[|ks| - 1] {
      var init, last := ks[..|ks| - 1], ks[|ks| - 1];
      var r := InsertedKey(init, k);
      IncreasingPrefix(init, last);
      assert ks == init + [last];
      IncreasingLast(ks);
      InsertedIncreasing(init, k);
      assert Increasing(init + [last]);
      LastIsNew(init, last);
      IncreasingPrefix(r, last);
      assert r != [] ==> r[|r| - 1] in r;
    }
  }

  lemma LastIsNew(ks: seq<int>, k: int)
    requires Increasing(ks + [k])
    ensures k !in ks
  {
    assert forall i :: 0 <= i < |ks| ==> (ks + [k])[i] == ks[i];
    assert (ks + [k])[|ks|] == k;
  }

  lemma HasKey(keys: set<int>)
    ensures keys == {} || exists k :: k in keys
  {
    if forall k :: k !in keys {
      assert keys == {};
    }
  }

  /** The sorted keys of a dictionary. */
  method SortedKeys(keys: set<int>) returns (ks: seq<int>)
    ensures Increasing(ks) && forall k :: k in ks <==> k in keys
  {
    hide InsertedKey;
    ks := [];
    var rest := keys;
    while rest != {}
      invariant Increasing(ks)
      invariant forall k :: k in keys <==> k in rest || k in ks
      invariant forall k :: k in ks ==> k !in rest
      decreases |rest|
    {
      HasKey(rest);
      var k :| k in rest;
      rest := rest - {k};
      InsertedIncreasing(ks, k);
      ks := InsertedKey(ks, k);
    }
  }

  function Inserted(r: seq<Message>, m: Message): seq<Message>
    requires Dated(r) && m.date.Some?
  {
    if r == [] || r[|r| - 1].date.value <= m.date.value then r + [m]
    else Inserted(r[..|r| - 1], m) + [r[|r| - 1]]
  }

  lemma SortedLast(r: seq<Message>)
    requires Sorted(r) && r != []
    ensures Dated(r) && forall x :: x in r ==> x.date.Some? && x.date.value <= r[|r| - 1].date.value
  {
  }

  lemma {:induction false} InsertedSorted(r: seq<Message>, m: Message)
    requires Dated(r) && Sorted(r) && m.date.Some?
    ensures Sorted(Inserted(r, m))
    ensures multiset(Inserted(r, m)) == multiset(r) + multiset{m}
    ensures forall x :: x in Inserted(r, m) ==> x in r || x == m
  {
    hide Sorted;
    SortedPrefix(r, m);
    if r != [] && m.date.value < r[|r| - 1].date.value {
      var init, last := r[..|r| - 1], r[|r| - 1];
      var s := Inserted(init, m);
      SortedPrefix(init, last);
      SortedLast(r);
      assert r == init + [last];
      InsertedSorted(init, m);
      SortedPrefix(s, last);
      assert s != [] ==> s[|s| - 1] in s;
    }
  }

  /** A list sorted by date. Nothing is promised about messages of the same time. */
  method SortedByDate(ms: seq<Message>) returns (r: seq<Message>)
    requires Dated(ms)
    ensures Sorted(r) && multiset(r) == multiset(ms)
  {
    hide Sorted, Inserted;
    r := [];
    SortedNothing();
    for n := 0 to |ms|
      invariant Sorted(r) && Dated(r) && multiset(r) == multiset(ms[..n])
    {
      InsertedSorted(r, ms[n]);
      SortedDated(Inserted(r, ms[n]));
      assert ms[..n + 1] == ms[..n] + [ms[n]];
      r := Inserted(r, ms[n]);
    }
    assert ms[..|ms|] == ms;
  }

  lemma SortedNothing()
    ensures Sorted([])
  {
  }

  lemma SortedDated(ms: seq<Message>)
    requires Sorted(ms)
    ensures Dated(ms)
  {
  }

  /** The dictionary after some messages: under each of their days, the messages of that day. */
  ghost predicate ByDay(day: int -> int, ms: seq<Message>, dictionary: map<int, seq<Message>>) {
    && (forall k :: k in dictionary ==> dictionary[k] != [] && dictionary[k] == OnDays(day, ms, {k}))
    && (forall k :: k !in dictionary ==> OnDays(day, ms, {k}) == [])
  }

  method Dictionary(day: int -> int, ms: seq<Message>) returns (dictionary: map<int, seq<Message>>)
    ensures ByDay(day, ms, dictionary)
  {
    dictionary := map[];
    for i := 0 to |ms|
      invariant ByDay(day, ms[..i], dictionary)
    {
      var m := ms[i];
      assert ms[..i + 1][..i] == ms[..i];
      if m.date.Some? {
        var s := day(m.date.value);
        if s !in dictionary {
          dictionary := dictionary[s := []];
        }
        dictionary := dictionary[s := dictionary[s] + [m]];
      }
    }
    assert ms[..|ms|] == ms;
  }

  /** The groups of a fetched list; messages without a date are dropped. */
  method CreateGroupMessage(day: int -> int, ms: seq<Message>) returns (groups: seq<seq<Message>>)
    ensures Grouping(day, ms, groups)
  {
    hide OnDays, Flat, Grouped, Sorted;
    var dictionary := Dictionary(day, ms);
    var keys := SortedKeys(dictionary.Keys);
    groups := [];
    ghost var done: set<int> := {};
    NoGroups(day, ms);
    for i := 0 to |keys|
      invariant |groups| == i && GroupedDays(day, groups, keys[..i])
      invariant forall k :: k in done <==> k in keys[..i]
      invariant multiset(Flat(groups)) == multiset(OnDays(day, ms, done))
    {
      var key := keys[i];
      var g := SortedByDate(dictionary[key]);
      SameMembers(g, dictionary[key]);
      OneMoreDay(day, ms, done, key);
      assert keys[..i + 1] == keys[..i] + [key];
      AppendGroup(day, groups, keys[..i], g, key);
      done := done + {key};
      groups := groups + [g];
    }
    assert keys[..|keys|] == keys;
    AllDays(day, ms, done);
  }

  /** Grouped, with the given days. */
  ghost predicate GroupedDays(day: int -> int, groups: seq<seq<Message>>, days: seq<int>) {
    && Grouped(day, groups) && |days| == |groups|
    && forall j :: 0 <= j < |groups| ==> groups[j] != [] && Dated(groups[j]) && day(groups[j][0].date.value) == days[j]
  }

  lemma NoGroups(day: int -> int, ms: seq<Message>)
    ensures GroupedDays(day, [], []) && Flat([]) == [] && OnDays(day, ms, {}) == []
  {
  }

  lemma SameMembers(a: seq<Message>, b: seq<Message>)
    requires multiset(a) == multiset(b)
    ensures |a| == |b| && forall x :: x in a ==> x in b
  {
    assert |multiset(a)| == |multiset(b)|;
    forall x | x in a
      ensures x in b
    {
      assert x in multiset(b);
    }
  }

  lemma AppendGroup(day: int -> int, groups: seq<seq<Message>>, days: seq<int>, g: seq<Message>, key: int)
    requires GroupedDays(day, groups, days) && g != [] && Sorted(g)
    requires forall m :: m in g ==> m.date.Some? && day(m.date.value) == key
    requires Increasing(days + [key])
    ensures GroupedDays(day, groups + [g], days + [key]) && Flat(groups + [g]) == Flat(groups) + g
  {
    hide Flat, Sorted;
    var r, n := groups + [g], |groups|;
    assert r[n] == g;
    assert forall i :: 0 <= i < |g| ==> g[i] in g;
    FlatAppend(groups, g);
    forall i | 0 <= i < n
      ensures r[i] != [] && Dated(r[i]) && Sorted(r[i]) && OneDay(day, r[i])
      ensures day(r[i][0].date.value) == days[i] < key
    {
      assert r[i] == groups[i];
      assert (days + [key])[i] < (days + [key])[n];
    }
  }

  lemma FlatAppend(groups: seq<seq<Message>>, g: seq<Message>)
    ensures Flat(groups + [g]) == Flat(groups) + g
  {
  }
}
