/**
 The sections of the chat screen: built as a whole from a grouping, or kept up to date one message at
 a time, and which messages a listener adds.
 */
module ChatSections {
  import opened Outcomes
  import opened ChatGroups

  /** A row of a section. Own messages stand on the right. */
  datatype Row =
    | HeaderRow(day: int)
    | LeftRow(previous: Option<Message>, current: Message)
    | RightRow(previous: Option<Message>, current: Message)

  // ----- rows -----

  /** The row of a message, after the one before it in its group. */
  function RowOf(account: string, g: seq<Message>, i: nat): Row
    requires i < |g|
  {
    var previous := if i == 0 then None else Some(g[i - 1]);
    if g[i].account == account then RightRow(previous, g[i]) else LeftRow(previous, g[i])
  }

  /** The rows of the first n messages of a group: a header at the first date, then a row a message. */
  function Rows(day: int -> int, account: string, g: seq<Message>, n: nat): seq<Row>
    requires n <= |g|
  {
    if n == 0 then []
    else
      var before := Rows(day, account, g, n - 1);
      match g[n - 1].date
      case None => before
      case Some(date) =>
        before + (if before == [] then [HeaderRow(day(date))] else []) + [RowOf(account, g, n - 1)]
  }

  /** The sections of a whole list of groups. */
  function Sections(day: int -> int, account: string, groups: seq<seq<Message>>): (r: seq<seq<Row>>)
    ensures |r| == |groups|
  {
    seq(|groups|, i requires 0 <= i < |groups| => Rows(day, account, groups[i], |groups[i]|))
  }

  /** What showing one more message makes of the sections, seen from the rows alone. */
  function AddedRow(day: int -> int, account: string, shown: seq<seq<Row>>, m: Message): seq<seq<Row>>
    requires m.date.Some?
  {
    var n := |shown|;
    var today := day(m.date.value);
    if n > 0 && shown[n - 1] != [] && shown[n - 1][0] == HeaderRow(today) then
      shown[..n - 1] + [shown[n - 1] + [Facing(account, m, CurrentOf(shown[n - 1][|shown[n - 1]| - 1]))]]
    else
      shown + [[HeaderRow(today), Facing(account, m, None)]]
  }

  function Facing(account: string, m: Message, previous: Option<Message>): Row {
    if m.account == account then RightRow(previous, m) else LeftRow(previous, m)
  }

  /** A header row has no message. */
  function CurrentOf(row: Row): Option<Message> {
    if row.HeaderRow? then None else Some(row.current)
  }

  function AddedRows(day: int -> int, account: string, shown: seq<seq<Row>>, ms: seq<Message>): seq<seq<Row>>
    requires Dated(ms)
  {
    if ms == [] then shown
    else AddedRow(day, account, AddedRows(day, account, shown, ms[..|ms| - 1]), ms[|ms| - 1])
  }

  lemma {:induction false} RowsPrefix(day: int -> int, account: string, g: seq<Message>, h: seq<Message>, n: nat)
    requires n <= |g|
    ensures Rows(day, account, g + h, n) == Rows(day, account, g, n)
  {
    if n > 0 {
      RowsPrefix(day, account, g, h, n - 1);
    }
  }

  lemma {:induction false} RowsShape(day: int -> int, account: string, g: seq<Message>, n: nat)
    requires 0 < n <= |g| && Dated(g)
    ensures var rows := Rows(day, account, g, n);
            |rows| == n + 1 && rows[0] == HeaderRow(day(g[0].date.value))
            && rows[n] == RowOf(account, g, n - 1)
  {
    if n > 1 {
      RowsShape(day, account, g, n - 1);
    }
  }

  /** Showing a message is building the sections of the extended groups. */
  lemma AddedRowBuilds(day: int -> int, account: string, groups: seq<seq<Message>>, m: Message)
    requires Shaped(groups) && m.date.Some?
    ensures AddedRow(day, account, Sections(day, account, groups), m)
         == Sections(day, account, Extend(day, groups, m))
  {
    hide Rows;
    var n := |groups|;
    var shown, r := Sections(day, account, groups), Extend(day, groups, m);
    if n > 0 {
      RowsShape(day, account, groups[n - 1], |groups[n - 1]|);
    }
    if n > 0 && day(groups[n - 1][0].date.value) == day(m.date.value) {
      RowsOfLonger(day, account, groups[n - 1], m);
    } else {
      RowsOfOne(day, account, m);
    }
    assert AddedRow(day, account, shown, m) == Sections(day, account, r);
  }

  lemma RowsOfLonger(day: int -> int, account: string, g: seq<Message>, m: Message)
    requires g != [] && Dated(g) && m.date.Some?
    ensures Rows(day, account, g + [m], |g| + 1)
         == Rows(day, account, g, |g|) + [Facing(account, m, Some(g[|g| - 1]))]
  {
    RowsPrefix(day, account, g, [m], |g|);
    RowsShape(day, account, g, |g|);
  }

  lemma RowsOfOne(day: int -> int, account: string, m: Message)
    requires m.date.Some?
    ensures Rows(day, account, [m], 1) == [HeaderRow(day(m.date.value)), Facing(account, m, None)]
  {
  }

  lemma {:induction false} AddedRowsBuild(day: int -> int, account: string, groups: seq<seq<Message>>, ms: seq<Message>)
    requires Shaped(groups) && Dated(ms)
    ensures AddedRows(day, account, Sections(day, account, groups), ms)
         == Sections(day, account, ExtendAll(day, groups, ms))
  {
    if ms != [] {
      AddedRowsBuild(day, account, groups, ms[..|ms| - 1]);
      AddedRowBuilds(day, account, ExtendAll(day, groups, ms[..|ms| - 1]), ms[|ms| - 1]);
    }
  }

  lemma {:induction false} RowAt(day: int -> int, account: string, g: seq<Message>, n: nat, k: nat)
    requires k < n <= |g| && Dated(g)
    ensures |Rows(day, account, g, n)| == n + 1 && Rows(day, account, g, n)[k + 1] == RowOf(account, g, k)
  {
    RowsShape(day, account, g, n);
    if k < n - 1 {
      RowAt(day, account, g, n - 1, k);
    }
  }

  /** The row shows message k of the group, on its side, and knows the one before it. */
  predicate Stands(account: string, g: seq<Message>, k: nat, row: Row)
    requires k < |g|
  {
    && (if account == g[k].account then row.RightRow? else row.LeftRow?)
    && row.current == g[k]
    && row.previous == if k > 0 then Some(g[k - 1]) else None
  }

  /**
   A section is a header with the day of its first message, then a row for each message in order: own
   messages on the right, others on the left, each linked to the one before it in the group.
   */
  lemma SectionContents(day: int -> int, account: string, groups: seq<seq<Message>>, i: nat)
    requires Shaped(groups) && i < |groups|
    ensures var g, rows := groups[i], Sections(day, account, groups)[i];
            && |rows| == |g| + 1 && rows[0] == HeaderRow(day(g[0].date.value))
            && forall k :: 0 < k < |rows| ==> Stands(account, g, k - 1, rows[k])
  {
    hide Rows;
    var g, rows := groups[i], Sections(day, account, groups)[i];
    RowsShape(day, account, g, |g|);
    forall k | 0 < k < |rows|
      ensures Stands(account, g, k - 1, rows[k])
    {
      RowAt(day, account, g, |g|, k - 1);
    }
  }

  /** The rows show which messages they were built from. */
  lemma SectionsInjective(day: int -> int, account: string, g: seq<seq<Message>>, h: seq<seq<Message>>)
    requires Shaped(g) && Shaped(h) && Sections(day, account, g) == Sections(day, account, h)
    ensures g == h
  {
    hide Rows;
    forall i | 0 <= i < |g|
      ensures g[i] == h[i]
    {
      assert Sections(day, account, g)[i] == Sections(day, account, h)[i];
      RowAt(day, account, g[i], |g[i]|, 0);
      RowAt(day, account, h[i], |h[i]|, 0);
      forall k | 0 <= k < |g[i]|
        ensures g[i][k] == h[i][k]
      {
        RowAt(day, account, g[i], |g[i]|, k);
        RowAt(day, account, h[i], |h[i]|, k);
        assert RowOf(account, g[i], k).current == g[i][k];
      }
    }
  }

  /**
   Showing messages as they arrive after a fetch gives what a rebuild from the whole list would give,
   headers, sides, rows and links, if and only if they arrive in the order of their dates, after
   those fetched.
   */
  lemma IncrementalIsRebuild(day: int -> int, account: string, ms: seq<Message>, ns: seq<Message>,
                             groups: seq<seq<Message>>, rebuilt: seq<seq<Message>>)
    requires Monotone(day) && Grouping(day, ms, groups) && Grouping(day, ms + ns, rebuilt)
    requires DatesIdentify(DatedOnly(ms + ns)) && Dated(ns)
    ensures AddedRows(day, account, Sections(day, account, groups), ns) == Sections(day, account, rebuilt)
       <==> Sorted(Flat(groups) + ns)
  {
    hide Sections, Rows;
    var extended := ExtendAll(day, groups, ns);
    IncrementalExact(day, groups, ns);
    AddedRowsBuild(day, account, groups, ns);
    DatedOnlyAppend(ms, ns);
    if Grouped(day, extended) {
      GroupingUnique(day, ms + ns, extended, rebuilt);
    }
    if Sections(day, account, extended) == Sections(day, account, rebuilt) {
      SectionsInjective(day, account, extended, rebuilt);
    }
  }

  /** What a restart can show of a list: the sections of a sorted grouping by day of its dated messages. */
  ghost predicate Rebuilt(day: int -> int, account: string, ms: seq<Message>, shown: seq<seq<Row>>) {
    exists groups :: Grouping(day, ms, groups) && Sections(day, account, groups) == shown
  }

  /**
   Without assuming that dates tell messages apart, so that a list may have several groupings: showing
   messages as they arrive gives one of the possible rebuilds if and only if they arrive in the order of
   their dates, after those fetched.
   */
  lemma IncrementalIsSomeRebuild(day: int -> int, account: string, ms: seq<Message>, ns: seq<Message>, groups: seq<seq<Message>>)
    requires Monotone(day) && Grouping(day, ms, groups) && Dated(ns)
    ensures Rebuilt(day, account, ms + ns, AddedRows(day, account, Sections(day, account, groups), ns))
       <==> Sorted(Flat(groups) + ns)
  {
    hide Sections, Rows;
    var extended := ExtendAll(day, groups, ns);
    var shown := AddedRows(day, account, Sections(day, account, groups), ns);
    IncrementalExact(day, groups, ns);
    AddedRowsBuild(day, account, groups, ns);
    DatedOnlyAppend(ms, ns);
    if Grouped(day, extended) {
      assert Grouping(day, ms + ns, extended);
    }
    if Rebuilt(day, account, ms + ns, shown) {
      var rebuilt :| Grouping(day, ms + ns, rebuilt) && Sections(day, account, rebuilt) == shown;
      SectionsInjective(day, account, extended, rebuilt);
    }
  }

  // ----- the application's own clock -----

  const SECONDS_A_DAY := 86400

  /**
   The date given to an own message: the moment in local seconds, formatted with a pattern that has
   hours from 1 to 12 and no half of the day, and read back as one in the first half.
   */
  function ClockReading(now: int): int {
    if now % SECONDS_A_DAY < SECONDS_A_DAY / 2 then now else now - SECONDS_A_DAY / 2
  }

  /** It shows the right day and the right time on a twelve-hour face, always in the first half of the day. */
  lemma ClockFace(now: int)
    ensures ClockReading(now) / 86400 == now / 86400
    ensures ClockReading(now) % 86400 < 43200
    ensures (now - ClockReading(now)) % 43200 == 0
  {
  }

  /** The first moment lies before the noon of a day, the second behind it, but less far from where its half began. */
  predicate NoonBetween(s: int, t: int) {
    && s / SECONDS_A_DAY == t / SECONDS_A_DAY
    && s % SECONDS_A_DAY < SECONDS_A_DAY / 2 <= t % SECONDS_A_DAY
    && t % SECONDS_A_DAY - SECONDS_A_DAY / 2 < s % SECONDS_A_DAY
  }

  lemma ClockGoesBack(s: int, t: int)
    requires s <= t
    ensures ClockReading(t) < ClockReading(s) <==> NoonBetween(s, t)
  {
  }

  /** So two own messages look the same after a restart, unless they were sent around noon that way. */
  lemma NoonReorders(day: int -> int, account: string, s: int, t: int, first: string, second: string)
    requires Monotone(day) && s <= t
    ensures var sent := [Message(account, Some(ClockReading(s)), first), Message(account, Some(ClockReading(t)), second)];
            Rebuilt(day, account, sent, AddedRows(day, account, [], sent)) <==> !NoonBetween(s, t)
  {
    hide Sections, AddedRows, Rebuilt, ClockReading, NoonBetween, Monotone, Grouping, Flat, DatedOnly;
    var sent := [Message(account, Some(ClockReading(s)), first), Message(account, Some(ClockReading(t)), second)];
    ClockGoesBack(s, t);
    NothingHeld(day, account);
    assert [] + sent == sent;
    IncrementalIsSomeRebuild(day, account, [], sent, []);
    assert Sorted(sent) <==> sent[0].date.value <= sent[1].date.value;
  }

  lemma NothingHeld(day: int -> int, account: string)
    ensures Grouping(day, [], []) && Flat([]) == [] && Sections(day, account, []) == []
  {
  }

  // ----- what a listener adds -----

  /** A held message has the same sender and time. Without a fetched list nothing is known. */
  predicate Known(held: Option<seq<Message>>, m: Message) {
    held.Some? && exists i :: 0 <= i < |held.value| && SameKey(held.value[i], m)
  }

  predicate SameKey(a: Message, b: Message) {
    a.account == b.account && a.date == b.date
  }

  function Grown(held: Option<seq<Message>>, ms: seq<Message>): Option<seq<Message>> {
    if held.Some? then Some(held.value + ms) else None
  }

  /** The changes that get added: each unless it is known by the time its turn comes. */
  function Unknown(held: Option<seq<Message>>, changes: seq<Message>): (r: seq<Message>)
    ensures Dated(changes) ==> Dated(r)
  {
    if changes == [] then []
    else
      var before, m := Unknown(held, changes[..|changes| - 1]), changes[|changes| - 1];
      if Known(Grown(held, before), m) then before else before + [m]
  }

  lemma KnownStays(held: Option<seq<Message>>, ms: seq<Message>, m: Message)
    requires Known(held, m) || (held.Some? && m in ms)
    ensures Known(Grown(held, ms), m)
  {
    var all := Grown(held, ms).value;
    if Known(held, m) {
      var i :| 0 <= i < |held.value| && SameKey(held.value[i], m);
      assert all[i] == held.value[i];
    } else {
      var i :| 0 <= i < |ms| && ms[i] == m;
      assert all[|held.value| + i] == m && SameKey(all[|held.value| + i], m);
    }
  }

  /** Echoes of known messages add nothing. */
  lemma {:induction false} EchoesAddNothing(held: Option<seq<Message>>, changes: seq<Message>)
    requires forall m :: m in changes ==> Known(held, m)
    ensures Unknown(held, changes) == []
  {
    if changes != [] {
      var m := changes[|changes| - 1];
      assert m in changes;
      EchoesAddNothing(held, changes[..|changes| - 1]);
      KnownStays(held, [], m);
    }
  }

  lemma {:induction false} KnownAfterwards(held: Option<seq<Message>>, changes: seq<Message>, m: Message)
    requires held.Some? && m in changes
    ensures Known(Grown(held, Unknown(held, changes)), m)
  {
    var init, last := changes[..|changes| - 1], changes[|changes| - 1];
    var before := Unknown(held, init);
    assert changes == init + [last];
    if m in init {
      KnownAfterwards(held, init, m);
      if !Known(Grown(held, before), last) {
        KnownStays(Grown(held, before), [last], m);
        assert held.value + before + [last] == held.value + (before + [last]);
      }
    } else if !Known(Grown(held, before), last) {
      KnownStays(held, before + [last], last);
    }
  }

  /**
   Hearing the same changes again, in any order and number, adds nothing once a list has been
   fetched, and adds all of them when none has been.
   */
  lemma ReplayedChanges(held: Option<seq<Message>>, changes: seq<Message>, again: seq<Message>)
    requires forall m :: m in again ==> m in changes
    ensures held.Some? ==> Unknown(Grown(held, Unknown(held, changes)), again) == []
    ensures held.None? ==> Unknown(Grown(held, Unknown(held, changes)), again) == again
  {
    if held.Some? {
      forall m | m in again
        ensures Known(Grown(held, Unknown(held, changes)), m)
      {
        KnownAfterwards(held, changes, m);
      }
      EchoesAddNothing(Grown(held, Unknown(held, changes)), again);
    } else {
      NothingKnown(again);
    }
  }

  lemma {:induction false} NothingKnown(changes: seq<Message>)
    ensures Unknown(None, changes) == changes
  {
    if changes != [] {
      NothingKnown(changes[..|changes| - 1]);
      assert changes == changes[..|changes| - 1] + [changes[|changes| - 1]];
    }
  }

  // ----- which changes are new, seen from their fields -----

  /** The same sender at the same time. */
  predicate Clash(a: Message, b: Message) {
    a.account == b.account && a.date == b.date
  }

  /** No change has sender and time of a held message, and no two of them share both. */
  predicate AllNew(held: seq<Message>, changes: seq<Message>) {
    && (forall i, k :: 0 <= i < |held| && 0 <= k < |changes| ==> !Clash(held[i], changes[k]))
    && (forall j, k :: 0 <= j < k < |changes| ==> !Clash(changes[j], changes[k]))
  }

  /** All changes that are new are added, in order. */
  lemma {:induction false} NewChangesAdded(held: seq<Message>, changes: seq<Message>)
    requires AllNew(held, changes)
    ensures Unknown(Some(held), changes) == changes
  {
    if changes != [] {
      var init, last := changes[..|changes| - 1], changes[|changes| - 1];
      assert AllNew(held, init) by {
        assert forall k :: 0 <= k < |init| ==> init[k] == changes[k];
      }
      NewChangesAdded(held, init);
      assert changes == init + [last];
      forall i | 0 <= i < |held + init|
        ensures !SameKey((held + init)[i], last)
      {
        if i < |held| {
          assert !Clash(held[i], changes[|changes| - 1]);
        } else {
          assert !Clash(changes[i - |held|], changes[|changes| - 1]);
        }
      }
    }
  }

  /** No message from position n on clashes with an earlier one. */
  predicate ApartFrom(all: seq<Message>, n: nat) {
    forall i, j :: 0 <= i < j < |all| && n <= j ==> !Clash(all[i], all[j])
  }

  /** Some message has the sender and time of m. */
  predicate Listed(all: seq<Message>, m: Message) {
    exists i :: 0 <= i < |all| && Clash(all[i], m)
  }

  /**
   No added change clashes with a message before it, each change clashes with a message that is held
   afterwards, and only changes are added.
   */
  lemma {:induction false} AddedOnce(held: seq<Message>, changes: seq<Message>)
    ensures var added := Unknown(Some(held), changes);
            && ApartFrom(held + added, |held|)
            && (forall m :: m in changes ==> Listed(held + added, m))
            && (forall m :: m in added ==> m in changes)
  {
    if changes != [] {
      var init, last := changes[..|changes| - 1], changes[|changes| - 1];
      var before, added := Unknown(Some(held), init), Unknown(Some(held), changes);
      AddedOnce(held, init);
      assert changes == init + [last];
      OneMoreListed(held + before, last, |held|);
      if Known(Some(held + before), last) {
        assert added == before;
      } else {
        assert added == before + [last] && held + added == held + before + [last];
      }
    }
  }

  lemma OneMoreListed(all: seq<Message>, m: Message, n: nat)
    requires n <= |all| && ApartFrom(all, n)
    ensures Known(Some(all), m) ==> Listed(all, m)
    ensures !Known(Some(all), m) ==> ApartFrom(all + [m], n) && Listed(all + [m], m)
    ensures forall x :: Listed(all, x) ==> Listed(all + [m], x)
  {
    if Known(Some(all), m) {
      var k :| 0 <= k < |all| && SameKey(all[k], m);
      assert Clash(all[k], m);
    } else {
      forall i | 0 <= i < |all|
        ensures !Clash(all[i], m)
      {
        assert !SameKey(all[i], m);
      }
      assert Clash((all + [m])[|all|], m);
    }
    forall x | Listed(all, x)
      ensures Listed(all + [m], x)
    {
      var i :| 0 <= i < |all| && Clash(all[i], x);
      assert Clash((all + [m])[i], x);
    }
  }

  lemma {:induction false} TwoPlaces(s: seq<Message>, m: Message)
    requires multiset(s)[m] >= 2
    ensures exists i, j :: 0 <= i < j < |s| && s[i] == m && s[j] == m
  {
    var init, last := s[..|s| - 1], s[|s| - 1];
    assert s == init + [last];
    if multiset(init)[m] >= 2 {
      TwoPlaces(init, m);
      var i, j :| 0 <= i < j < |init| && init[i] == m && init[j] == m;
      assert s[i] == m && s[j] == m;
    } else {
      assert m in multiset(init) && last == m;
      var i :| 0 <= i < |init| && init[i] == m;
      assert s[i] == m && s[|s| - 1] == m;
    }
  }

  lemma {:induction false} TwiceCounted(s: seq<Message>, i: nat, j: nat)
    requires i < j < |s| && s[i] == s[j]
    ensures multiset(s)[s[i]] >= 2
  {
    var m := s[i];
    assert s == s[..j] + [m] + s[j + 1..];
    assert m in s[..j] by { assert s[..j][i] == m; }
  }

  /** It does not matter in which order the changes come. */
  lemma NewInAnyOrder(held: seq<Message>, changes: seq<Message>, order: seq<Message>)
    requires AllNew(held, changes) && multiset(order) == multiset(changes)
    ensures AllNew(held, order)
  {
    forall k | 0 <= k < |order|
      ensures order[k] in changes
    {
      assert order[k] in multiset(order);
    }
    forall i, k | 0 <= i < |held| && 0 <= k < |order|
      ensures !Clash(held[i], order[k])
    {
      var n :| 0 <= n < |changes| && changes[n] == order[k];
    }
    forall j, k | 0 <= j < k < |order|
      ensures !Clash(order[j], order[k])
    {
      if order[j] == order[k] {
        TwiceCounted(order, j, k);
        TwoPlaces(changes, order[j]);
      } else {
        var m :| 0 <= m < |changes| && changes[m] == order[j];
        var n :| 0 <= n < |changes| && changes[n] == order[k];
        assert !(Clash(changes[m], changes[n]));
      }
    }
  }
}
