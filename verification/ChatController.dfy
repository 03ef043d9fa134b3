/** The chat controller, whose lists and sections are appended to in place. */
module ChatController {
  import opened Outcomes
  import opened ChatGroups
  import opened ChatSections

  /** Once a list has been fetched, every held message with a date is in the groups exactly once. */
  ghost predicate Conserved(held: Option<seq<Message>>, groups: seq<seq<Message>>) {
    held.Some? ==> multiset(Flat(groups)) == multiset(DatedOnly(held.value))
  }

  lemma ConservedStep(day: int -> int, held: Option<seq<Message>>, groups: seq<seq<Message>>, m: Message)
    requires Conserved(held, groups) && Shaped(groups) && m.date.Some?
    ensures Conserved(Grown(held, [m]), Extend(day, groups, m))
  {
  }

  /** One more row in the last section. */
  function WithRow(shown: seq<seq<Row>>, row: Row): seq<seq<Row>>
    requires shown != []
  {
    shown[..|shown| - 1] + [shown[|shown| - 1] + [row]]
  }

  /** The row with its link to the message before it. */
  function Linked(rows: seq<Row>, row: Row): Row
    requires rows != [] && !row.HeaderRow?
  {
    row.(previous := CurrentOf(rows[|rows| - 1]))
  }

  predicate SameDay(day: int -> int, rows: seq<Row>, date: int) {
    rows != [] && rows[0] == HeaderRow(day(date))
  }

  lemma JoinsSection(day: int -> int, account: string, shown: seq<seq<Row>>, row: Row)
    requires !row.HeaderRow? && row.current.date.Some? && row == Facing(account, row.current, None)
    requires shown != [] && SameDay(day, shown[|shown| - 1], row.current.date.value)
    ensures AddedRow(day, account, shown, row.current) == WithRow(shown, Linked(shown[|shown| - 1], row))
  {
  }

  lemma StartsSection(day: int -> int, account: string, shown: seq<seq<Row>>, row: Row)
    requires !row.HeaderRow? && row.current.date.Some? && row == Facing(account, row.current, None)
    requires shown != [] ==> !SameDay(day, shown[|shown| - 1], row.current.date.value)
    ensures AddedRow(day, account, shown, row.current)
         == shown + [[HeaderRow(day(row.current.date.value)), row]]
  {
  }

  /** A section, whose rows are appended to in place. */
  class ChatSection {
    var rows: seq<Row>

    constructor ()
      ensures rows == []
    {
      rows := [];
    }
  }

  ghost function RowsOf(sections: seq<ChatSection>): (r: seq<seq<Row>>)
    reads sections
    ensures |r| == |sections|
  {
    seq(|sections|, i requires 0 <= i < |sections| reads sections => sections[i].rows)
  }

  class Controller {
    const day: int -> int
    const account: string
    var messages: Option<seq<Message>>
    var didStart: bool
    var haveAddMessage: bool
    var sections: seq<ChatSection>

    /** The groups that the sections show. */
    ghost var groups: seq<seq<Message>>

    ghost function Shown(): (r: seq<seq<Row>>)
      reads `sections, sections
      ensures |r| == |sections|
    {
      RowsOf(sections)
    }

    ghost predicate Apart()
      reads `sections
    {
      forall i, j :: 0 <= i < j < |sections| ==> sections[i] != sections[j]
    }

    ghost predicate ShowsGroups()
      reads `sections, `groups, sections
    {
      Apart() && Shaped(groups) && Shown() == Sections(day, account, groups)
    }

    ghost predicate Valid()
      reads `messages, `sections, `groups, sections
    {
      ShowsGroups() && Conserved(messages, groups)
    }

    constructor (day: int -> int, account: string)
      ensures this.day == day && this.account == account && Valid()
      ensures messages == None && !didStart && sections == [] && groups == []
    {
      this.day, this.account := day, account;
      messages, didStart, haveAddMessage, sections, groups := None, false, false, [], [];
    }

    /** Sections for a list of groups, in place of those there were. */
    method BuildViewModels(gs: seq<seq<Message>>)
      modifies `sections
      ensures Apart() && (forall s :: s in sections ==> fresh(s)) && Shown() == Sections(day, account, gs)
    {
      sections := [];
      for k := 0 to |gs|
        invariant |sections| == k && Apart() && forall s :: s in sections ==> fresh(s)
        invariant forall j :: 0 <= j < k ==> sections[j].rows == Rows(day, account, gs[j], |gs[j]|)
      {
        var section := BuildSection(gs[k]);
        sections := sections + [section];
      }
    }

    method BuildSection(g: seq<Message>) returns (section: ChatSection)
      ensures fresh(section) && section.rows == Rows(day, account, g, |g|)
    {
      section := new ChatSection();
      var haveHeader := false;
      for i := 0 to |g|
        invariant section.rows == Rows(day, account, g, i)
        invariant haveHeader <==> section.rows != []
      {
        var message := g[i];
        if message.date.Some? {
          if !haveHeader {
            haveHeader := true;
            section.rows := section.rows + [HeaderRow(day(message.date.value))];
          }
          var previous := if i == 0 then None else Some(g[i - 1]);
          var row := if account == message.account then RightRow(previous, message) else LeftRow(previous, message);
          section.rows := section.rows + [row];
        }
      }
    }

    method AppendToLastSection(row: Row)
      requires Apart() && sections != []
      modifies sections[|sections| - 1]
      ensures Shown() == WithRow(old(Shown()), row)
    {
      ghost var before, n := Shown(), |sections|;
      var last := sections[|sections| - 1];
      last.rows := last.rows + [row];
      assert forall i :: 0 <= i < n - 1 ==> sections[i].rows == before[i];
      assert Shown() == WithRow(before, row);
    }

    method AppendSection(header: Row, row: Row)
      requires Apart()
      modifies `sections
      ensures Apart() && Shown() == old(Shown()) + [[header, row]]
      ensures forall s :: s in sections ==> s in old(sections) || fresh(s)
    {
      ghost var before, n := Shown(), |sections|;
      var section := new ChatSection();
      section.rows := section.rows + [header];
      section.rows := section.rows + [row];
      assert section.rows == [header, row];
      sections := sections + [section];
      assert forall i :: 0 <= i < n ==> sections[i].rows == before[i];
      assert Shown() == before + [[header, row]];
    }

    /** Appends a row to the last section if it is the section of the row's day, or else starts a section. */
    method AddRowViewModel(row: Row)
      requires ShowsGroups() && !row.HeaderRow? && row.current.date.Some? && row == Facing(account, row.current, None)
      modifies `sections, `groups, sections
      ensures ShowsGroups() && groups == Extend(day, old(groups), row.current)
      ensures Shown() == AddedRow(day, account, old(Shown()), row.current)
      ensures forall s :: s in sections ==> s in old(sections) || fresh(s)
    {
      hide Extend, Sections, Shaped, AddedRow, WithRow, Facing;
      ghost var before := Shown();
      AddedRowBuilds(day, account, groups, row.current);
      var date := row.current.date.value;
      groups := Extend(day, groups, row.current);
      if |sections| > 0 {
        var rows := sections[|sections| - 1].rows;
        assert rows == before[|before| - 1];
        if |rows| > 0 && rows[0].HeaderRow? && rows[0].day == day(date) {
          JoinsSection(day, account, before, row);
          AppendToLastSection(row.(previous := CurrentOf(rows[|rows| - 1])));
          return;
        }
      }
      StartsSection(day, account, before, row);
      AppendSection(HeaderRow(day(date)), row);
    }

    /** A session starts: the next batch of changes is to be dropped. Fetching the list comes after. */
    method Start()
      requires Valid()
      modifies `didStart
      ensures Valid() && !didStart
    {
      didStart := false;
    }

    /** What is done with the outcome of fetching the list of messages. */
    method Fetched(fetched: Option<seq<Message>>, error: bool)
      requires Valid()
      modifies this
      ensures Valid() && didStart == old(didStart) && haveAddMessage == old(haveAddMessage)
      ensures error ==> messages == old(messages) && sections == old(sections) && groups == old(groups)
      ensures !error ==> messages == fetched
      ensures !error && fetched.Some? ==> Grouping(day, fetched.value, groups)
      ensures !error && fetched.None? ==> sections == old(sections) && groups == old(groups)
      ensures forall s :: s in sections ==> s in old(sections) || fresh(s)
    {
      if !error {
        if fetched.Some? {
          var gs := CreateGroupMessage(day, fetched.value);
          BuildViewModels(gs);
          groups := gs;
        }
        messages := fetched;
      }
    }

    /** A message of one's own, shown at once. */
    method AddMessage(content: string, now: int)
      requires Valid()
      modifies this, sections
      ensures Valid() && haveAddMessage && didStart == old(didStart)
      ensures var m := Message(account, Some(now), content);
              messages == Grown(old(messages), [m]) && groups == Extend(day, old(groups), m)
    {
      hide Extend, Sections, Shaped, Conserved, AddedRow;
      haveAddMessage := false;
      var message := Message(account, Some(now), content);
      ConservedStep(day, messages, groups, message);
      if messages.Some? {
        messages := Some(messages.value + [message]);
      }
      AddRowViewModel(RightRow(None, message));
      haveAddMessage := true;
    }

    /** Whether a held message has the same sender and time. */
    method CheckExistMessage(message: Message) returns (known: bool)
      requires AllComparable(messages, [message])
      ensures known <==> Known(messages, message)
    {
      if messages.Some? {
        for i := 0 to |messages.value|
          invariant forall k :: 0 <= k < i ==> !SameKey(messages.value[k], message)
        {
          var mess := messages.value[i];
          if mess.account == message.account && mess.date.value == message.date.value {
            return true;
          }
        }
      }
      return false;
    }

    /** A batch of changes: the first call of a session is dropped, the others add what is unknown. */
    method Changed(changes: Option<seq<Message>>, error: bool) returns (ghost order: seq<Message>)
      requires Valid() && (changes.Some? ==> Dated(changes.value))
      requires changes.Some? ==> AllComparable(messages, changes.value)
      modifies this, sections
      ensures Valid() && didStart
      ensures !old(didStart) || error || changes.None? ==>
        messages == old(messages) && sections == old(sections) && groups == old(groups)
      ensures old(didStart) && !error && changes.Some? ==>
        && Sorted(order) && multiset(order) == multiset(changes.value)
        && messages == Grown(old(messages), Unknown(old(messages), order))
        && Dated(Unknown(old(messages), order))
        && groups == ExtendAll(day, old(groups), Unknown(old(messages), order))
        && (haveAddMessage <==> Unknown(old(messages), order) != [])
      ensures old(didStart) && !error && changes.Some? && old(messages).Some? && AllNew(old(messages).value, changes.value) ==>
        messages == Some(old(messages).value + order)
    {
      hide AllComparable, AllNew, Sections, Shaped, Conserved, Extend, ExtendAll, Unknown;
      order := [];
      if !didStart {
        didStart := true;
        return;
      }
      if !error && changes.Some? {
        var sorted := SortedByDate(changes.value);
        order := sorted;
        SameMembers(sorted, changes.value);
        SortedDated(sorted);
        NewOnesAdded(messages, changes.value, sorted);
        ComparableOrder(messages, changes.value, sorted);
        hide *;
        var added := AddUnknown(sorted);
        haveAddMessage := added;
      }
    }

    /** Adds one change unless it is known. */
    method AddIfUnknown(message: Message) returns (added: bool)
      requires Valid() && AllComparable(messages, [message]) && message.date.Some?
      modifies `messages, `groups, `sections, sections
      ensures Valid() && (forall s :: s in sections ==> s in old(sections) || fresh(s))
      ensures added <==> !Known(old(messages), message)
      ensures !added ==> messages == old(messages) && groups == old(groups)
      ensures added ==> messages == Grown(old(messages), [message]) && groups == Extend(day, old(groups), message)
    {
      hide Extend, Sections, Shaped, Conserved, AddedRow, Known;
      var known := CheckExistMessage(message);
      if !known {
        ConservedStep(day, messages, groups, message);
        if messages.Some? {
          messages := Some(messages.value + [message]);
        }
        AddRowViewModel(if message.account != account then LeftRow(None, message) else RightRow(None, message));
      }
      added := !known;
    }

    method AddUnknown(changes: seq<Message>) returns (haveAdded: bool)
      requires Valid() && Dated(changes)
      requires AllComparable(messages, changes)
      modifies `messages, `groups, `sections, sections
      ensures Valid()
      ensures Added(day, old(messages), old(groups), changes, messages, groups, haveAdded)
    {
      ghost var held, gs := messages, groups;
      haveAdded := false;
      NoneYet(day, held, gs);
      assert Shaped(gs);
      hide *;
      for i := 0 to |changes|
        invariant Valid()
        invariant forall k :: 0 <= k < |sections| ==> sections[k] in old(sections) || fresh(sections[k])
        invariant Added(day, held, gs, changes[..i], messages, groups, haveAdded)
        invariant AllComparable(messages, changes)
      {
        var message := changes[i];
        ghost var before, was, shown := messages, groups, sections;
        assert changes[..i + 1] == changes[..i] + [message];
        ComparableStays(messages, changes, message);
        var added := AddIfUnknown(message);
        OneChange(day, held, gs, changes[..i], message, before, was, haveAdded);
        forall k | 0 <= k < |sections|
          ensures sections[k] in old(sections) || fresh(sections[k])
        {
          assert sections[k] in sections;
          assert sections[k] in shown || fresh(sections[k]);
        }
        if added {
          haveAdded := true;
        }
      }
      assert changes[..|changes|] == changes;
    }
  }

  /** Lists and groups after some changes: those that were unknown when their turn came are added. */
  ghost predicate Added(day: int -> int, held: Option<seq<Message>>, gs: seq<seq<Message>>, changes: seq<Message>,
                        messages: Option<seq<Message>>, groups: seq<seq<Message>>, haveAdded: bool) {
    && Shaped(gs) && Dated(Unknown(held, changes))
    && messages == Grown(held, Unknown(held, changes))
    && groups == ExtendAll(day, gs, Unknown(held, changes))
    && (haveAdded <==> Unknown(held, changes) != [])
  }

  /** The comparison unwraps the dates of messages from the same sender. */
  predicate AllComparable(held: Option<seq<Message>>, changes: seq<Message>) {
    forall m :: m in changes ==>
      m.date.Some? && (held.Some? ==> forall i :: 0 <= i < |held.value| && held.value[i].account == m.account ==> held.value[i].date.Some?)
  }

  lemma ComparableStays(held: Option<seq<Message>>, changes: seq<Message>, m: Message)
    requires AllComparable(held, changes) && m in changes
    ensures AllComparable(Grown(held, [m]), changes) && AllComparable(held, [m])
  {
  }

  lemma ComparableOrder(held: Option<seq<Message>>, changes: seq<Message>, order: seq<Message>)
    requires AllComparable(held, changes) && forall m :: m in order ==> m in changes
    ensures AllComparable(held, order)
  {
  }

  lemma NewOnesAdded(held: Option<seq<Message>>, changes: seq<Message>, order: seq<Message>)
    requires multiset(order) == multiset(changes)
    ensures held.Some? && AllNew(held.value, changes) ==> Grown(held, Unknown(held, order)) == Some(held.value + order)
  {
    if held.Some? && AllNew(held.value, changes) {
      NewInAnyOrder(held.value, changes, order);
      NewChangesAdded(held.value, order);
    }
  }

  lemma NoneYet(day: int -> int, held: Option<seq<Message>>, groups: seq<seq<Message>>)
    requires Shaped(groups)
    ensures Added(day, held, groups, [], held, groups, false)
  {
    assert held.Some? ==> held.value + [] == held.value;
  }

  /** One more change. */
  lemma OneChange(day: int -> int, held: Option<seq<Message>>, gs: seq<seq<Message>>, changes: seq<Message>, m: Message,
                  messages: Option<seq<Message>>, groups: seq<seq<Message>>, haveAdded: bool)
    requires Added(day, held, gs, changes, messages, groups, haveAdded) && Shaped(groups) && m.date.Some?
    ensures Known(messages, m) ==> Added(day, held, gs, changes + [m], messages, groups, haveAdded)
    ensures !Known(messages, m) ==>
      Added(day, held, gs, changes + [m], Grown(messages, [m]), Extend(day, groups, m), true)
  {
    hide Known, Extend;
    var before := Unknown(held, changes);
    assert (changes + [m])[..|changes|] == changes;
    assert (before + [m])[..|before|] == before;
    if held.Some? {
      assert held.value + before + [m] == held.value + (before + [m]);
    }
  }
}
