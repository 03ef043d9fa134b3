/** A query read back: keys as the names they spell, values as what they stand for. */
module QueryReader {
  import opened Bits
  import opened Outcomes
  import opened QueryStrings

  /** The bytes of a text of ASCII characters. */
  function Ascii(s: string): (b: Bytes)
    ensures |b| == |s|
  {
    seq(|s|, i requires 0 <= i < |s| => (s[i] as int) % 128)
  }

  // ----- which characters are escaped, and how -----

  /** Letters and digits, and the other characters that section 3.4 of RFC 3986 has in a query. */
  predicate QueryCharacter(b: Byte) {
    || 'a' as int <= b <= 'z' as int || 'A' as int <= b <= 'Z' as int || '0' as int <= b <= '9' as int
    || b in Ascii("-._~!$&'()*+,;=:@/?")
  }

  /** All of these are kept but the general and the sub-delimiters. */
  lemma AllowedExactly(b: Byte)
    ensures Allowed(b) <==> QueryCharacter(b) && b !in Ascii(":#[]@") && b !in Ascii("!$&'()*+,;=")
  {
    var kept, general, sub := Ascii("-._~!$&'()*+,;=:@/?"), Ascii(":#[]@"), Ascii("!$&'()*+,;=");
    assert kept == [45, 46, 95, 126, 33, 36, 38, 39, 40, 41, 42, 43, 44, 59, 61, 58, 64, 47, 63];
    assert general == [58, 35, 91, 93, 64];
    assert sub == [33, 36, 38, 39, 40, 41, 42, 43, 44, 59, 61];
  }

  /** A percent sign and two digits, in capitals. */
  lemma EscapedByte(b: Byte)
    ensures Escape([b]) == if Allowed(b) then [b] else Ascii("%") + [Ascii("0123456789ABCDEF")[b / 16], Ascii("0123456789ABCDEF")[b % 16]]
  {
    hide Allowed;
    HexDigits(b / 16);
    HexDigits(b % 16);
    assert Ascii("%") == [37];
    assert [b][1..] == [] && Escape([]) == [];
    assert Escape([b]) == (if Allowed(b) then [b] else [PERCENT, HexDigit(b / 16), HexDigit(b % 16)]) + [];
  }

  lemma HexDigits(d: nat)
    requires d < 16
    ensures HexDigit(d) == Ascii("0123456789ABCDEF")[d]
  {
    assert Ascii("0123456789ABCDEF") == [48, 49, 50, 51, 52, 53, 54, 55, 56, 57, 65, 66, 67, 68, 69, 70];
  }

  // ----- what the parameters hold -----

  /** A leaf with what it stands for, a boolean or a text, below the way to it. */
  datatype Held = Held(key: Bytes, path: seq<Step>, value: Value)

  function Below(step: Step, leaves: seq<Held>): (r: seq<Held>)
    ensures |r| == |leaves|
  {
    seq(|leaves|, i requires 0 <= i < |leaves| => leaves[i].(path := [step] + leaves[i].path))
  }

  /** The leaves of a value, first to last. */
  function HeldIn(key: Bytes, v: Value): seq<Held>
    decreases v, 1
  {
    match v
    case Dict(entries) => HeldInEntries(key, entries)
    case List(items) => HeldInItems(key, items)
    case _ => [Held(key, [], v)]
  }

  function HeldInEntries(key: Bytes, entries: seq<Entry>): seq<Held>
    decreases entries, 0
  {
    if entries == [] then []
    else Below(Field(entries[0].key), HeldIn(key, entries[0].value)) + HeldInEntries(key, entries[1..])
  }

  function HeldInItems(key: Bytes, items: seq<Value>): seq<Held>
    decreases items, 0
  {
    if items == [] then [] else Below(Item, HeldIn(key, items[0])) + HeldInItems(key, items[1..])
  }

  function AllHeld(parameters: seq<Entry>): seq<Held> {
    if parameters == [] then [] else HeldIn(parameters[0].key, parameters[0].value) + AllHeld(parameters[1..])
  }

  /** The leaf that the encoder makes of it. */
  function TextLeaf(e: BoolEncoding, h: Held): Leaf {
    Leaf(h.path, match h.value case Flag(on) => BoolText(e, on) case Plain(text) => text case _ => [])
  }

  function TextLeaves(e: BoolEncoding, hs: seq<Held>): (r: seq<Leaf>)
    ensures |r| == |hs|
  {
    seq(|hs|, i requires 0 <= i < |hs| => TextLeaf(e, hs[i]))
  }

  lemma TextLeavesJoin(e: BoolEncoding, a: seq<Held>, b: seq<Held>)
    ensures TextLeaves(e, a + b) == TextLeaves(e, a) + TextLeaves(e, b)
  {
  }

  lemma TextLeavesBelow(e: BoolEncoding, step: Step, hs: seq<Held>)
    ensures TextLeaves(e, Below(step, hs)) == Under(step, TextLeaves(e, hs))
  {
  }

  lemma {:induction false} LeavesHeld(e: BoolEncoding, key: Bytes, v: Value)
    ensures Leaves(e, v) == TextLeaves(e, HeldIn(key, v))
    ensures forall h :: h in HeldIn(key, v) ==> h.key == key && (h.value.Flag? || h.value.Plain?)
    decreases v, 1, 0
  {
    hide BoolText;
    match v
    case Dict(entries) =>
      EntriesHeld(e, key, v, 0);
      assert v.entries[0..] == entries;
      assert LeavesOfEntries(e, v, 0) + TextLeaves(e, HeldInEntries(key, entries)) == TextLeaves(e, HeldInEntries(key, entries));
    case List(items) =>
      ItemsHeld(e, key, v, 0);
      assert v.items[0..] == items;
      assert LeavesOfItems(e, v, 0) + TextLeaves(e, HeldInItems(key, items)) == TextLeaves(e, HeldInItems(key, items));
    case Flag(_) =>
    case Plain(_) =>
  }

  lemma {:induction false} EntriesHeld(e: BoolEncoding, key: Bytes, v: Value, n: nat)
    requires v.Dict? && n <= |v.entries|
    ensures LeavesOfEntries(e, v, |v.entries|) == LeavesOfEntries(e, v, n) + TextLeaves(e, HeldInEntries(key, v.entries[n..]))
    ensures forall h :: h in HeldInEntries(key, v.entries[n..]) ==> h.key == key && (h.value.Flag? || h.value.Plain?)
    decreases v, 0, |v.entries| - n
  {
    hide TextLeaves, Leaves, HeldIn;
    if n == |v.entries| {
      assert TextLeaves(e, []) == [] by { NoTextLeaves(e); }
    } else {
      var entry, rest := v.entries[n], v.entries[n + 1..];
      assert v.entries[n..][0] == entry && v.entries[n..][1..] == rest;
      var first := HeldIn(key, entry.value);
      LeavesHeld(e, key, entry.value);
      EntriesHeld(e, key, v, n + 1);
      TextLeavesBelow(e, Field(entry.key), first);
      TextLeavesJoin(e, Below(Field(entry.key), first), HeldInEntries(key, rest));
    }
  }

  lemma {:induction false} ItemsHeld(e: BoolEncoding, key: Bytes, v: Value, n: nat)
    requires v.List? && n <= |v.items|
    ensures LeavesOfItems(e, v, |v.items|) == LeavesOfItems(e, v, n) + TextLeaves(e, HeldInItems(key, v.items[n..]))
    ensures forall h :: h in HeldInItems(key, v.items[n..]) ==> h.key == key && (h.value.Flag? || h.value.Plain?)
    decreases v, 0, |v.items| - n
  {
    hide TextLeaves, Leaves, HeldIn;
    if n == |v.items| {
      assert TextLeaves(e, []) == [] by { NoTextLeaves(e); }
    } else {
      var item, rest := v.items[n], v.items[n + 1..];
      assert v.items[n..][0] == item && v.items[n..][1..] == rest;
      var first := HeldIn(key, item);
      LeavesHeld(e, key, item);
      ItemsHeld(e, key, v, n + 1);
      TextLeavesBelow(e, Item, first);
      TextLeavesJoin(e, Below(Item, first), HeldInItems(key, rest));
    }
  }

  lemma NoTextLeaves(e: BoolEncoding)
    ensures TextLeaves(e, []) == []
  {
  }

  function ComponentOf(e: Encoding, h: Held): Component {
    Component(h.key + PathText(e.arrays, h.path), TextLeaf(e.bools, h).text)
  }

  function ComponentsOf(e: Encoding, hs: seq<Held>): (r: seq<Component>)
    ensures |r| == |hs|
  {
    seq(|hs|, i requires 0 <= i < |hs| => ComponentOf(e, hs[i]))
  }

  predicate Readable(hs: seq<Held>) {
    forall i :: 0 <= i < |hs| ==> hs[i].value.Flag? || hs[i].value.Plain?
  }

  /** The components are those of the leaves that the parameters hold, in order. */
  lemma {:induction false} ComponentsHeld(e: Encoding, parameters: seq<Entry>, n: nat)
    requires n <= |parameters|
    ensures AllComponents(e, parameters) == AllComponents(e, parameters[..n]) + ComponentsOf(e, AllHeld(parameters[n..]))
    ensures Readable(AllHeld(parameters[n..]))
    decreases |parameters| - n
  {
    hide Leaves, HeldIn, PathText, BoolText;
    if n == |parameters| {
      assert parameters[..n] == parameters && ComponentsOf(e, []) == [];
    } else {
      var p, rest := parameters[n], parameters[n + 1..];
      assert parameters[n..][0] == p && parameters[n..][1..] == rest;
      LeavesHeld(e.bools, p.key, p.value);
      ComponentsHeld(e, parameters, n + 1);
      assert parameters[..n + 1][..n] == parameters[..n];
      var first := HeldIn(p.key, p.value);
      assert Components(e, p.key, p.value) == ComponentsOf(e, first) by { SpelledIs(e, p.key, first); }
      assert ComponentsOf(e, first + AllHeld(rest)) == ComponentsOf(e, first) + ComponentsOf(e, AllHeld(rest));
    }
  }

  lemma SpelledIs(e: Encoding, key: Bytes, hs: seq<Held>)
    requires forall h :: h in hs ==> h.key == key
    ensures Spelled(e.arrays, key, TextLeaves(e.bools, hs)) == ComponentsOf(e, hs)
  {
    hide PathText, BoolText;
    forall i | 0 <= i < |hs|
      ensures Spelled(e.arrays, key, TextLeaves(e.bools, hs))[i] == ComponentsOf(e, hs)[i]
    {
      assert hs[i] in hs;
    }
  }

  // ----- reading values -----

  function Decimal(s: Bytes): (n: Option<nat>)
    ensures n.Some? ==> s != []
  {
    if s == [] || !('0' as int <= s[|s| - 1] <= '9' as int) then None
    else
      var digit := s[|s| - 1] - '0' as int;
      if |s| == 1 then Some(digit)
      else match Decimal(s[..|s| - 1]) case None => None case Some(n) => Some(10 * n + digit)
  }

  /** A boolean is a number, zero for false and one for true, or one of two words. */
  function ReadFlag(e: BoolEncoding, s: Bytes): Option<bool> {
    match e
    case Numeric => if Decimal(s) == Some(0) then Some(false) else if Decimal(s) == Some(1) then Some(true) else None
    case Literal => if s == Ascii("false") then Some(false) else if s == Ascii("true") then Some(true) else None
  }

  lemma FlagReadBack(e: BoolEncoding, on: bool)
    ensures ReadFlag(e, BoolText(e, on)) == Some(on)
    ensures BoolText(e, on) == Ascii(if e == Numeric then if on then "1" else "0" else if on then "true" else "false")
  {
    assert Ascii("true") == [116, 114, 117, 101] && Ascii("false") == [102, 97, 108, 115, 101];
    assert Ascii("1") == [49] && Ascii("0") == [48];
  }

  // ----- reading keys -----

  /** A key up to its first bracket, and the names and empty brackets behind it. */
  function ReadKey(s: Bytes): Option<(Bytes, seq<Step>)> {
    var key := UpTo('[' as int, s);
    UpToLength('[' as int, s);
    match ReadPath(s[|key|..])
    case None => None
    case Some(path) => Some((key, path))
  }

  lemma {:induction false} UpToLength(b: Byte, s: Bytes)
    ensures |UpTo(b, s)| <= |s| && UpTo(b, s) == s[..|UpTo(b, s)|]
    ensures |UpTo(b, s)| < |s| ==> s[|UpTo(b, s)|] == b
    ensures b !in UpTo(b, s)
  {
    if s != [] && s[0] != b {
      UpToLength(b, s[1..]);
    }
  }

  function ReadPath(s: Bytes): Option<seq<Step>>
    decreases |s|
  {
    if s == [] then Some([])
    else if s[0] != '[' as int then None
    else
      var name := UpTo(']' as int, s[1..]);
      UpToLength(']' as int, s[1..]);
      if |name| + 1 == |s| then None
      else
        match ReadPath(s[|name| + 2..])
        case None => None
        case Some(path) => Some([if name == [] then Item else Field(name)] + path)
  }

  /** What a key can tell of a path: without brackets for arrays, only the names. */
  function Told(e: ArrayEncoding, path: seq<Step>): seq<Step> {
    if path == [] then []
    else if path[0] == Item && e == NoBrackets then Told(e, path[1..])
    else [path[0]] + Told(e, path[1..])
  }

  /** Names are not empty and hold no closing bracket. */
  predicate Nameable(path: seq<Step>) {
    forall i :: 0 <= i < |path| && path[i].Field? ==> path[i].name != [] && ']' as int !in path[i].name
  }

  lemma UpToStops(b: Byte, x: Bytes, r: Bytes)
    requires r != [] && r[0] == b
    ensures UpTo(b, x + r) == x <==> b !in x
  {
    UpToLength(b, x + r);
    if b !in x { UpToFirst(b, x, r); }
  }

  lemma StepRead(name: Bytes, rest: Bytes)
    ensures var s := [91] + name + [93] + rest;
            var cut := UpTo(93, s[1..]);
            && (cut == name <==> 93 !in name)
            && (93 !in name ==> |name| + 1 < |s| && s[|name| + 2..] == rest)
  {
    var s := [91] + name + [93] + rest;
    assert s[1..] == name + ([93] + rest);
    UpToStops(93, name, [93] + rest);
  }

  lemma {:induction false} PathReadBack(e: ArrayEncoding, path: seq<Step>)
    ensures Nameable(path) <==> ReadPath(PathText(e, path)) == Some(Told(e, path))
  {
    if path != [] {
      hide UpTo, ReadPath, Nameable;
      PathReadBack(e, path[1..]);
      NameableStep(path);
      if path[0] == Item && e == NoBrackets {
        ItemUnnamed();
        assert PathText(e, path) == PathText(e, path[1..]);
      } else {
        StepSpelled(e, path);
        hide PathText;
        StepReadBack(path[0], PathText(e, path), PathText(e, path[1..]), Told(e, path[1..]));
      }
    }
  }

  lemma ItemUnnamed()
    ensures Nameable([Item])
  {
  }

  lemma StepSpelled(e: ArrayEncoding, path: seq<Step>)
    requires path != [] && !(path[0] == Item && e == NoBrackets)
    ensures PathText(e, path) == [91] + StepName(path[0]) + [93] + PathText(e, path[1..])
  {
  }

  /** One step in front of a path that is read as told. */
  lemma StepReadBack(step: Step, s: Bytes, rest: Bytes, told: seq<Step>)
    requires s == [91] + StepName(step) + [93] + rest
    ensures ReadPath(s) == Some([step] + told) <==> Nameable([step]) && ReadPath(rest) == Some(told)
  {
    hide UpTo;
    var name := StepName(step);
    StepRead(name, rest);
    assert Nameable([step]) <==> (step.Field? ==> step.name != [] && 93 !in step.name) by { assert [step][0] == step; }
    hide Nameable;
    if 93 in name || (step.Field? && name == []) {
      assert ReadPath(s).Some? ==> ReadPath(s).value[0] != step;
    } else {
      assert ReadPath(s) == match ReadPath(rest) case None => None case Some(path) => Some([step] + path);
      if ReadPath(s) == Some([step] + told) {
        assert ReadPath(s).value[1..] == told;
      }
    }
  }

  lemma NameableStep(path: seq<Step>)
    requires path != []
    ensures Nameable(path) <==> Nameable([path[0]]) && Nameable(path[1..])
  {
    assert [path[0]][0] == path[0];
    if Nameable([path[0]]) && Nameable(path[1..]) {
      forall i | 0 <= i < |path| && path[i].Field?
        ensures path[i].name != [] && ']' as int !in path[i].name
      {
        if i > 0 { assert path[i] == path[1..][i - 1]; }
      }
    }
    if Nameable(path) {
      forall i | 0 <= i < |path[1..]| && path[1..][i].Field?
        ensures path[1..][i].name != [] && ']' as int !in path[1..][i].name
      {
        assert path[1..][i] == path[i + 1];
      }
    }
  }

  lemma {:induction false} PathStarts(e: ArrayEncoding, path: seq<Step>)
    ensures PathText(e, path) != [] ==> PathText(e, path)[0] == 91
  {
    if path != [] {
      PathStarts(e, path[1..]);
    }
  }

  /** The key of a leaf is read as its parameter's key and the way to the leaf. */
  lemma KeyReadBack(e: ArrayEncoding, key: Bytes, path: seq<Step>)
    requires '[' as int !in key
    ensures ReadKey(key + PathText(e, path)) == Some((key, Told(e, path))) <==> Nameable(path)
  {
    hide UpTo;
    var t := PathText(e, path);
    PathReadBack(e, path);
    PathStarts(e, path);
    UpToFirst(91, key, t);
    assert (key + t)[|key|..] == t;
  }

  // ----- the whole query -----

  /** A component is what the leaf that made it says: the same text, or the same boolean, under the same names. */
  predicate ReadsAs(e: Encoding, c: Component, h: Held) {
    && (h.value.Plain? ==> c.value == h.value.text)
    && (h.value.Flag? ==> ReadFlag(e.bools, c.value) == Some(h.value.on))
    && ('[' as int !in h.key && Nameable(h.path) ==> ReadKey(c.key) == Some((h.key, Told(e.arrays, h.path))))
  }

  /**
   Parsing the query of any parameters gives one component for each leaf that they hold, in order, and
   each reads as that leaf, at any depth and under every encoding.
   */
  lemma QueryReadBack(e: Encoding, parameters: seq<Entry>)
    requires AllHeld(parameters) != []
    ensures var r := ParseQuery(Joined(Pairs(Escaped(AllComponents(e, parameters)))));
            && r.Some? && |r.value| == |AllHeld(parameters)|
            && forall i :: 0 <= i < |r.value| ==> ReadsAs(e, r.value[i], AllHeld(parameters)[i])
  {
    hide ParseQuery, AllHeld, PathText, ReadFlag, BoolText, ReadKey, Nameable, Told, Joined, Pairs, Escaped, ReadsAs;
    var hs := AllHeld(parameters);
    ComponentsHeld(e, parameters, 0);
    assert parameters[0..] == parameters && parameters[..0] == [];
    assert AllComponents(e, parameters) == [] + ComponentsOf(e, hs) == ComponentsOf(e, hs);
    QueryParsesBack(AllComponents(e, parameters));
    forall i | 0 <= i < |hs|
      ensures ReadsAs(e, ComponentsOf(e, hs)[i], hs[i])
    {
      ComponentReadsAs(e, hs[i]);
    }
  }

  lemma ComponentReadsAs(e: Encoding, h: Held)
    ensures ReadsAs(e, ComponentOf(e, h), h)
  {
    hide PathText, ReadFlag, BoolText, ReadKey, Nameable, Told;
    if h.value.Flag? { FlagReadBack(e.bools, h.value.on); }
    if '[' as int !in h.key && Nameable(h.path) { KeyReadBack(e.arrays, h.key, h.path); }
  }

  /** The two values of a flag have different queries. */
  lemma FlagQueries(e: Encoding, key: Bytes, on: bool)
    ensures Joined(Pairs(Escaped(AllComponents(e, [Entry(key, Flag(on))]))))
         == Escape(key) + Ascii(if e.bools == Numeric then if on then "=1" else "=0" else if on then "=true" else "=false")
  {
    hide Escape, BoolText, Spelled, Ascii;
    var text := BoolText(e.bools, on);
    OneParameter(e, key, Flag(on));
    SpelledLeaf(e.arrays, key, text);
    assert Leaves(e.bools, Flag(on)) == [Leaf([], text)];
    FlagText(e.bools, on);
    var c := Component(Escape(key), text);
    assert Pairs([c]) == [Pair(c)];
    assert Escape(key) + [61] + text == Escape(key) + ([61] + text);
  }

  lemma FlagText(e: BoolEncoding, on: bool)
    ensures Escape(BoolText(e, on)) == BoolText(e, on)
    ensures [61] + BoolText(e, on)
         == Ascii(if e == Numeric then if on then "=1" else "=0" else if on then "=true" else "=false")
  {
    PlainText(BoolText(e, on));
    assert Ascii("=true") == [61, 116, 114, 117, 101] && Ascii("=false") == [61, 102, 97, 108, 115, 101];
    assert Ascii("=1") == [61, 49] && Ascii("=0") == [61, 48];
  }

  /** Letters and digits stay as they are. */
  lemma {:induction false} PlainText(s: Bytes)
    requires forall i :: 0 <= i < |s| ==> 97 <= s[i] <= 122 || 48 <= s[i] <= 57
    ensures Escape(s) == s
  {
    if s != [] {
      PlainText(s[1..]);
      assert [s[0]] + s[1..] == s;
    }
  }
}
