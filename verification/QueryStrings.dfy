/** URL-encoded query strings: nested parameters flattened, escaped and joined, and parsed back. */
module QueryStrings {
  import opened Bits
  import opened Outcomes

  type Bytes = seq<Byte>

  const AMPERSAND: Byte := 38
  const EQUALS: Byte := 61
  const PERCENT: Byte := 37

  // ----- escaping -----

  /** Unreserved characters of section 2.3 of RFC 3986, and the two that section 3.4 lets a query keep. */
  predicate Allowed(b: Byte) {
    || 48 <= b <= 57 || 65 <= b <= 90 || 97 <= b <= 122
    || b == 45 || b == 46 || b == 95 || b == 126
    || b == 47 || b == 63
  }

  function HexDigit(d: nat): Byte
    requires d < 16
  {
    if d < 10 then 48 + d else 55 + d
  }

  function HexValue(b: Byte): Option<nat> {
    if 48 <= b <= 57 then Some(b - 48)
    else if 65 <= b <= 70 then Some(b - 55)
    else if 97 <= b <= 102 then Some(b - 87)
    else None
  }

  /** Every byte that is not allowed becomes a percent sign and two hexadecimal digits. */
  function Escape(s: Bytes): Bytes {
    if s == [] then []
    else (if Allowed(s[0]) then [s[0]] else [PERCENT, HexDigit(s[0] / 16), HexDigit(s[0] % 16)]) + Escape(s[1..])
  }

  /** Percent-decoding, as in section 2.1 of RFC 3986. */
  function Unescape(s: Bytes): Option<Bytes> {
    if s == [] then Some([])
    else if s[0] != 37 then
      var rest := Unescape(s[1..]);
      if rest.Some? then Some([s[0]] + rest.value) else None
    else if |s| < 3 || HexValue(s[1]).None? || HexValue(s[2]).None? then None
    else
      var rest := Unescape(s[3..]);
      if rest.Some? then Some([16 * HexValue(s[1]).value + HexValue(s[2]).value] + rest.value) else None
  }

  lemma HexRoundTrip(d: nat)
    requires d < 16
    ensures HexValue(HexDigit(d)) == Some(d)
  {
  }

  lemma {:induction false} EscapeUndone(s: Bytes)
    ensures Unescape(Escape(s)) == Some(s)
  {
    if s != [] {
      var e := Escape(s[1..]);
      EscapeUndone(s[1..]);
      assert [s[0]] + s[1..] == s;
      if Allowed(s[0]) {
        assert ([s[0]] + e)[1..] == e;
      } else {
        var h, l := HexDigit(s[0] / 16), HexDigit(s[0] % 16);
        HexRoundTrip(s[0] / 16);
        HexRoundTrip(s[0] % 16);
        assert ([PERCENT, h, l] + e)[3..] == e;
      }
    }
  }

  /** No separator survives escaping, nor anything else that a query may not hold. */
  lemma {:induction false} EscapedBytes(s: Bytes)
    ensures forall b :: b in Escape(s) ==> Allowed(b) || b == PERCENT
    ensures AMPERSAND !in Escape(s) && EQUALS !in Escape(s)
  {
    if s != [] {
      EscapedBytes(s[1..]);
    }
  }

  lemma {:induction false} EscapeJoin(s: Bytes, t: Bytes)
    ensures Escape(s + t) == Escape(s) + Escape(t)
  {
    if s == [] {
      assert s + t == t;
    } else {
      assert (s + t)[1..] == s[1..] + t;
      EscapeJoin(s[1..], t);
    }
  }

  /** A string is a sequence of characters, each of one or more bytes. */
  function Text(characters: seq<Bytes>): Bytes {
    if characters == [] then [] else characters[0] + Text(characters[1..])
  }

  lemma {:induction false} TextJoin(a: seq<Bytes>, b: seq<Bytes>)
    ensures Text(a + b) == Text(a) + Text(b)
  {
    if a == [] {
      assert a + b == b;
    } else {
      assert (a + b)[1..] == a[1..] + b;
      TextJoin(a[1..], b);
    }
  }

  const BATCH_SIZE := 50

  /** Escaping fifty characters at a time is escaping the whole string. */
  method EscapeInBatches(characters: seq<Bytes>) returns (escaped: Bytes)
    ensures escaped == Escape(Text(characters))
  {
    escaped := [];
    var index := 0;
    while index != |characters|
      invariant index <= |characters|
      invariant escaped == Escape(Text(characters[..index]))
      decreases |characters| - index
    {
      var startIndex := index;
      var endIndex := if |characters| - index >= BATCH_SIZE then index + BATCH_SIZE else |characters|;
      var substring := characters[startIndex..endIndex];
      TextJoin(characters[..startIndex], substring);
      EscapeJoin(Text(characters[..startIndex]), Text(substring));
      assert characters[..endIndex] == characters[..startIndex] + substring;
      escaped := escaped + Escape(Text(substring));
      index := endIndex;
    }
    assert characters[..index] == characters;
  }

  // ----- flattening -----

  /** A parameter value: a dictionary in the order it is walked, an array, a boolean, or anything with a text. */
  datatype Value =
    | Dict(entries: seq<Entry>)
    | List(items: seq<Value>)
    | Flag(on: bool)
    | Plain(text: Bytes)

  datatype Entry = Entry(key: Bytes, value: Value)

  datatype ArrayEncoding = Brackets | NoBrackets
  datatype BoolEncoding = Numeric | Literal
  datatype Encoding = Encoding(arrays: ArrayEncoding, bools: BoolEncoding)

  datatype Component = Component(key: Bytes, value: Bytes)

  function ArrayKey(e: ArrayEncoding, key: Bytes): Bytes {
    if e == Brackets then key + [91, 93] else key
  }

  function BoolText(e: BoolEncoding, on: bool): Bytes {
    match e
    case Numeric => if on then [49] else [48]
    case Literal => if on then [116, 114, 117, 101] else [102, 97, 108, 115, 101]
  }

  function NestedKey(key: Bytes, nested: Bytes): Bytes {
    key + [91] + nested + [93]
  }

  /** A step into a value, and the text it adds to the key. */
  datatype Step = Field(name: Bytes) | Item

  function StepText(e: ArrayEncoding, step: Step): Bytes {
    match step
    case Field(name) => [91] + name + [93]
    case Item => if e == Brackets then [91, 93] else []
  }

  function PathText(e: ArrayEncoding, path: seq<Step>): Bytes {
    if path == [] then [] else StepText(e, path[0]) + PathText(e, path[1..])
  }

  /** A leaf of a value: the way to it and its text. */
  datatype Leaf = Leaf(path: seq<Step>, text: Bytes)

  function Under(step: Step, leaves: seq<Leaf>): (r: seq<Leaf>)
    ensures |r| == |leaves|
  {
    seq(|leaves|, i requires 0 <= i < |leaves| => Leaf([step] + leaves[i].path, leaves[i].text))
  }

  /** The leaves of a value, left to right. */
  function Leaves(e: BoolEncoding, v: Value): seq<Leaf>
    decreases v
  {
    match v
    case Dict(entries) => LeavesOfEntries(e, v, |entries|)
    case List(items) => LeavesOfItems(e, v, |items|)
    case Flag(on) => [Leaf([], BoolText(e, on))]
    case Plain(text) => [Leaf([], text)]
  }

  function LeavesOfEntries(e: BoolEncoding, v: Value, n: nat): seq<Leaf>
    requires v.Dict? && n <= |v.entries|
    decreases v, n
  {
    if n == 0 then []
    else
      LeavesOfEntries(e, v, n - 1) + Under(Field(v.entries[n - 1].key), Leaves(e, v.entries[n - 1].value))
  }

  function LeavesOfItems(e: BoolEncoding, v: Value, n: nat): seq<Leaf>
    requires v.List? && n <= |v.items|
    decreases v, n
  {
    if n == 0 then [] else LeavesOfItems(e, v, n - 1) + Under(Item, Leaves(e, v.items[n - 1]))
  }

  /** One component a leaf; its key spells the way to it. */
  function Spelled(e: ArrayEncoding, key: Bytes, leaves: seq<Leaf>): (r: seq<Component>)
    ensures |r| == |leaves|
  {
    seq(|leaves|, i requires 0 <= i < |leaves| => Component(key + PathText(e, leaves[i].path), leaves[i].text))
  }

  function Components(e: Encoding, key: Bytes, v: Value): seq<Component> {
    Spelled(e.arrays, key, Leaves(e.bools, v))
  }

  function Escaped(cs: seq<Component>): (r: seq<Component>)
    ensures |r| == |cs|
  {
    seq(|cs|, i requires 0 <= i < |cs| => Component(Escape(cs[i].key), Escape(cs[i].value)))
  }

  lemma SpelledJoin(e: ArrayEncoding, key: Bytes, a: seq<Leaf>, b: seq<Leaf>)
    ensures Escaped(Spelled(e, key, a + b)) == Escaped(Spelled(e, key, a)) + Escaped(Spelled(e, key, b))
  {
  }

  /** A step into a value makes the key longer. */
  lemma SpelledUnder(e: ArrayEncoding, key: Bytes, step: Step, leaves: seq<Leaf>)
    ensures Spelled(e, key, Under(step, leaves)) == Spelled(e, key + StepText(e, step), leaves)
  {
    forall i | 0 <= i < |leaves|
      ensures key + PathText(e, [step] + leaves[i].path) == key + StepText(e, step) + PathText(e, leaves[i].path)
    {
      assert ([step] + leaves[i].path)[1..] == leaves[i].path;
    }
  }

  lemma SpelledLeaf(e: ArrayEncoding, key: Bytes, text: Bytes)
    ensures Escaped(Spelled(e, key, [Leaf([], text)])) == [Component(Escape(key), Escape(text))]
  {
    assert key + PathText(e, []) == key;
  }

  /** The escaped components of a value under a key, by recursion on the value. */
  method QueryComponents(e: Encoding, key: Bytes, value: Value) returns (components: seq<Component>)
    ensures components == Escaped(Components(e, key, value))
    decreases value
  {
    hide Spelled, Escape, Under, PathText;
    components := [];
    match value {
      case Dict(entries) =>
        NoComponents(e, key);
        for i := 0 to |entries|
          invariant components == Escaped(Spelled(e.arrays, key, LeavesOfEntries(e.bools, value, i)))
        {
          var nested := QueryComponents(e, NestedKey(key, entries[i].key), entries[i].value);
          ghost var step, leaves := Field(entries[i].key), Leaves(e.bools, entries[i].value);
          SpelledUnder(e.arrays, key, step, leaves);
          assert key + StepText(e.arrays, step) == NestedKey(key, entries[i].key);
          SpelledJoin(e.arrays, key, LeavesOfEntries(e.bools, value, i), Under(step, leaves));
          components := components + nested;
        }
      case List(items) =>
        NoComponents(e, key);
        for i := 0 to |items|
          invariant components == Escaped(Spelled(e.arrays, key, LeavesOfItems(e.bools, value, i)))
        {
          var nested := QueryComponents(e, ArrayKey(e.arrays, key), items[i]);
          ghost var leaves := Leaves(e.bools, items[i]);
          SpelledUnder(e.arrays, key, Item, leaves);
          assert key + StepText(e.arrays, Item) == ArrayKey(e.arrays, key);
          SpelledJoin(e.arrays, key, LeavesOfItems(e.bools, value, i), Under(Item, leaves));
          components := components + nested;
        }
      case Flag(on) =>
        SpelledLeaf(e.arrays, key, BoolText(e.bools, on));
        components := components + [Component(Escape(key), Escape(BoolText(e.bools, on)))];
      case Plain(text) =>
        SpelledLeaf(e.arrays, key, text);
        components := components + [Component(Escape(key), Escape(text))];
    }
  }

  lemma NoComponents(e: Encoding, key: Bytes)
    ensures Escaped(Spelled(e.arrays, key, [])) == []
  {
  }

  // ----- the query -----

  /** The components of several parameters, in order. */
  function AllComponents(e: Encoding, parameters: seq<Entry>): seq<Component> {
    if parameters == [] then []
    else
      var n := |parameters| - 1;
      AllComponents(e, parameters[..n]) + Components(e, parameters[n].key, parameters[n].value)
  }

  function Pair(c: Component): Bytes {
    c.key + [EQUALS] + c.value
  }

  function Pairs(cs: seq<Component>): (r: seq<Bytes>)
    ensures |r| == |cs|
  {
    seq(|cs|, i requires 0 <= i < |cs| => Pair(cs[i]))
  }

  function Joined(pieces: seq<Bytes>): Bytes {
    if pieces == [] then []
    else if |pieces| == 1 then pieces[0]
    else pieces[0] + [AMPERSAND] + Joined(pieces[1..])
  }

  /** The query of the parameters, which come in the order of their sorted keys. */
  method Query(e: Encoding, parameters: seq<Entry>) returns (query: Bytes)
    ensures query == Joined(Pairs(Escaped(AllComponents(e, parameters))))
    ensures ParseQuery(query) == Some(AllComponents(e, parameters)) <==> AllComponents(e, parameters) != []
  {
    var components: seq<Component> := [];
    for i := 0 to |parameters|
      invariant components == Escaped(AllComponents(e, parameters[..i]))
    {
      var more := QueryComponents(e, parameters[i].key, parameters[i].value);
      assert parameters[..i + 1][..i] == parameters[..i];
      EscapedJoin(AllComponents(e, parameters[..i]), Components(e, parameters[i].key, parameters[i].value));
      components := components + more;
    }
    assert parameters[..|parameters|] == parameters;
    query := Joined(Pairs(components));
    QueryParsesBack(AllComponents(e, parameters));
  }

  lemma EscapedJoin(a: seq<Component>, b: seq<Component>)
    ensures Escaped(a + b) == Escaped(a) + Escaped(b)
  {
  }

  // ----- parsing -----

  /** The stretches between the occurrences of a byte. */
  function Split(sep: Byte, s: Bytes): (r: seq<Bytes>)
    ensures r != []
  {
    if s == [] then [[]]
    else
      var rest := Split(sep, s[1..]);
      if s[0] == sep then [[]] + rest else [[s[0]] + rest[0]] + rest[1..]
  }

  lemma {:induction false} SplitFree(sep: Byte, x: Bytes)
    requires sep !in x
    ensures Split(sep, x) == [x]
  {
    if x != [] {
      SplitFree(sep, x[1..]);
      assert [x[0]] + x[1..] == x;
    }
  }

  lemma {:induction false} SplitStep(sep: Byte, x: Bytes, rest: Bytes)
    requires sep !in x
    ensures Split(sep, x + [sep] + rest) == [x] + Split(sep, rest)
  {
    var s := x + [sep] + rest;
    if x == [] {
      assert s[1..] == rest;
    } else {
      assert s[1..] == x[1..] + [sep] + rest;
      SplitStep(sep, x[1..], rest);
      assert [x[0]] + x[1..] == x;
    }
  }

  lemma {:induction false} JoinedUndone(pieces: seq<Bytes>)
    requires pieces != [] && forall i :: 0 <= i < |pieces| ==> AMPERSAND !in pieces[i]
    ensures Split(AMPERSAND, Joined(pieces)) == pieces
  {
    if |pieces| == 1 {
      SplitFree(AMPERSAND, pieces[0]);
    } else {
      JoinedUndone(pieces[1..]);
      SplitStep(AMPERSAND, pieces[0], Joined(pieces[1..]));
    }
  }

  /** A pair taken apart at its one equals sign, both sides percent-decoded. */
  function ParsePair(s: Bytes): Option<Component> {
    var sides := Split(61, s);
    if |sides| != 2 then None
    else
      var key, value := Unescape(sides[0]), Unescape(sides[1]);
      if key.Some? && value.Some? then Some(Component(key.value, value.value)) else None
  }

  function ParsePairs(pieces: seq<Bytes>): Option<seq<Component>> {
    if pieces == [] then Some([])
    else
      var first, rest := ParsePair(pieces[0]), ParsePairs(pieces[1..]);
      if first.Some? && rest.Some? then Some([first.value] + rest.value) else None
  }

  function ParseQuery(query: Bytes): Option<seq<Component>> {
    ParsePairs(Split(38, query))
  }

  lemma PairUndone(c: Component)
    ensures ParsePair(Pair(Component(Escape(c.key), Escape(c.value)))) == Some(c)
    ensures AMPERSAND !in Pair(Component(Escape(c.key), Escape(c.value)))
  {
    hide Escape, Unescape, Split;
    EscapedBytes(c.key);
    EscapedBytes(c.value);
    SplitFree(EQUALS, Escape(c.value));
    SplitStep(EQUALS, Escape(c.key), Escape(c.value));
    EscapeUndone(c.key);
    EscapeUndone(c.value);
  }

  lemma {:induction false} PairsUndone(cs: seq<Component>)
    ensures ParsePairs(Pairs(Escaped(cs))) == Some(cs)
    ensures forall i :: 0 <= i < |cs| ==> AMPERSAND !in Pairs(Escaped(cs))[i]
  {
    hide ParsePair, Pair, Escape;
    if cs != [] {
      PairUndone(cs[0]);
      PairsUndone(cs[1..]);
      assert Pairs(Escaped(cs))[1..] == Pairs(Escaped(cs[1..]));
      assert [cs[0]] + cs[1..] == cs;
    }
  }

  /** A query gives back its components, in order and unescaped, if and only if it has any. */
  lemma QueryParsesBack(cs: seq<Component>)
    ensures ParseQuery(Joined(Pairs(Escaped(cs)))) == Some(cs) <==> cs != []
  {
    hide ParsePair, Pair, Escape;
    PairsUndone(cs);
    if cs != [] {
      JoinedUndone(Pairs(Escaped(cs)));
    } else {
      assert Split(AMPERSAND, []) == [[]];
      assert ParsePair([]) == None by { EmptyPair(); }
    }
  }

  lemma EmptyPair()
    ensures ParsePair([]) == None
  {
  }

  lemma EmptyQuery()
    ensures ParseQuery([]) == None
  {
    assert Split(AMPERSAND, []) == [[]];
    EmptyPair();
  }

  /** Equal queries have equal components. */
  lemma QueryInjective(cs: seq<Component>, ds: seq<Component>)
    ensures Joined(Pairs(Escaped(cs))) == Joined(Pairs(Escaped(ds))) <==> cs == ds
  {
    hide ParseQuery, Pairs, Escaped;
    QueryParsesBack(cs);
    QueryParsesBack(ds);
    EmptyQuery();
    NoPairs();
  }

  lemma NoPairs()
    ensures Joined(Pairs(Escaped([]))) == []
  {
  }

  // ----- when a query tells its parameters apart -----

  /** A leaf under the key of its parameter. */
  datatype Named = Named(key: Bytes, leaf: Leaf)

  function NamedLeaves(key: Bytes, leaves: seq<Leaf>): (r: seq<Named>)
    ensures |r| == |leaves|
  {
    seq(|leaves|, i requires 0 <= i < |leaves| => Named(key, leaves[i]))
  }

  /** All leaves of the parameters, in order. */
  function AllLeaves(e: BoolEncoding, parameters: seq<Entry>): seq<Named> {
    if parameters == [] then []
    else
      var n := |parameters| - 1;
      AllLeaves(e, parameters[..n]) + NamedLeaves(parameters[n].key, Leaves(e, parameters[n].value))
  }

  function Spell(e: ArrayEncoding, n: Named): Component {
    Component(n.key + PathText(e, n.leaf.path), n.leaf.text)
  }

  lemma {:induction false} ComponentsSpellLeaves(e: Encoding, parameters: seq<Entry>)
    ensures |AllComponents(e, parameters)| == |AllLeaves(e.bools, parameters)|
    ensures forall i :: 0 <= i < |AllLeaves(e.bools, parameters)| ==>
      AllComponents(e, parameters)[i] == Spell(e.arrays, AllLeaves(e.bools, parameters)[i])
  {
    hide PathText, Leaves;
    if parameters != [] {
      ComponentsSpellLeaves(e, parameters[..|parameters| - 1]);
    }
  }

  predicate BracketFree(s: Bytes) {
    91 !in s && 93 !in s
  }

  /** Names of nested fields are not empty, and free of brackets. */
  predicate PlainPath(path: seq<Step>) {
    forall i :: 0 <= i < |path| && path[i].Field? ==> path[i].name != [] && BracketFree(path[i].name)
  }

  predicate PlainValue(v: Value)
    decreases v
  {
    match v
    case Dict(entries) =>
      forall i :: 0 <= i < |entries| ==> entries[i].key != [] && BracketFree(entries[i].key) && PlainValue(entries[i].value)
    case List(items) => forall i :: 0 <= i < |items| ==> PlainValue(items[i])
    case _ => true
  }

  predicate PlainParameters(parameters: seq<Entry>) {
    forall i :: 0 <= i < |parameters| ==> BracketFree(parameters[i].key) && PlainValue(parameters[i].value)
  }

  predicate PlainLeaves(leaves: seq<Leaf>) {
    forall i :: 0 <= i < |leaves| ==> PlainPath(leaves[i].path)
  }

  lemma UnderPlain(step: Step, leaves: seq<Leaf>)
    requires PlainLeaves(leaves) && PlainPath([step])
    ensures PlainLeaves(Under(step, leaves))
  {
    assert [step][0] == step;
  }

  lemma {:induction false} ValueLeavesPlain(e: BoolEncoding, v: Value)
    requires PlainValue(v)
    ensures PlainLeaves(Leaves(e, v))
    decreases v
  {
    match v
    case Dict(entries) => EntryLeavesPlain(e, v, |entries|);
    case List(items) => ItemLeavesPlain(e, v, |items|);
    case Flag(_) =>
    case Plain(_) =>
  }

  lemma {:induction false} EntryLeavesPlain(e: BoolEncoding, v: Value, n: nat)
    requires PlainValue(v) && v.Dict? && n <= |v.entries|
    ensures PlainLeaves(LeavesOfEntries(e, v, n))
    decreases v, n
  {
    hide PlainPath, Leaves, Under;
    if n > 0 {
      var entry := v.entries[n - 1];
      EntryLeavesPlain(e, v, n - 1);
      ValueLeavesPlain(e, entry.value);
      StepPlain(Field(entry.key));
      UnderPlain(Field(entry.key), Leaves(e, entry.value));
    }
  }

  lemma {:induction false} ItemLeavesPlain(e: BoolEncoding, v: Value, n: nat)
    requires PlainValue(v) && v.List? && n <= |v.items|
    ensures PlainLeaves(LeavesOfItems(e, v, n))
    decreases v, n
  {
    hide PlainPath, Leaves, Under;
    if n > 0 {
      ItemLeavesPlain(e, v, n - 1);
      ValueLeavesPlain(e, v.items[n - 1]);
      StepPlain(Item);
      UnderPlain(Item, Leaves(e, v.items[n - 1]));
    }
  }

  lemma StepPlain(step: Step)
    requires step.Field? ==> step.name != [] && BracketFree(step.name)
    ensures PlainPath([step])
  {
  }

  lemma {:induction false} ParameterLeavesPlain(e: BoolEncoding, parameters: seq<Entry>)
    requires PlainParameters(parameters)
    ensures forall i :: 0 <= i < |AllLeaves(e, parameters)| ==>
      var n := AllLeaves(e, parameters)[i]; BracketFree(n.key) && PlainPath(n.leaf.path)
  {
    hide Leaves, PlainPath;
    if parameters != [] {
      var n := |parameters| - 1;
      ParameterLeavesPlain(e, parameters[..n]);
      ValueLeavesPlain(e, parameters[n].value);
    }
  }

  function UpTo(b: Byte, s: Bytes): Bytes {
    if s == [] || s[0] == b then [] else [s[0]] + UpTo(b, s[1..])
  }

  lemma {:induction false} UpToFirst(b: Byte, x: Bytes, r: Bytes)
    requires b !in x && (r == [] || r[0] == b)
    ensures UpTo(b, x + r) == x
  {
    if x == [] {
      assert x + r == r;
    } else {
      assert (x + r)[1..] == x[1..] + r;
      UpToFirst(b, x[1..], r);
    }
  }

  /** Up to the first occurrence of a byte, two equal strings are equal, and so is what follows it. */
  lemma SameUpTo(b: Byte, x: Bytes, y: Bytes, r: Bytes, s: Bytes)
    requires b !in x && b !in y
    requires r == [] || r[0] == b
    requires s == [] || s[0] == b
    requires x + r == y + s
    ensures x == y && r == s
  {
    UpToFirst(b, x, r);
    UpToFirst(b, y, s);
    assert r == (x + r)[|x|..] && s == (y + s)[|y|..];
  }

  function StepName(step: Step): Bytes {
    if step.Field? then step.name else []
  }

  lemma PathStart(path: seq<Step>)
    ensures var t := PathText(Brackets, path);
            if path == [] then t == []
            else t == [91] + (StepName(path[0]) + ([93] + PathText(Brackets, path[1..])))
  {
  }

  lemma {:induction false} PathInjective(p: seq<Step>, q: seq<Step>)
    requires PlainPath(p) && PlainPath(q) && PathText(Brackets, p) == PathText(Brackets, q)
    ensures p == q
  {
    hide PathText;
    PathStart(p);
    PathStart(q);
    if p != [] && q != [] {
      var r, s := [93] + PathText(Brackets, p[1..]), [93] + PathText(Brackets, q[1..]);
      var t := PathText(Brackets, p);
      assert t[1..] == StepName(p[0]) + r == StepName(q[0]) + s;
      SameUpTo(93, StepName(p[0]), StepName(q[0]), r, s);
      assert r[1..] == PathText(Brackets, p[1..]) && s[1..] == PathText(Brackets, q[1..]);
      PathInjective(p[1..], q[1..]);
      assert p == [p[0]] + p[1..] && q == [q[0]] + q[1..];
    }
  }

  lemma SpellInjective(m: Named, n: Named)
    requires BracketFree(m.key) && PlainPath(m.leaf.path) && BracketFree(n.key) && PlainPath(n.leaf.path)
    requires Spell(Brackets, m) == Spell(Brackets, n)
    ensures m == n
  {
    PathStart(m.leaf.path);
    PathStart(n.leaf.path);
    SameUpTo(91, m.key, n.key, PathText(Brackets, m.leaf.path), PathText(Brackets, n.leaf.path));
    PathInjective(m.leaf.path, n.leaf.path);
  }

  /**
   With brackets for arrays, and keys free of brackets and not empty below the top, two sets of
   parameters have the same query if and only if they have the same leaves under the same keys.
   */
  lemma QueryDeterminesLeaves(e: Encoding, ps: seq<Entry>, qs: seq<Entry>)
    requires e.arrays == Brackets && PlainParameters(ps) && PlainParameters(qs)
    ensures Joined(Pairs(Escaped(AllComponents(e, ps)))) == Joined(Pairs(Escaped(AllComponents(e, qs))))
       <==> AllLeaves(e.bools, ps) == AllLeaves(e.bools, qs)
  {
    hide AllComponents, AllLeaves, Spell, PlainPath, BracketFree, PlainParameters;
    var cs, ds, ls, ms := AllComponents(e, ps), AllComponents(e, qs), AllLeaves(e.bools, ps), AllLeaves(e.bools, qs);
    QueryInjective(cs, ds);
    ComponentsSpellLeaves(e, ps);
    ComponentsSpellLeaves(e, qs);
    ParameterLeavesPlain(e.bools, ps);
    ParameterLeavesPlain(e.bools, qs);
    assert ls == ms ==> cs == ds;
    if cs == ds {
      forall i | 0 <= i < |ls|
        ensures ls[i] == ms[i]
      {
        assert cs[i] == ds[i];
        SpellInjective(ls[i], ms[i]);
      }
    }
  }

  // ----- each condition is needed -----

  lemma OneParameter(e: Encoding, key: Bytes, v: Value)
    ensures AllComponents(e, [Entry(key, v)]) == Components(e, key, v)
    ensures AllLeaves(e.bools, [Entry(key, v)]) == NamedLeaves(key, Leaves(e.bools, v))
  {
    assert [Entry(key, v)][..0] == [];
    assert AllComponents(e, []) == [] && AllLeaves(e.bools, []) == [];
  }

  lemma OneEntry(e: BoolEncoding, name: Bytes, v: Value)
    ensures Leaves(e, Dict([Entry(name, v)])) == Under(Field(name), Leaves(e, v))
    ensures Leaves(e, List([v])) == Under(Item, Leaves(e, v))
  {
    assert LeavesOfEntries(e, Dict([Entry(name, v)]), 0) == [];
    assert LeavesOfItems(e, List([v]), 0) == [];
    assert LeavesOfEntries(e, Dict([Entry(name, v)]), 1) == Under(Field(name), Leaves(e, v));
    assert LeavesOfItems(e, List([v]), 1) == Under(Item, Leaves(e, v));
  }

  /** Two sets of parameters with different leaves and the same components, so the same query. */
  predicate Confused(e: Encoding, ps: seq<Entry>, qs: seq<Entry>) {
    AllComponents(e, ps) == AllComponents(e, qs) && AllLeaves(e.bools, ps) != AllLeaves(e.bools, qs)
  }

  lemma OneLeafEach(e: Encoding, k: Bytes, v: Value, p: seq<Step>, k': Bytes, v': Value, p': seq<Step>, text: Bytes)
    requires Leaves(e.bools, v) == [Leaf(p, text)] && Leaves(e.bools, v') == [Leaf(p', text)]
    requires k + PathText(e.arrays, p) == k' + PathText(e.arrays, p') && (k != k' || p != p')
    ensures Confused(e, [Entry(k, v)], [Entry(k', v')])
  {
    hide PathText, Leaves;
    OneParameter(e, k, v);
    OneParameter(e, k', v');
    assert NamedLeaves(k, [Leaf(p, text)])[0] != NamedLeaves(k', [Leaf(p', text)])[0];
  }

  lemma PathOfOne(e: ArrayEncoding, step: Step)
    ensures PathText(e, [step]) == StepText(e, step) && PathText(e, []) == []
  {
    assert [step][1..] == [];
  }

  lemma PlainLeaf(e: BoolEncoding, step: Step, text: Bytes)
    ensures Leaves(e, Plain(text)) == [Leaf([], text)]
    ensures Under(step, [Leaf([], text)]) == [Leaf([step], text)]
  {
    assert [step] + [] == [step];
  }

  /** A key that holds brackets spells a nested dictionary. */
  lemma NestingIsAmbiguous(e: Encoding, key: Bytes, nested: Bytes, text: Bytes)
    ensures Confused(e, [Entry(key, Dict([Entry(nested, Plain(text))]))], [Entry(NestedKey(key, nested), Plain(text))])
  {
    PlainLeaf(e.bools, Field(nested), text);
    OneEntry(e.bools, nested, Plain(text));
    PathOfOne(e.arrays, Field(nested));
    assert key + StepText(e.arrays, Field(nested)) == NestedKey(key, nested) == NestedKey(key, nested) + [];
    OneLeafEach(e, key, Dict([Entry(nested, Plain(text))]), [Field(nested)], NestedKey(key, nested), Plain(text), [], text);
  }

  /** So does a name that holds brackets. */
  lemma NameIsAmbiguous(e: Encoding, key: Bytes, outer: Bytes, inner: Bytes, text: Bytes)
    ensures Confused(e, [Entry(key, Dict([Entry(outer, Dict([Entry(inner, Plain(text))]))]))],
                     [Entry(key, Dict([Entry(outer + [93, 91] + inner, Plain(text))]))])
  {
    var both := outer + [93, 91] + inner;
    var v := Dict([Entry(inner, Plain(text))]);
    PlainLeaf(e.bools, Field(inner), text);
    PlainLeaf(e.bools, Field(both), text);
    OneEntry(e.bools, inner, Plain(text));
    OneEntry(e.bools, outer, v);
    OneEntry(e.bools, both, Plain(text));
    assert [Field(outer)] + [Field(inner)] == [Field(outer), Field(inner)];
    assert Under(Field(outer), [Leaf([Field(inner)], text)]) == [Leaf([Field(outer), Field(inner)], text)];
    PathOfOne(e.arrays, Field(inner));
    PathOfOne(e.arrays, Field(both));
    assert [Field(outer), Field(inner)][1..] == [Field(inner)];
    assert PathText(e.arrays, [Field(outer), Field(inner)]) == StepText(e.arrays, Field(outer)) + StepText(e.arrays, Field(inner));
    assert StepText(e.arrays, Field(outer)) + StepText(e.arrays, Field(inner)) == StepText(e.arrays, Field(both));
    OneLeafEach(e, key, Dict([Entry(outer, v)]), [Field(outer), Field(inner)],
                key, Dict([Entry(both, Plain(text))]), [Field(both)], text);
  }

  /** An empty name reads as an array item. */
  lemma EmptyNameIsAmbiguous(bools: BoolEncoding, key: Bytes, text: Bytes)
    ensures Confused(Encoding(Brackets, bools), [Entry(key, Dict([Entry([], Plain(text))]))], [Entry(key, List([Plain(text)]))])
  {
    PlainLeaf(bools, Field([]), text);
    PlainLeaf(bools, Item, text);
    OneEntry(bools, [], Plain(text));
    PathOfOne(Brackets, Field([]));
    PathOfOne(Brackets, Item);
    OneLeafEach(Encoding(Brackets, bools), key, Dict([Entry([], Plain(text))]), [Field([])], key, List([Plain(text)]), [Item], text);
  }

  /** Without brackets an array of one item reads as the item. */
  lemma NoBracketsIsAmbiguous(bools: BoolEncoding, key: Bytes, text: Bytes)
    ensures Confused(Encoding(NoBrackets, bools), [Entry(key, List([Plain(text)]))], [Entry(key, Plain(text))])
  {
    PlainLeaf(bools, Item, text);
    OneEntry(bools, [], Plain(text));
    PathOfOne(NoBrackets, Item);
    OneLeafEach(Encoding(NoBrackets, bools), key, List([Plain(text)]), [Item], key, Plain(text), [], text);
  }
}
