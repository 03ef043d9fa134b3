/** Multipart form data: the bytes of a form, and how they are taken apart again. */
module Multipart {
  import opened Bits
  import opened Outcomes

  type Bytes = seq<Byte>

  const CRLF: Bytes := [13, 10]
  const DASHES: Bytes := [45, 45]

  // ----- boundaries and parts -----

  datatype BoundaryType = InitialBoundary | Encapsulated | FinalBoundary

  function BoundaryData(kind: BoundaryType, boundary: Bytes): Bytes {
    match kind
    case InitialBoundary => DASHES + boundary + CRLF
    case Encapsulated => CRLF + DASHES + boundary + CRLF
    case FinalBoundary => CRLF + DASHES + boundary + DASHES + CRLF
  }

  datatype Header = Header(key: Bytes, value: Bytes)

  /** Header lines, in the order the dictionary hands them out, and an empty line. */
  function HeaderBytes(headers: seq<Header>): Bytes {
    if headers == [] then CRLF
    else headers[0].key + [58, 32] + headers[0].value + CRLF + HeaderBytes(headers[1..])
  }

  /** A part's content and its two boundary flags. */
  datatype Part = Part(headers: seq<Header>, body: Bytes, first: bool, last: bool)

  function Content(p: Part): Bytes {
    HeaderBytes(p.headers) + p.body
  }

  function PartBytes(p: Part, boundary: Bytes): Bytes {
    BoundaryData(if p.first then InitialBoundary else Encapsulated, boundary)
    + Content(p)
    + if p.last then BoundaryData(FinalBoundary, boundary) else []
  }

  /** What the flags as they stand make of a list of parts. */
  function FlaggedBytes(ps: seq<Part>, boundary: Bytes): Bytes {
    if ps == [] then [] else PartBytes(ps[0], boundary) + FlaggedBytes(ps[1..], boundary)
  }

  /** The flags that encoding sets, on top of those already set. */
  function Flagged(ps: seq<Part>): (r: seq<Part>)
    ensures |r| == |ps|
  {
    seq(|ps|, i requires 0 <= i < |ps| =>
      ps[i].(first := ps[i].first || i == 0, last := ps[i].last || i == |ps| - 1))
  }

  // ----- a form, by its definition -----

  /** The delimiter of section 5.1.1 of RFC 2046: a line break, two dashes and the boundary. */
  function Delimiter(boundary: Bytes): Bytes {
    [13, 10, 45, 45] + boundary
  }

  /** Each part's content behind a delimiter line, then the closing delimiter. */
  function Framed(contents: seq<Bytes>, boundary: Bytes): Bytes {
    if contents == [] then Delimiter(boundary) + [45, 45] + [13, 10]
    else Delimiter(boundary) + [13, 10] + contents[0] + Framed(contents[1..], boundary)
  }

  /** The form starts at the first delimiter line, without the line break before it. */
  function FormBytes(contents: seq<Bytes>, boundary: Bytes): Bytes {
    if contents == [] then [] else Framed(contents, boundary)[2..]
  }

  function Contents(ps: seq<Part>): (r: seq<Bytes>)
    ensures |r| == |ps|
  {
    seq(|ps|, i requires 0 <= i < |ps| => Content(ps[i]))
  }

  /** The first flag is on the first part only, the last flag on the last part only. */
  predicate CleanFlags(ps: seq<Part>) {
    forall i :: 0 <= i < |ps| ==> (ps[i].first ==> i == 0) && (ps[i].last ==> i == |ps| - 1)
  }

  /** The parts from a later one on, each behind an encapsulated boundary. */
  lemma {:induction false} TailFramed(ps: seq<Part>, boundary: Bytes)
    requires ps != []
    requires forall i :: 0 <= i < |ps| ==> !ps[i].first && (ps[i].last <==> i == |ps| - 1)
    ensures FlaggedBytes(ps, boundary) == Framed(Contents(ps), boundary)
  {
    var c, d := Content(ps[0]), Delimiter(boundary);
    assert Contents(ps)[1..] == Contents(ps[1..]);
    assert BoundaryData(Encapsulated, boundary) == d + CRLF;
    if |ps| == 1 {
      assert Contents(ps[1..]) == [];
      assert BoundaryData(FinalBoundary, boundary) == d + DASHES + CRLF;
      assert FlaggedBytes(ps, boundary) == d + CRLF + c + (d + DASHES + CRLF);
    } else {
      TailFramed(ps[1..], boundary);
      assert FlaggedBytes(ps, boundary) == d + CRLF + c + Framed(Contents(ps[1..]), boundary);
    }
  }

  /** The first part: its boundary is the delimiter line without the line break before it. */
  lemma FirstFramed(p: Part, boundary: Bytes, tail: Bytes)
    requires p.first
    ensures PartBytes(p.(last := false), boundary) + tail == (Delimiter(boundary) + CRLF + Content(p) + tail)[2..]
    ensures PartBytes(p.(last := true), boundary) == (Delimiter(boundary) + CRLF + Content(p) + (Delimiter(boundary) + DASHES + CRLF))[2..]
  {
    hide HeaderBytes;
    var c, d, initial := Content(p), Delimiter(boundary), BoundaryData(InitialBoundary, boundary);
    assert BoundaryData(FinalBoundary, boundary) == d + DASHES + CRLF;
    CutTwo(d, initial, c, tail);
    CutTwo(d, initial, c, d + DASHES + CRLF);
    assert PartBytes(p.(last := false), boundary) == initial + c;
  }

  lemma CutTwo(d: Bytes, initial: Bytes, c: Bytes, tail: Bytes)
    requires |d| >= 2 && (d + CRLF)[2..] == initial
    ensures (d + CRLF + c + tail)[2..] == initial + c + tail
  {
  }

  /** With clean flags, encoding gives the form. */
  lemma CleanFlagsGiveForm(ps: seq<Part>, boundary: Bytes)
    requires CleanFlags(ps)
    ensures FlaggedBytes(Flagged(ps), boundary) == FormBytes(Contents(ps), boundary)
  {
    hide PartBytes, Delimiter, Content;
    if ps != [] {
      var fs := Flagged(ps);
      assert Content(fs[0]) == Content(ps[0]) by { SameContent(fs[0], ps[0]); }
      assert Contents(ps)[1..] == Contents(fs[1..]) by { SameContents(ps, fs); }
      if |ps| == 1 {
        assert Contents(ps)[1..] == [] && fs[1..] == [];
        assert Framed([], boundary) == Delimiter(boundary) + DASHES + CRLF;
        assert fs[0] == fs[0].(last := true);
        FirstFramed(fs[0], boundary, []);
        assert PartBytes(fs[0], boundary) + [] == PartBytes(fs[0], boundary);
      } else {
        TailFramed(fs[1..], boundary);
        assert fs[0] == fs[0].(last := false);
        FirstFramed(fs[0], boundary, FlaggedBytes(fs[1..], boundary));
      }
    }
  }

  lemma SameContent(p: Part, q: Part)
    requires p.headers == q.headers && p.body == q.body
    ensures Content(p) == Content(q)
  {
  }

  lemma SameContents(ps: seq<Part>, qs: seq<Part>)
    requires ps != [] && |ps| == |qs|
    requires forall i :: 0 <= i < |ps| ==> ps[i].headers == qs[i].headers && ps[i].body == qs[i].body
    ensures Contents(ps)[1..] == Contents(qs[1..])
  {
  }

  /** Unset last flags, which is what every part but the last should have. */
  function Unlast(ps: seq<Part>): (r: seq<Part>)
    ensures |r| == |ps|
  {
    seq(|ps|, i requires 0 <= i < |ps| => ps[i].(last := ps[i].last && i == |ps| - 1))
  }

  /** A stale last flag makes the output longer. */
  lemma {:induction false} StaleLonger(ps: seq<Part>, boundary: Bytes)
    ensures |FlaggedBytes(ps, boundary)| >= |FlaggedBytes(Unlast(ps), boundary)|
    ensures |FlaggedBytes(ps, boundary)| == |FlaggedBytes(Unlast(ps), boundary)|
       <==> forall i :: 0 <= i < |ps| - 1 ==> !ps[i].last
  {
    if ps != [] {
      assert Unlast(ps)[1..] == Unlast(ps[1..]);
      StaleLonger(ps[1..], boundary);
      var tail := ps[1..];
      if |ps| > 1 && !ps[0].last {
        if forall i :: 0 <= i < |tail| - 1 ==> !tail[i].last {
          forall i | 0 <= i < |ps| - 1
            ensures !ps[i].last
          {
            if i > 0 { assert !tail[i - 1].last; }
          }
        } else {
          var i :| 0 <= i < |tail| - 1 && tail[i].last;
          assert ps[i + 1].last;
        }
      }
    }
  }

  /** Flags that are set from before give a form if and only if none of them marks a part before the last as the last. */
  lemma StaleFlags(ps: seq<Part>, boundary: Bytes)
    requires forall i :: 0 <= i < |ps| && ps[i].first ==> i == 0
    ensures FlaggedBytes(Flagged(ps), boundary) == FormBytes(Contents(ps), boundary)
       <==> forall i :: 0 <= i < |ps| - 1 ==> !ps[i].last
  {
    hide FlaggedBytes, FormBytes, PartBytes, HeaderBytes;
    var fs := Flagged(ps);
    StaleLonger(fs, boundary);
    CleanFlagsGiveForm(Unlast(ps), boundary);
    assert Contents(Unlast(ps)) == Contents(ps);
    assert Flagged(Unlast(ps)) == Unlast(fs);
    forall i | 0 <= i < |ps| - 1
      ensures fs[i].last == ps[i].last
    {
    }
    if forall i :: 0 <= i < |ps| - 1 ==> !ps[i].last {
      CleanFlagsGiveForm(ps, boundary);
    }
  }

  predicate Unmarked(ps: seq<Part>) {
    forall i :: 0 <= i < |ps| ==> !ps[i].first && !ps[i].last
  }

  /** What is left of the parts once their streams have been read. */
  function Drained(ps: seq<Part>): (r: seq<Part>)
    ensures |r| == |ps|
  {
    seq(|ps|, i requires 0 <= i < |ps| => ps[i].(body := []))
  }

  /**
   Flags are never cleared and streams are read once, so encoding the parts ps, appending parts qs and
   encoding again gives a form of what is left if and only if nothing was appended.
   */
  lemma EncodedAgain(ps: seq<Part>, qs: seq<Part>, boundary: Bytes)
    requires Unmarked(ps) && Unmarked(qs)
    ensures var again := Drained(Flagged(ps)) + qs;
            FlaggedBytes(Flagged(again), boundary) == FormBytes(Contents(again), boundary) <==> ps == [] || qs == []
  {
    var again := Drained(Flagged(ps)) + qs;
    forall i | 0 <= i < |again|
      ensures again[i].first <==> ps != [] && i == 0
      ensures again[i].last <==> ps != [] && i == |ps| - 1
    {
      assert again[i] == if i < |ps| then Flagged(ps)[i].(body := []) else qs[i - |ps|];
    }
    StaleFlags(again, boundary);
    if ps != [] && qs != [] {
      assert again[|ps| - 1].last;
    }
  }

  lemma {:induction false} DrainedShorter(ps: seq<Part>, boundary: Bytes)
    ensures |FlaggedBytes(Drained(ps), boundary)| <= |FlaggedBytes(ps, boundary)|
    ensures FlaggedBytes(Drained(ps), boundary) == FlaggedBytes(ps, boundary) <==> Bodiless(ps)
    ensures |FlaggedBytes(Drained(ps), boundary)| == |FlaggedBytes(ps, boundary)| <==> Bodiless(ps)
  {
    hide HeaderBytes, BoundaryData;
    if ps != [] {
      var tail := ps[1..];
      assert Drained(ps)[1..] == Drained(tail);
      DrainedShorter(tail, boundary);
      if forall i :: 0 <= i < |ps| ==> ps[i].body == [] {
        assert Drained(ps) == ps;
      } else {
        assert ps[0].body != [] || exists i :: 0 <= i < |tail| && tail[i].body != [];
      }
    }
  }

  predicate Bodiless(ps: seq<Part>) {
    forall i :: 0 <= i < |ps| ==> ps[i].body == []
  }

  lemma SecondForm(ps: seq<Part>, boundary: Bytes)
    requires Unmarked(ps)
    ensures FlaggedBytes(Flagged(ps), boundary) == FormBytes(Contents(ps), boundary)
    ensures FlaggedBytes(Flagged(Drained(Flagged(ps))), boundary) == FormBytes(Contents(Drained(ps)), boundary)
    ensures FormBytes(Contents(ps), boundary) == FormBytes(Contents(Drained(ps)), boundary) <==> Bodiless(ps)
  {
    var fs := Flagged(ps);
    assert Drained(fs) + [] == Drained(fs);
    assert Contents(Drained(fs)) == Contents(Drained(ps));
    assert Flagged(Drained(fs)) == Drained(fs);
    assert Bodiless(ps) <==> Bodiless(fs) by {
      assert forall i :: 0 <= i < |ps| ==> fs[i].body == ps[i].body;
    }
    hide FlaggedBytes, FormBytes, Flagged, Drained, Contents;
    CleanFlagsGiveForm(ps, boundary);
    EncodedAgain(ps, [], boundary);
    DrainedShorter(fs, boundary);
  }

  lemma SpoiltForm(ps: seq<Part>, q: Part, boundary: Bytes)
    requires Unmarked(ps + [q]) && ps != []
    ensures FlaggedBytes(Flagged(ps), boundary) == FormBytes(Contents(ps), boundary)
    ensures FlaggedBytes(Flagged(Drained(Flagged(ps)) + [q]), boundary) != FormBytes(Contents(Drained(ps) + [q]), boundary)
  {
    assert Unmarked(ps) by { assert forall i :: 0 <= i < |ps| ==> (ps + [q])[i] == ps[i]; }
    assert Unmarked([q]) by { assert (ps + [q])[|ps|] == q; }
    assert Contents(Drained(Flagged(ps)) + [q]) == Contents(Drained(ps) + [q]);
    hide FlaggedBytes, FormBytes, Flagged, Drained, Contents;
    CleanFlagsGiveForm(ps, boundary);
    EncodedAgain(ps, [q], boundary);
  }

  // ----- taking a form apart -----

  /** d occurs in s at position i. */
  predicate OccursAt(d: Bytes, s: Bytes, i: nat) {
    i + |d| <= |s| && s[i..i + |d|] == d
  }

  predicate Occurs(d: Bytes, s: Bytes) {
    exists i :: 0 <= i <= |s| && OccursAt(d, s, i)
  }

  /** The first occurrence of d in s at or after i. */
  function FindFirst(d: Bytes, s: Bytes, i: nat): (r: Option<nat>)
    requires i <= |s|
    ensures r.Some? ==> i <= r.value <= |s| && OccursAt(d, s, r.value)
    ensures r.Some? ==> forall k :: i <= k < r.value ==> !OccursAt(d, s, k)
    ensures r.None? ==> forall k :: i <= k <= |s| ==> !OccursAt(d, s, k)
    decreases |s| - i
  {
    if OccursAt(d, s, i) then Some(i)
    else if i == |s| then None
    else FindFirst(d, s, i + 1)
  }

  /** The stretches between the occurrences of d, read from left to right. */
  function Split(d: Bytes, s: Bytes): (r: seq<Bytes>)
    requires d != []
    ensures |r| >= 1
    decreases |s|
  {
    match FindFirst(d, s, 0)
    case None => [s]
    case Some(i) => [s[..i]] + Split(d, s[i + |d|..])
  }

  /** Nothing before the first occurrence holds one. */
  lemma BeforeFirst(d: Bytes, s: Bytes, i: nat)
    requires i <= |s| && forall k :: 0 <= k < i ==> !OccursAt(d, s, k)
    requires d != []
    ensures !Occurs(d, s[..i])
  {
    forall j | 0 <= j <= i
      ensures !OccursAt(d, s[..i], j)
    {
      if OccursAt(d, s[..i], j) {
        assert s[..i][j..j + |d|] == s[j..j + |d|];
        assert OccursAt(d, s, j);
      }
    }
  }

  lemma {:induction false} StretchesAreFree(d: Bytes, s: Bytes, k: nat)
    requires d != [] && k < |Split(d, s)|
    ensures !Occurs(d, Split(d, s)[k])
    decreases |s|
  {
    hide Occurs;
    match FindFirst(d, s, 0)
    case None =>
      NowhereFree(d, s);
    case Some(i) =>
      if k > 0 {
        StretchesAreFree(d, s[i + |d|..], k - 1);
      } else {
        BeforeFirst(d, s, i);
      }
  }

  lemma NowhereFree(d: Bytes, s: Bytes)
    requires FindFirst(d, s, 0).None?
    ensures !Occurs(d, s)
  {
  }

  /** A delimiter line has to end in a line break, and the closing delimiter has to come last. */
  function Unframe(boundary: Bytes, form: Bytes): Option<seq<Bytes>> {
    var pieces := Split(Delimiter(boundary), [13, 10] + form);
    var last := |pieces| - 1;
    if last == 0 || pieces[0] != [] || pieces[last] != [45, 45, 13, 10] then None
    else
      var lines := pieces[1..last];
      if forall i :: 0 <= i < |lines| ==> [13, 10] <= lines[i]
      then Some(seq(|lines|, i requires 0 <= i < |lines| => lines[i][2..]))
      else None
  }

  /** The only line break in the delimiter is at its start, so no occurrence straddles the next one. */
  lemma FirstDelimiter(boundary: Bytes, x: Bytes, rest: Bytes)
    requires 13 !in boundary && !Occurs(Delimiter(boundary), x)
    ensures FindFirst(Delimiter(boundary), x + Delimiter(boundary) + rest, 0) == Some(|x|)
  {
    var d := Delimiter(boundary);
    var s := x + d + rest;
    assert OccursAt(d, s, |x|);
    forall k | 0 <= k < |x|
      ensures !OccursAt(d, s, k)
    {
      if k + |d| <= |x| {
        assert x[k..k + |d|] == s[k..k + |d|];
        assert !OccursAt(d, x, k);
      } else {
        var j := |x| - k;
        assert s[|x|] == 13;
        assert d[j] == if j == 1 then 10 else if j < 4 then 45 else boundary[j - 4];
      }
    }
  }

  lemma SplitStep(boundary: Bytes, x: Bytes, rest: Bytes)
    requires 13 !in boundary && !Occurs(Delimiter(boundary), x)
    ensures Split(Delimiter(boundary), x + Delimiter(boundary) + rest) == [x] + Split(Delimiter(boundary), rest)
  {
    var d := Delimiter(boundary);
    FirstDelimiter(boundary, x, rest);
    assert (x + d + rest)[..|x|] == x;
    assert (x + d + rest)[|x| + |d|..] == rest;
  }

  /** The line break of a delimiter line, and the content after it. */
  function Lines(contents: seq<Bytes>): (r: seq<Bytes>)
    ensures |r| == |contents|
  {
    seq(|contents|, i requires 0 <= i < |contents| => CRLF + contents[i])
  }

  lemma ClosingIsFree(boundary: Bytes)
    ensures Split(Delimiter(boundary), DASHES + CRLF) == [DASHES + CRLF]
  {
    var d, s := Delimiter(boundary), DASHES + CRLF;
    assert |d| >= 4 && d[0] == 13 && s[0] == 45;
    forall k | 0 <= k <= |s|
      ensures !OccursAt(d, s, k)
    {
    }
  }

  /** Splitting the framed contents, from a stretch x on. */
  lemma {:induction false} SplitFramed(boundary: Bytes, x: Bytes, contents: seq<Bytes>)
    requires 13 !in boundary && !Occurs(Delimiter(boundary), x)
    requires forall i :: 0 <= i < |contents| ==> !Occurs(Delimiter(boundary), CRLF + contents[i])
    ensures Split(Delimiter(boundary), x + Framed(contents, boundary)) == [x] + Lines(contents) + [DASHES + CRLF]
    decreases contents
  {
    hide Split, Delimiter;
    var d := Delimiter(boundary);
    if contents == [] {
      assert x + Framed(contents, boundary) == x + d + (DASHES + CRLF);
      SplitStep(boundary, x, DASHES + CRLF);
      ClosingIsFree(boundary);
      assert [x] + Lines(contents) + [DASHES + CRLF] == [x] + [DASHES + CRLF];
    } else {
      var line, rest := CRLF + contents[0], Framed(contents[1..], boundary);
      assert x + Framed(contents, boundary) == x + d + (line + rest);
      SplitStep(boundary, x, line + rest);
      SplitFramed(boundary, line, contents[1..]);
      assert Lines(contents) == [line] + Lines(contents[1..]);
    }
  }

  lemma FramedStart(contents: seq<Bytes>, boundary: Bytes)
    ensures |Framed(contents, boundary)| >= 2 && CRLF + Framed(contents, boundary)[2..] == Framed(contents, boundary)
  {
  }

  /**
   A form of at least one part can be taken apart into exactly its contents, in order, if and only
   if no part contains the delimiter; the line break before the content counts as part of it.
   */
  lemma FramingUndone(contents: seq<Bytes>, boundary: Bytes)
    requires contents != [] && 13 !in boundary
    ensures Unframe(boundary, FormBytes(contents, boundary)) == Some(contents)
       <==> forall i :: 0 <= i < |contents| ==> !Occurs(Delimiter(boundary), CRLF + contents[i])
  {
    hide Split, Delimiter, Framed, Occurs;
    if forall i :: 0 <= i < |contents| ==> !Occurs(Delimiter(boundary), CRLF + contents[i]) {
      UnframeFree(contents, boundary);
    } else if Unframe(boundary, FormBytes(contents, boundary)) == Some(contents) {
      UnframedAreFree(contents, boundary);
    }
  }

  lemma UnframeFree(contents: seq<Bytes>, boundary: Bytes)
    requires contents != [] && 13 !in boundary
    requires forall i :: 0 <= i < |contents| ==> !Occurs(Delimiter(boundary), CRLF + contents[i])
    ensures Unframe(boundary, FormBytes(contents, boundary)) == Some(contents)
  {
    hide Split, Delimiter, Framed, Occurs;
    NothingFree(boundary);
    SplitFramed(boundary, [], contents);
    FramedStart(contents, boundary);
    assert [] + Framed(contents, boundary) == Framed(contents, boundary);
    var pieces := [[]] + Lines(contents) + [DASHES + CRLF];
    var lines := pieces[1..|pieces| - 1];
    assert lines == Lines(contents);
    assert seq(|lines|, i requires 0 <= i < |lines| => lines[i][2..]) == contents;
  }

  lemma UnframedAreFree(contents: seq<Bytes>, boundary: Bytes)
    requires Unframe(boundary, FormBytes(contents, boundary)) == Some(contents)
    ensures forall i :: 0 <= i < |contents| ==> !Occurs(Delimiter(boundary), CRLF + contents[i])
  {
    hide Split, Framed, Occurs, FormBytes;
    var form := FormBytes(contents, boundary);
    var pieces := Split(Delimiter(boundary), CRLF + form);
    var lines := pieces[1..|pieces| - 1];
    forall i | 0 <= i < |contents|
      ensures !Occurs(Delimiter(boundary), CRLF + contents[i])
    {
      assert contents[i] == lines[i][2..];
      assert pieces[i + 1] == CRLF + contents[i];
      StretchesAreFree(Delimiter(boundary), CRLF + form, i + 1);
    }
  }

  lemma NothingFree(boundary: Bytes)
    ensures !Occurs(Delimiter(boundary), [])
  {
  }

  // ----- streams -----

  /** An input stream: it hands out its data in pieces of its own choosing. */
  class InputStream {
    const data: Bytes
    var pos: nat

    ghost predicate Valid()
      reads this
    {
      pos <= |data|
    }

    constructor (content: Bytes)
      ensures data == content && pos == 0 && Valid()
    {
      data, pos := content, 0;
    }

    /** May also say yes at the end of the data; the next read then finds nothing. */
    method HasBytesAvailable() returns (b: bool)
      requires Valid()
      ensures pos < |data| ==> b
    {
      b :| pos < |data| ==> b;
    }

    /** Any number of bytes up to max, and none only at the end of the data. */
    method Read(max: nat) returns (piece: Bytes)
      requires Valid() && max > 0
      modifies this
      ensures Valid() && |piece| <= max
      ensures piece == [] <==> old(pos) == |data|
      ensures pos == old(pos) + |piece| && piece == data[old(pos)..pos]
    {
      var n: nat :| n <= max && pos + n <= |data| && (n == 0 <==> pos == |data|) by {
        var k := if pos == |data| then 0 else 1;
        assert k <= max && pos + k <= |data| && (k == 0 <==> pos == |data|);
      }
      piece := data[pos..pos + n];
      pos := pos + n;
    }
  }

  /** An output stream that always has space, but takes as little as one byte at a time. */
  class OutputStream {
    var written: Bytes

    constructor ()
      ensures written == []
    {
      written := [];
    }

    method Write(buffer: Bytes, max: nat) returns (n: nat)
      requires 0 < max <= |buffer|
      modifies this
      ensures 0 < n <= max
      ensures written == old(written) + buffer[..n]
    {
      n :| 0 < n <= max;
      written := written + buffer[..n];
    }
  }

  const STREAM_BUFFER_SIZE := 1024

  /** A body part with its stream and its flags, which are never cleared. Its body is what is left in the stream. */
  class BodyPart {
    const headers: seq<Header>
    const bodyStream: InputStream
    var hasInitialBoundary: bool
    var hasFinalBoundary: bool

    constructor (headers: seq<Header>, stream: InputStream)
      ensures this.headers == headers && bodyStream == stream && !hasInitialBoundary && !hasFinalBoundary
    {
      this.headers, bodyStream, hasInitialBoundary, hasFinalBoundary := headers, stream, false, false;
    }

    ghost function Now(): Part
      requires bodyStream.Valid()
      reads this, bodyStream
    {
      Part(headers, bodyStream.data[bodyStream.pos..], hasInitialBoundary, hasFinalBoundary)
    }
  }

  class FormData {
    const boundary: Bytes
    var bodyParts: seq<BodyPart>

    ghost function Streams(): set<InputStream>
      reads `bodyParts
    {
      set p | p in bodyParts :: p.bodyStream
    }

    /** Parts and streams are all different. The streams may have been read, in part or in full. */
    ghost predicate Valid()
      reads this, bodyParts, Streams()
    {
      && (forall i, j :: 0 <= i < j < |bodyParts| ==>
            bodyParts[i] != bodyParts[j] && bodyParts[i].bodyStream != bodyParts[j].bodyStream)
      && (forall i :: 0 <= i < |bodyParts| ==> bodyParts[i].bodyStream.Valid())
    }

    ghost function Parts(): (r: seq<Part>)
      requires Valid()
      reads this, bodyParts, Streams()
      ensures |r| == |bodyParts|
    {
      seq(|bodyParts|, i requires 0 <= i < |bodyParts| && Valid() reads this, bodyParts, Streams() => bodyParts[i].Now())
    }

    constructor (boundary: Bytes)
      ensures this.boundary == boundary && bodyParts == [] && Valid()
    {
      this.boundary, bodyParts := boundary, [];
    }

    method Append(stream: InputStream, headers: seq<Header>)
      requires Valid() && stream.Valid() && forall p :: p in bodyParts ==> p.bodyStream != stream
      modifies this
      ensures Valid() && Parts() == old(Parts()) + [Part(headers, stream.data[stream.pos..], false, false)]
      ensures fresh(bodyParts[|bodyParts| - 1]) && bodyParts[..|bodyParts| - 1] == old(bodyParts)
      ensures Streams() == old(Streams()) + {stream}
    {
      var p := new BodyPart(headers, stream);
      bodyParts := bodyParts + [p];
      assert Parts()[..|bodyParts| - 1] == old(Parts());
    }

    /** Marks the first and the last part; the marks stay. */
    method MarkEnds()
      requires Valid()
      modifies bodyParts
      ensures Valid() && Parts() == Flagged(old(Parts()))
    {
      if |bodyParts| > 0 {
        bodyParts[0].hasInitialBoundary := true;
        bodyParts[|bodyParts| - 1].hasFinalBoundary := true;
      }
    }

    /** The first i parts of ps have been written, and their streams are at the end. */
    ghost predicate Progress(ps: seq<Part>, i: nat)
      reads this, bodyParts, Streams()
    {
      && Valid() && i <= |ps| == |bodyParts|
      && forall k :: 0 <= k < |ps| ==> bodyParts[k].Now() == if k < i then ps[k].(body := []) else ps[k]
    }

    method EncodeNext(ghost ps: seq<Part>, i: nat) returns (encoded: Bytes)
      requires i < |bodyParts| && Progress(ps, i)
      modifies bodyParts[i].bodyStream
      ensures Progress(ps, i + 1) && encoded == PartBytes(ps[i], boundary)
    {
      hide PartBytes;
      encoded := EncodePart(bodyParts[i], boundary);
    }

    method WriteNext(ghost ps: seq<Part>, i: nat, output: OutputStream)
      requires i < |bodyParts| && Progress(ps, i)
      modifies bodyParts[i].bodyStream, output
      ensures Progress(ps, i + 1) && output.written == old(output.written) + PartBytes(ps[i], boundary)
    {
      hide PartBytes;
      WritePart(bodyParts[i], output, boundary);
    }

    /** Marks the ends, and starts over. */
    method Begin() returns (ghost ps: seq<Part>)
      requires Valid()
      modifies bodyParts
      ensures ps == Flagged(old(Parts())) && Progress(ps, 0)
    {
      hide Flagged;
      MarkEnds();
      ps := Parts();
    }

    method EncodeAll(ghost ps: seq<Part>) returns (encoded: Bytes)
      requires Progress(ps, 0)
      modifies Streams()
      ensures encoded == FlaggedBytes(ps, boundary)
      ensures Progress(ps, |bodyParts|)
    {
      encoded := [];
      FlaggedNothing(boundary);
      hide *;
      PartsCounted(ps, 0);
      for i := 0 to |bodyParts|
        invariant Progress(ps, i) && i <= |ps|
        invariant encoded == FlaggedBytes(ps[..i], boundary)
      {
        PartsCounted(ps, i);
        var part := EncodeNext(ps, i);
        FlaggedSnoc(ps[..i], ps[i], boundary);
        assert ps[..i + 1] == ps[..i] + [ps[i]];
        encoded := encoded + part;
      }
      PartsCounted(ps, |bodyParts|);
      assert ps[..|ps|] == ps;
    }

    method WriteAll(ghost ps: seq<Part>, output: OutputStream)
      requires Progress(ps, 0)
      modifies Streams(), output
      ensures output.written == old(output.written) + FlaggedBytes(ps, boundary)
      ensures Progress(ps, |bodyParts|)
    {
      ghost var before := output.written;
      NothingWritten(before, ps, boundary);
      hide *;
      PartsCounted(ps, 0);
      for i := 0 to |bodyParts|
        invariant Progress(ps, i) && i <= |ps| && Written(before, output.written, ps, i, boundary)
      {
        PartsCounted(ps, i);
        ghost var now := output.written;
        WriteNext(ps, i, output);
        OneMoreWritten(before, now, output.written, ps, i, boundary);
      }
      PartsCounted(ps, |bodyParts|);
      AllWritten(before, output.written, ps, boundary);
    }

    /** The form in memory. The streams have been read when it returns. */
    method Encode() returns (encoded: Bytes)
      requires Valid()
      modifies bodyParts, Streams()
      ensures encoded == FlaggedBytes(Flagged(old(Parts())), boundary)
      ensures Valid() && Parts() == Drained(Flagged(old(Parts())))
    {
      hide *;
      ghost var ps := Begin();
      encoded := EncodeAll(ps);
      AllRead(ps);
    }

    /** The form written to a stream, part by part and piece by piece. */
    method WriteEncodedData(output: OutputStream)
      requires Valid()
      modifies bodyParts, Streams(), output
      ensures output.written == old(output.written) + FlaggedBytes(Flagged(old(Parts())), boundary)
      ensures Valid() && Parts() == Drained(Flagged(old(Parts())))
    {
      hide *;
      ghost var ps := Begin();
      WriteAll(ps, output);
      AllRead(ps);
    }

    lemma PartsCounted(ps: seq<Part>, i: nat)
      requires Progress(ps, i)
      ensures |ps| == |bodyParts|
      ensures forall p :: p in bodyParts ==> p.bodyStream in Streams()
    {
    }

    lemma AllRead(ps: seq<Part>)
      requires Progress(ps, |bodyParts|)
      ensures Valid() && |ps| == |bodyParts| && Parts() == Drained(ps)
    {
    }
  }

  /** After what was there before, the first i parts. */
  ghost predicate Written(before: Bytes, now: Bytes, ps: seq<Part>, i: nat, boundary: Bytes) {
    i <= |ps| && now == before + FlaggedBytes(ps[..i], boundary)
  }

  lemma NothingWritten(before: Bytes, ps: seq<Part>, boundary: Bytes)
    ensures Written(before, before, ps, 0, boundary)
  {
  }

  lemma OneMoreWritten(before: Bytes, now: Bytes, next: Bytes, ps: seq<Part>, i: nat, boundary: Bytes)
    requires Written(before, now, ps, i, boundary) && i < |ps| && next == now + PartBytes(ps[i], boundary)
    ensures Written(before, next, ps, i + 1, boundary)
  {
    hide FlaggedBytes, PartBytes;
    FlaggedSnoc(ps[..i], ps[i], boundary);
    assert ps[..i + 1] == ps[..i] + [ps[i]];
  }

  lemma AllWritten(before: Bytes, now: Bytes, ps: seq<Part>, boundary: Bytes)
    requires Written(before, now, ps, |ps|, boundary)
    ensures now == before + FlaggedBytes(ps, boundary)
  {
    assert ps[..|ps|] == ps;
  }

  // ----- encoding twice -----

  /**
   The second call finds the streams at their end: it gives the form without the bodies, which is the
   first form only if there were none.
   */
  method EncodeTwice(form: FormData) returns (first: Bytes, second: Bytes)
    requires form.Valid() && Unmarked(form.Parts())
    modifies form.bodyParts, form.Streams()
    ensures first == FormBytes(Contents(old(form.Parts())), form.boundary)
    ensures second == FormBytes(Contents(Drained(old(form.Parts()))), form.boundary)
    ensures first == second <==> Bodiless(old(form.Parts()))
  {
    hide *;
    ghost var ps := form.Parts();
    first := form.Encode();
    second := form.Encode();
    SecondForm(ps, form.boundary);
  }

  method AppendAndEncode(form: FormData, stream: InputStream, headers: seq<Header>) returns (encoded: Bytes)
    requires form.Valid() && stream.Valid() && forall p :: p in form.bodyParts ==> p.bodyStream != stream
    modifies form, form.bodyParts, form.Streams(), stream
    ensures var q := Part(headers, stream.data[old(stream.pos)..], false, false);
            encoded == FlaggedBytes(Flagged(old(form.Parts()) + [q]), form.boundary)
  {
    hide FlaggedBytes, Flagged;
    form.Append(stream, headers);
    encoded := form.Encode();
  }

  /** After a part has been appended, the second call does not even give a form of what is left. */
  method EncodeAppendEncode(form: FormData, stream: InputStream, headers: seq<Header>) returns (first: Bytes, second: Bytes)
    requires form.Valid() && Unmarked(form.Parts()) && form.Parts() != []
    requires stream.Valid() && forall p :: p in form.bodyParts ==> p.bodyStream != stream
    modifies form, form.bodyParts, form.Streams(), stream
    ensures first == FormBytes(Contents(old(form.Parts())), form.boundary)
    ensures var q := Part(headers, stream.data[old(stream.pos)..], false, false);
            second != FormBytes(Contents(Drained(old(form.Parts())) + [q]), form.boundary)
  {
    ghost var ps, q := form.Parts(), Part(headers, stream.data[stream.pos..], false, false);
    assert Unmarked(ps + [q]) && ps != [];
    assert stream !in form.Streams();
    hide *;
    first := form.Encode();
    second := AppendAndEncode(form, stream, headers);
    SpoiltForm(ps, q, form.boundary);
  }

  lemma FlaggedNothing(boundary: Bytes)
    ensures forall ps: seq<Part> :: ps == [] ==> FlaggedBytes(ps, boundary) == []
  {
  }

  lemma {:induction false} FlaggedSnoc(ps: seq<Part>, p: Part, boundary: Bytes)
    ensures FlaggedBytes(ps + [p], boundary) == FlaggedBytes(ps, boundary) + PartBytes(p, boundary)
  {
    hide PartBytes;
    if ps == [] {
      assert [] + [p] == [p] && [p][1..] == [];
    } else {
      assert (ps + [p])[1..] == ps[1..] + [p];
      FlaggedSnoc(ps[1..], p, boundary);
    }
  }

  // ----- in memory -----

  method EncodeBodyStream(stream: InputStream) returns (encoded: Bytes)
    requires stream.Valid()
    modifies stream
    ensures encoded == old(stream.data[stream.pos..]) && stream.pos == |stream.data|
  {
    ghost var start := stream.pos;
    encoded := [];
    var available := stream.HasBytesAvailable();
    while available
      invariant stream.Valid() && start <= stream.pos && encoded == stream.data[start..stream.pos]
      invariant !available ==> stream.pos == |stream.data|
      decreases |stream.data| - stream.pos, available
    {
      var piece := stream.Read(STREAM_BUFFER_SIZE);
      if |piece| == 0 {
        break;
      }
      encoded := encoded + piece;
      available := stream.HasBytesAvailable();
    }
  }

  /** Header lines one after the other, then an empty line. */
  method EncodeHeaders(headers: seq<Header>) returns (text: Bytes)
    ensures text == HeaderBytes(headers)
  {
    text := [];
    for i := 0 to |headers|
      invariant text + HeaderBytes(headers[i..]) == HeaderBytes(headers)
    {
      var h := headers[i];
      assert headers[i..][1..] == headers[i + 1..];
      text := text + (h.key + [58, 32] + h.value + CRLF);
    }
    text := text + CRLF;
  }

  method EncodePart(part: BodyPart, boundary: Bytes) returns (encoded: Bytes)
    requires part.bodyStream.Valid()
    modifies part.bodyStream
    ensures encoded == PartBytes(old(part.Now()), boundary)
    ensures part.bodyStream.pos == |part.bodyStream.data|
  {
    hide HeaderBytes, BoundaryData;
    var initialData := BoundaryData(if part.hasInitialBoundary then InitialBoundary else Encapsulated, boundary);
    var headerData := EncodeHeaders(part.headers);
    var body := EncodeBodyStream(part.bodyStream);
    encoded := initialData + headerData + body;
    assert encoded == initialData + (headerData + body);
    if part.hasFinalBoundary {
      encoded := encoded + BoundaryData(FinalBoundary, boundary);
    }
  }

  // ----- to a stream -----

  /** Offers the rest of the buffer until all of it has been taken. */
  method WriteBuffer(data: Bytes, output: OutputStream)
    modifies output
    ensures output.written == old(output.written) + data
  {
    var buffer, bytesToWrite: nat := data, |data|;
    while bytesToWrite > 0
      invariant bytesToWrite <= |buffer|
      invariant bytesToWrite > 0 ==> |buffer| == bytesToWrite && output.written + buffer == old(output.written) + data
      invariant bytesToWrite == 0 ==> output.written == old(output.written) + data
    {
      ghost var before := output.written;
      var bytesWritten := output.Write(buffer, bytesToWrite);
      assert buffer == buffer[..bytesWritten] + buffer[bytesWritten..];
      assert before + buffer[..bytesWritten] + buffer[bytesWritten..] == before + buffer;
      bytesToWrite := bytesToWrite - bytesWritten;
      if bytesToWrite > 0 {
        buffer := buffer[bytesWritten..];
      }
    }
  }

  method WriteBodyStream(stream: InputStream, output: OutputStream)
    requires stream.Valid()
    modifies stream, output
    ensures output.written == old(output.written) + old(stream.data[stream.pos..])
    ensures stream.pos == |stream.data|
  {
    ghost var start, before := stream.pos, output.written;
    var available := stream.HasBytesAvailable();
    while available
      invariant stream.Valid() && start <= stream.pos && output.written == before + stream.data[start..stream.pos]
      invariant !available ==> stream.pos == |stream.data|
      decreases |stream.data| - stream.pos, available
    {
      ghost var from := stream.pos;
      var piece := stream.Read(STREAM_BUFFER_SIZE);
      if |piece| == 0 {
        break;
      }
      WriteBuffer(piece, output);
      assert stream.data[start..stream.pos] == stream.data[start..from] + piece;
      available := stream.HasBytesAvailable();
    }
  }

  method WritePart(part: BodyPart, output: OutputStream, boundary: Bytes)
    requires part.bodyStream.Valid()
    modifies part.bodyStream, output
    ensures output.written == old(output.written) + PartBytes(old(part.Now()), boundary)
    ensures part.bodyStream.pos == |part.bodyStream.data|
  {
    hide HeaderBytes, BoundaryData;
    ghost var before := output.written;
    var initialData := BoundaryData(if part.hasInitialBoundary then InitialBoundary else Encapsulated, boundary);
    var headerData := EncodeHeaders(part.headers);
    WriteBuffer(initialData, output);
    WriteBuffer(headerData, output);
    WriteBodyStream(part.bodyStream, output);
    ghost var content := headerData + old(part.bodyStream.data[part.bodyStream.pos..]);
    assert output.written == before + (initialData + content);
    if part.hasFinalBoundary {
      WriteBuffer(BoundaryData(FinalBoundary, boundary), output);
      assert output.written == before + (initialData + content + BoundaryData(FinalBoundary, boundary));
    } else {
      assert initialData + content + [] == initialData + content;
    }
  }
}
