/** Reading a multipart form: each part taken apart into its headers and its body. */
module MultipartReader {
  import opened Outcomes
  import opened Multipart

  datatype Message = Message(headers: seq<Header>, body: Bytes)

  const LINE_BREAK: Bytes := [13, 10]
  const COLON_SPACE: Bytes := [58, 32]

  /**
   Header lines up to the first empty one, and the rest as it is, as section 2.1 of RFC 5322 lays a
   message out. A line is cut at the first colon with a space behind it.
   */
  function ReadMessage(s: Bytes): Option<Message>
    decreases |s|
  {
    match FindFirst(LINE_BREAK, s, 0)
    case None => None
    case Some(n) =>
      var rest := s[n + 2..];
      if n == 0 then Some(Message([], rest))
      else
        var colon, tail := FindFirst(COLON_SPACE, s[..n], 0), ReadMessage(rest);
        if colon.None? || tail.None? then None
        else
          var header := Header(s[..colon.value], s[colon.value + 2..n]);
          Some(tail.value.(headers := [header] + tail.value.headers))
  }

  /** No line break in the header, and no colon with a space behind it in its key. */
  predicate PlainHeader(h: Header) {
    !Occurs(LINE_BREAK, h.key) && !Occurs(LINE_BREAK, h.value) && !Occurs(COLON_SPACE, h.key)
  }

  predicate PlainHeaders(headers: seq<Header>) {
    forall i :: 0 <= i < |headers| ==> PlainHeader(headers[i])
  }

  /** A header line without its line break. */
  function Line(h: Header): Bytes {
    h.key + COLON_SPACE + h.value
  }

  lemma FoundAt(d: Bytes, s: Bytes, i: nat)
    requires OccursAt(d, s, i) && forall k :: 0 <= k < i ==> !OccursAt(d, s, k)
    ensures i <= |s| && FindFirst(d, s, 0) == Some(i)
  {
  }

  lemma OccursEarlier(d: Bytes, s: Bytes, x: Bytes, offset: nat, k: nat)
    requires OccursAt(d, x, k) && offset + |x| <= |s| && s[offset..offset + |x|] == x
    ensures OccursAt(d, s, offset + k)
  {
    forall j | 0 <= j < |d|
      ensures s[offset + k..offset + k + |d|][j] == d[j]
    {
      assert s[offset + k + j] == s[offset..offset + |x|][k + j] == x[k..k + |d|][j];
    }
  }

  /** The line ends at its own line break, and is cut behind its key, if and only if the header is plain. */
  lemma LineCut(h: Header, rest: Bytes)
    ensures var s := Line(h) + (LINE_BREAK + rest);
            PlainHeader(h) <==>
              && FindFirst(LINE_BREAK, s, 0) == Some(|Line(h)|)
              && FindFirst(COLON_SPACE, Line(h), 0) == Some(|h.key|)
  {
    var line := Line(h);
    var s := line + (LINE_BREAK + rest);
    assert OccursAt(LINE_BREAK, s, |line|) && OccursAt(COLON_SPACE, line, |h.key|);
    if PlainHeader(h) {
      forall k | 0 <= k < |line|
        ensures !OccursAt(LINE_BREAK, s, k)
      {
        NoBreakInLine(h, rest, k);
      }
      FoundAt(LINE_BREAK, s, |line|);
      forall k | 0 <= k < |h.key|
        ensures !OccursAt(COLON_SPACE, line, k)
      {
        if k + 2 <= |h.key| {
          assert line[k..k + 2] == h.key[k..k + 2];
          assert !OccursAt(COLON_SPACE, h.key, k);
        } else {
          assert line[k + 1] == 58;
          assert k + 2 <= |line| ==> line[k..k + 2][1] == line[k + 1];
        }
      }
      FoundAt(COLON_SPACE, line, |h.key|);
    } else if Occurs(LINE_BREAK, h.key) {
      var k :| 0 <= k <= |h.key| && OccursAt(LINE_BREAK, h.key, k);
      OccursEarlier(LINE_BREAK, s, h.key, 0, k);
    } else if Occurs(LINE_BREAK, h.value) {
      var k :| 0 <= k <= |h.value| && OccursAt(LINE_BREAK, h.value, k);
      assert s[|h.key| + 2..|h.key| + 2 + |h.value|] == h.value;
      OccursEarlier(LINE_BREAK, s, h.value, |h.key| + 2, k);
    } else {
      var k :| 0 <= k <= |h.key| && OccursAt(COLON_SPACE, h.key, k);
      OccursEarlier(COLON_SPACE, line, h.key, 0, k);
    }
  }

  lemma NoBreakInLine(h: Header, rest: Bytes, k: nat)
    requires PlainHeader(h) && k < |Line(h)|
    ensures !OccursAt(LINE_BREAK, Line(h) + (LINE_BREAK + rest), k)
  {
    var line := Line(h);
    var s := line + (LINE_BREAK + rest);
    var v := |h.key| + 2;
    assert s[|h.key|] == 58 && s[|h.key| + 1] == 32 && s[|line|] == 13;
    TwoBytes(LINE_BREAK, s, k);
    if k + 2 <= |h.key| {
      TwoBytes(LINE_BREAK, h.key, k);
      assert !OccursAt(LINE_BREAK, h.key, k);
    } else if v <= k && k + 2 <= |line| {
      TwoBytes(LINE_BREAK, h.value, k - v);
      assert !OccursAt(LINE_BREAK, h.value, k - v);
    }
  }

  lemma TwoBytes(d: Bytes, s: Bytes, k: nat)
    requires |d| == 2
    ensures OccursAt(d, s, k) <==> k + 2 <= |s| && s[k] == d[0] && s[k + 1] == d[1]
  {
    if k + 2 <= |s| {
      assert s[k..k + 2] == [s[k], s[k + 1]] && d == [d[0], d[1]];
    }
  }

  lemma HeaderStep(headers: seq<Header>, body: Bytes)
    requires headers != []
    ensures HeaderBytes(headers) + body == Line(headers[0]) + (LINE_BREAK + (HeaderBytes(headers[1..]) + body))
  {
    var h := headers[0];
    assert HeaderBytes(headers) == h.key + [58, 32] + h.value + CRLF + HeaderBytes(headers[1..]);
  }

  /** Reading loses nothing: what was read, written again, is the message. */
  lemma {:induction false} ReadIsWritten(s: Bytes)
    requires ReadMessage(s).Some?
    ensures HeaderBytes(ReadMessage(s).value.headers) + ReadMessage(s).value.body == s
    decreases |s|
  {
    hide Occurs, OccursAt;
    var m, n := ReadMessage(s).value, FindFirst(LINE_BREAK, s, 0).value;
    assert s == s[..n] + (LINE_BREAK + s[n + 2..]) by { CutAt(LINE_BREAK, s, n); }
    if n == 0 {
      assert s == LINE_BREAK + s[2..];
    } else {
      var c := FindFirst(COLON_SPACE, s[..n], 0).value;
      CutAt(COLON_SPACE, s[..n], c);
      assert s[..n][..c] == s[..c] && s[..n][c + 2..] == s[c + 2..n];
      assert s[..n] == s[..c] + (COLON_SPACE + s[c + 2..n]) == Line(m.headers[0]);
      ReadIsWritten(s[n + 2..]);
      assert m.headers[1..] == ReadMessage(s[n + 2..]).value.headers;
      HeaderStep(m.headers, m.body);
    }
  }

  lemma CutAt(d: Bytes, s: Bytes, i: nat)
    requires OccursAt(d, s, i) && |d| == 2
    ensures s == s[..i] + (d + s[i + 2..])
  {
  }

  /** A part can be taken apart into its headers and its body, whatever the body holds, if and only if its headers are plain. */
  lemma {:induction false} PartReadBack(headers: seq<Header>, body: Bytes)
    ensures ReadMessage(HeaderBytes(headers) + body) == Some(Message(headers, body)) <==> PlainHeaders(headers)
    decreases |headers|
  {
    hide Occurs, OccursAt, PlainHeader;
    var s := HeaderBytes(headers) + body;
    if headers == [] {
      assert s == LINE_BREAK + body && OccursAt(LINE_BREAK, s, 0) by { StartsWith(LINE_BREAK, s); }
      FoundAt(LINE_BREAK, s, 0);
      assert s[2..] == body;
    } else {
      var h, tail := headers[0], HeaderBytes(headers[1..]) + body;
      HeaderStep(headers, body);
      PartReadBack(headers[1..], body);
      PlainStep(headers);
      hide HeaderBytes, PlainHeaders;
      if PlainHeader(h) {
        HeaderRead(h, s, tail);
        assert [h] + headers[1..] == headers;
        if ReadMessage(s) == Some(Message(headers, body)) {
          assert ReadMessage(tail).value.headers == headers[1..];
        }
      } else if ReadMessage(s) == Some(Message(headers, body)) {
        OtherCut(h, s, tail);
      }
    }
  }

  lemma PlainStep(headers: seq<Header>)
    requires headers != []
    ensures PlainHeaders(headers) <==> PlainHeader(headers[0]) && PlainHeaders(headers[1..])
  {
    hide PlainHeader;
    if PlainHeader(headers[0]) && PlainHeaders(headers[1..]) {
      forall i | 0 <= i < |headers|
        ensures PlainHeader(headers[i])
      {
        if i > 0 { assert headers[i] == headers[1..][i - 1]; }
      }
    }
  }

  /** A plain header in front is read as it is, and then what follows. */
  lemma HeaderRead(h: Header, s: Bytes, tail: Bytes)
    requires PlainHeader(h) && s == Line(h) + (LINE_BREAK + tail)
    ensures ReadMessage(s)
         == match ReadMessage(tail)
            case None => None
            case Some(m) => Some(m.(headers := [h] + m.headers))
  {
    hide Occurs, OccursAt, PlainHeader;
    var line := Line(h);
    LineCut(h, tail);
    assert line == h.key + (COLON_SPACE + h.value);
    assert s[..|line|] == line && s[|line| + 2..] == tail;
    assert s[..|h.key|] == h.key && s[|h.key| + 2..|line|] == h.value;
  }

  lemma StartsWith(d: Bytes, s: Bytes)
    requires d <= s
    ensures OccursAt(d, s, 0)
  {
    assert s[0..|d|] == d;
  }

  /** What is read first tells where the line was cut. */
  lemma OtherCut(h: Header, s: Bytes, tail: Bytes)
    requires s == Line(h) + (LINE_BREAK + tail) && ReadMessage(s).Some?
    requires ReadMessage(s).value.headers != [] && ReadMessage(s).value.headers[0] == h
    ensures PlainHeader(h)
  {
    hide Occurs, PlainHeader;
    var n := FindFirst(LINE_BREAK, s, 0).value;
    var c := FindFirst(COLON_SPACE, s[..n], 0).value;
    assert h == Header(s[..c], s[c + 2..n]);
    assert |h.key| == c && |h.value| + c + 2 == n;
    assert n == |Line(h)| && s[..n] == Line(h);
    LineCut(h, tail);
  }

  // ----- the whole form -----

  function Messages(ps: seq<Part>): (r: seq<Message>)
    ensures |r| == |ps|
  {
    seq(|ps|, i requires 0 <= i < |ps| => Message(ps[i].headers, ps[i].body))
  }

  function ReadAll(contents: seq<Bytes>): (r: Option<seq<Message>>)
    ensures r.Some? ==> |r.value| == |contents|
  {
    if contents == [] then Some([])
    else
      var first, rest := ReadMessage(contents[0]), ReadAll(contents[1..]);
      if first.Some? && rest.Some? then Some([first.value] + rest.value) else None
  }

  /** A form taken apart at its delimiters, and each part into headers and body. */
  function ReadForm(boundary: Bytes, form: Bytes): Option<seq<Message>> {
    match Unframe(boundary, form)
    case None => None
    case Some(contents) => ReadAll(contents)
  }

  lemma {:induction false} ReadAllExact(ps: seq<Part>)
    ensures ReadAll(Contents(ps)) == Some(Messages(ps)) <==> forall i :: 0 <= i < |ps| ==> PlainHeaders(ps[i].headers)
  {
    hide ReadMessage, PlainHeaders, HeaderBytes;
    if ps != [] {
      assert Contents(ps)[1..] == Contents(ps[1..]) && Messages(ps)[1..] == Messages(ps[1..]);
      assert Messages(ps) == [Messages(ps)[0]] + Messages(ps[1..]);
      PartReadBack(ps[0].headers, ps[0].body);
      ReadAllExact(ps[1..]);
      assert (forall i :: 0 <= i < |ps| ==> PlainHeaders(ps[i].headers))
        <==> PlainHeaders(ps[0].headers) && forall i :: 0 <= i < |ps[1..]| ==> PlainHeaders(ps[1..][i].headers) by {
        FirstAndRest(ps);
      }
    }
  }

  lemma FirstAndRest(ps: seq<Part>)
    requires ps != []
    ensures (forall i :: 0 <= i < |ps| ==> PlainHeaders(ps[i].headers))
       <==> PlainHeaders(ps[0].headers) && forall i :: 0 <= i < |ps[1..]| ==> PlainHeaders(ps[1..][i].headers)
  {
    hide PlainHeaders;
    if PlainHeaders(ps[0].headers) && forall i :: 0 <= i < |ps[1..]| ==> PlainHeaders(ps[1..][i].headers) {
      forall i | 0 <= i < |ps|
        ensures PlainHeaders(ps[i].headers)
      {
        if i > 0 { assert ps[i] == ps[1..][i - 1]; }
      }
    }
  }

  lemma {:induction false} ReadAllDetermines(contents: seq<Bytes>, ps: seq<Part>)
    requires ReadAll(contents) == Some(Messages(ps))
    ensures contents == Contents(ps)
  {
    hide ReadMessage, HeaderBytes;
    assert |contents| == |ps|;
    if contents != [] {
      assert Contents(ps)[1..] == Contents(ps[1..]) && Messages(ps)[1..] == Messages(ps[1..]);
      ReadIsWritten(contents[0]);
      assert ReadMessage(contents[0]).value == Messages(ps)[0];
      assert ReadAll(contents[1..]).value == Messages(ps)[1..];
      ReadAllDetermines(contents[1..], ps[1..]);
      assert contents == [contents[0]] + contents[1..] && Contents(ps) == [Contents(ps)[0]] + Contents(ps[1..]);
    }
  }

  /**
   Reading an encoded form gives back the headers and the body of every part, in order, if and only if
   no part contains the delimiter and all headers are plain.
   */
  lemma FormReadBack(ps: seq<Part>, boundary: Bytes)
    requires ps != [] && CleanFlags(ps) && 13 !in boundary
    ensures ReadForm(boundary, FlaggedBytes(Flagged(ps), boundary)) == Some(Messages(ps))
       <==> && (forall i :: 0 <= i < |ps| ==> !Occurs(Delimiter(boundary), [13, 10] + Content(ps[i])))
            && forall i :: 0 <= i < |ps| ==> PlainHeaders(ps[i].headers)
  {
    hide Unframe, FlaggedBytes, FormBytes, Delimiter, Occurs, PlainHeaders, Content;
    CleanFlagsGiveForm(ps, boundary);
    FramingUndone(Contents(ps), boundary);
    ReadAllExact(ps);
    assert forall i :: 0 <= i < |ps| ==> Contents(ps)[i] == Content(ps[i]);
    assert CRLF == [13, 10];
    var contents := Unframe(boundary, FormBytes(Contents(ps), boundary));
    if contents.Some? && ReadAll(contents.value) == Some(Messages(ps)) {
      ReadAllDetermines(contents.value, ps);
    }
  }
}
