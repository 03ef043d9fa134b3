/** Fields that a descriptor table does not know are skipped without a trace. */
module Unknowns {
  import opened Bits
  import opened Outcomes
  import opened Varints
  import opened Descriptor
  import opened EncodeSpec
  import opened DecodeSpec
  import opened Prefix
  import opened Scalars
  import opened Chunks

  /**
   The bytes of one field that the table does not know: a key with another tag, then exactly what is
   skipped for its wire type. In an empty table the terminator answers to tag 0.
   */
  predicate ForeignField(fs: seq<Field>, u: seq<Byte>) {
    var k := ReadKey(u);
    && k.Key?
    && FindField(fs, k.tag) == None
    && !(fs == [] && k.tag == 0)
    && Skip(k.wt, u[k.n..]) == Some(|u| - k.n)
  }

  predicate Foreign(fs: seq<Field>, us: seq<seq<Byte>>) {
    forall i :: 0 <= i < |us| ==> ForeignField(fs, us[i])
  }

  function Flat(pieces: seq<seq<Byte>>): seq<Byte> {
    if pieces == [] then [] else pieces[0] + Flat(pieces[1..])
  }

  lemma ForeignSkipped(fs: seq<Field>, st: State, u: seq<Byte>, t: seq<Byte>)
    requires |st.msg| == |fs| && ForeignField(fs, u)
    ensures DecLoop(fs, st, u + t) == Shift(|u|, DecLoop(fs, st, t))
  {
    hide ReadKey, Skip, FindField, DecLoop;
    LoopStep(fs, st, u, t);
  }

  /** Any number of unknown fields. */
  lemma {:induction false} ForeignRunSkipped(fs: seq<Field>, st: State, us: seq<seq<Byte>>, t: seq<Byte>)
    requires |st.msg| == |fs| && Foreign(fs, us)
    ensures DecLoop(fs, st, Flat(us) + t) == Shift(|Flat(us)|, DecLoop(fs, st, t))
  {
    hide DecLoop, ForeignField;
    if us == [] {
      assert [] + t == t;
    } else {
      ForeignSkipped(fs, st, us[0], Flat(us[1..]) + t);
      assert Flat(us) + t == us[0] + (Flat(us[1..]) + t);
      ForeignRunSkipped(fs, st, us[1..], t);
    }
  }

  // ----- the fields that the wire format defines are such fields -----

  /** A field of the wire format, whatever it means. */
  datatype WireField =
    | WireVarint(tag: nat, digits: seq<Byte>)
    | Wire64(tag: nat, b: seq<Byte>)
    | WireBytes(tag: nat, b: seq<Byte>)
    | Wire32(tag: nat, b: seq<Byte>)

  function WireOf(u: WireField): nat {
    match u
    case WireVarint(_, _) => WT_VARINT
    case Wire64(_, _) => WT_64BIT
    case WireBytes(_, _) => WT_STRING
    case Wire32(_, _) => WT_32BIT
  }

  function Payload(u: WireField): seq<Byte> {
    match u
    case WireVarint(_, digits) => digits
    case Wire64(_, b) => b
    case WireBytes(_, b) => LenPrefixed(b)
    case Wire32(_, b) => b
  }

  predicate WellFormed(u: WireField) {
    && 0 < u.tag < MAX_TAG
    && match u
       case WireVarint(_, digits) => VarintLength(digits) == |digits| > 0
       case Wire64(_, b) => |b| == 8
       case WireBytes(_, b) => |b| < 0x1_0000_0000
       case Wire32(_, b) => |b| == 4
  }

  lemma PayloadSkipped(u: WireField)
    requires WellFormed(u)
    ensures Skip(WireOf(u), Payload(u)) == Some(|Payload(u)|)
  {
    hide ReadVarint32, VarintLength, Varint;
    if u.WireBytes? {
      LengthRoundTrip(|u.b|, u.b);
    }
  }

  /** A well-formed field is skipped exactly by the tables that do not have its tag. */
  lemma WireFieldForeign(fs: seq<Field>, u: WireField)
    requires WellFormed(u)
    ensures ForeignField(fs, TagBytes(WireOf(u), u.tag) + Payload(u)) <==> FindField(fs, u.tag) == None
  {
    hide ReadKey, Skip, Payload, TagBytes, FindField;
    PayloadSkipped(u);
    var key := TagBytes(WireOf(u), u.tag);
    KeyRoundTrip(WireOf(u), u.tag, Payload(u));
    assert (key + Payload(u))[|key|..] == Payload(u);
  }

  /** A field with tag 0 and eight bytes is refused in the empty table and skipped in every other one. */
  lemma TagZero(fs: seq<Field>, st: State, b: seq<Byte>, t: seq<Byte>)
    requires |st.msg| == |fs| && StaticTable(fs) && |b| == 8
    ensures DecLoop(fs, st, [1] + b + t) == if fs == [] then RunFail else Shift(9, DecLoop(fs, st, t))
  {
    var u: seq<Byte> := [1] + b;
    assert ReadKey(u) == Key(0, 1, 1) by { KeyRoundTripZero(b); }
    assert u[1..] == b;
    forall k | 0 <= k < |fs|
      ensures !Matches(fs[k], 0)
    {
      assert StaticField(fs[k]);
    }
    hide DecLoop, ReadKey;
    if fs == [] {
      ReadKeyPrefix(u, t);
      RoundFails(fs, st, u + t);
    } else {
      ForeignSkipped(fs, st, u, t);
    }
  }

  lemma KeyRoundTripZero(b: seq<Byte>)
    ensures ReadKey([1] + b) == Key(0, 1, 1)
  {
    hide ReadVarint32;
    assert Varint(1) == [1];
    LengthRoundTrip(1, b);
  }

  // ----- a message cut at field borders, with unknown fields put into the cuts -----

  /** Every piece followed by its unknown fields. */
  function Woven(pieces: seq<seq<Byte>>, us: seq<seq<seq<Byte>>>): seq<Byte>
    requires |us| == |pieces|
  {
    if pieces == [] then [] else pieces[0] + (Flat(us[0]) + Woven(pieces[1..], us[1..]))
  }

  /** The field loop goes through each piece to its end. */
  predicate CutAtFields(fs: seq<Field>, st: State, pieces: seq<seq<Byte>>)
    requires |st.msg| == |fs|
    decreases |pieces|
  {
    pieces == [] ||
    var r := DecLoop(fs, st, pieces[0]);
    r.Ran? && !r.stopped && CutAtFields(fs, r.st, pieces[1..])
  }

  function Reached(fs: seq<Field>, st: State, pieces: seq<seq<Byte>>): (r: State)
    requires |st.msg| == |fs| && CutAtFields(fs, st, pieces)
    ensures |r.msg| == |fs|
    decreases |pieces|
  {
    if pieces == [] then st else Reached(fs, DecLoop(fs, st, pieces[0]).st, pieces[1..])
  }

  lemma {:induction false} FlatLoop(fs: seq<Field>, st: State, pieces: seq<seq<Byte>>, t: seq<Byte>)
    requires |st.msg| == |fs| && CutAtFields(fs, st, pieces)
    ensures DecLoop(fs, st, Flat(pieces) + t) == Shift(|Flat(pieces)|, DecLoop(fs, Reached(fs, st, pieces), t))
    decreases |pieces|
  {
    hide DecLoop;
    if pieces == [] {
      assert [] + t == t;
    } else {
      LoopAppend(fs, st, pieces[0], Flat(pieces[1..]) + t);
      assert Flat(pieces) + t == pieces[0] + (Flat(pieces[1..]) + t);
      FlatLoop(fs, DecLoop(fs, st, pieces[0]).st, pieces[1..], t);
    }
  }

  lemma {:induction false} WovenLoop(fs: seq<Field>, st: State, pieces: seq<seq<Byte>>, us: seq<seq<seq<Byte>>>, t: seq<Byte>)
    requires |st.msg| == |fs| && CutAtFields(fs, st, pieces)
    requires |us| == |pieces| && forall i :: 0 <= i < |us| ==> Foreign(fs, us[i])
    ensures DecLoop(fs, st, Woven(pieces, us) + t) == Shift(|Woven(pieces, us)|, DecLoop(fs, Reached(fs, st, pieces), t))
    decreases |pieces|
  {
    hide DecLoop, Foreign, Flat;
    if pieces == [] {
      assert [] + t == t;
    } else {
      var st1, rest := DecLoop(fs, st, pieces[0]).st, Woven(pieces[1..], us[1..]);
      LoopAppend(fs, st, pieces[0], Flat(us[0]) + (rest + t));
      assert Woven(pieces, us) + t == pieces[0] + (Flat(us[0]) + (rest + t));
      ForeignRunSkipped(fs, st1, us[0], rest + t);
      WovenLoop(fs, st1, pieces[1..], us[1..], t);
    }
  }

  /**
   Unknown fields between the fields of a message change neither whether it decodes nor the
   resulting struct, nor the tracking of fixed-count arrays; t is whatever follows, decodable or not.
   */
  lemma UnknownFieldsTransparent(fs: seq<Field>, m: seq<Slot>, pieces: seq<seq<Byte>>, us: seq<seq<seq<Byte>>>, t: seq<Byte>)
    requires |m| == |fs| && CutAtFields(fs, Start(m), pieces)
    requires |us| == |pieces| && forall i :: 0 <= i < |us| ==> Foreign(fs, us[i])
    ensures DecMsg(fs, m, Woven(pieces, us) + t).Done? <==> DecMsg(fs, m, Flat(pieces) + t).Done?
    ensures DecMsg(fs, m, Flat(pieces) + t).Done? ==>
            DecMsg(fs, m, Woven(pieces, us) + t).val == DecMsg(fs, m, Flat(pieces) + t).val
  {
    hide DecLoop, Foreign, Woven, Flat, CutAtFields, Reached, Complete;
    FlatLoop(fs, Start(m), pieces, t);
    WovenLoop(fs, Start(m), pieces, us, t);
  }
}
