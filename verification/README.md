# Verified models of the protocol code in MovieFun

MovieFun is an iOS application. Most of what can go wrong silently in it is in the protocol and bookkeeping code that it
carries: a protobuf codec, a multipart and a query-string encoder, shared reference counts, a retransmission timer, and
the application's own chat screen. This project models that code in Dafny, states what each part is for, and proves it.

| part | files |
|---|---|
| nanopb: descriptors and the field iterator | `Descriptor.dfy`, `FieldIter.dfy` |
| nanopb: integers on the wire | `Bits.dfy`, `Varints.dfy`, `NegativeVarint.dfy` |
| nanopb: what encoding and decoding mean, on values | `EncodeSpec.dfy`, `DecodeSpec.dfy` |
| nanopb: the procedures on streams, buffers and structs | `OutputStream.dfy`, `Encoder.dfy`, `InputStream.dfy`, `Bitmap.dfy`, `Decoder.dfy`, `Composed.dfy` |
| nanopb: laws | `Prefix.dfy`, `Scalars.dfy`, `Chunks.dfy`, `RoundTrip.dfy`, `Survival.dfy`, `Reencode.dfy`, `Bounds.dfy`, `Merge.dfy`, `Nested.dfy`, `LastWins.dfy`, `Unknowns.dfy`, `Packing.dfy`, `Presence.dfy`, `WireFormat.dfy` |
| BoringSSL reference counts | `Refcount.dfy` |
| BoringSSL DTLS timer | `DtlsTimer.dfy` |
| Alamofire multipart form data | `Multipart.dfy`, `MultipartReader.dfy` |
| Alamofire query strings | `QueryStrings.dfy`, `QueryReader.dfy` |
| the chat screen | `ChatGroups.dfy`, `ChatSections.dfy`, `ChatController.dfy` |

Code that updates streams, buffers, structs, iterators and lists in place is modelled by classes and methods with loops.
Each method is proved against a specification on values (byte strings, slots, groups), and the laws are proved about the
specifications. `dafny verify dfyconfig.toml` checks everything.

## How nanopb is modelled

- A descriptor table is the sequence of its entries before the terminator. A struct is a sequence of typed slots, one per
  entry; the members of a union share the slot of its first member (`Descriptor.SlotOf`). Byte addresses appear only in
  `FieldIter.dfy`.
- `SIZE_WIDTH`, the width of `pb_size_t`, and `POINTER_SIZE` are constants without a value, so every result holds for
  each build. So is `FIRST_BYTES_ZERO`, which says of a fixed-count array whether the first `SIZE_WIDTH` bytes of its
  storage are zero: byte order and struct layout decide that, and the encoder's presence rule looks at it. All that is
  known of it is that the elements which those bytes settle are then zero.
- A fixed-count array has no count that the decoder's defaults could reset. They zero as many bytes as a count takes, at
  the start of the array, and touch no other. `ZeroedCount` says how many elements that settles, and a slot `Fixed(items)`
  lists the elements whose content is known: those zeros at first, and more as they arrive. What lies behind them is
  whatever the destination held.
- `StaticTable` is all that the decoder's procedures ask of a table: static entries with tags that tell them apart.
  `FieldsOk` adds what the encoder and the wire format need.
- `DecodeSpec` and `EncodeSpec` follow the branches of the code. Each procedure in `Encoder` and `Decoder` is proved to
  move its stream, write its buffer and fill its struct as they say, including failure. `OutputStream.Writes` says of
  every encoding call that it succeeds exactly when there is an encoding and room for it, that it then appends that
  encoding, and that it touches no byte before the old or after the new write position. `InputStream.Moves` says of every
  decoding call that it consumes what it should and never passes the end.

Places where the code does something that its users might not expect, all kept as they are:

- The wire type is not compared with the type of a known field. It only tells packed arrays apart and skips unknown fields
  (`WireFormat.WireTypeIgnored`).
- The 32-bit varint reader ignores bits 32 to 34 of varints longer than five bytes, and it takes padding of any length,
  where the 64-bit reader stops at ten bytes (`Varints.OverlongRead`). The exact acceptance condition on encoder output is
  `Varints.Varint32OnEncoded`.
- A signed field of up to 32 bits looks at the lower half of a varint only: it takes 2^32 + 5 for 5
  (`Scalars.UpperHalfDropped`, and exactly when in `Scalars.SignedFieldCasts`).
- A string that fills its buffer encodes, but the decoder wants one more byte (`Scalars.StringSurvivesIfTerminated`).
- A proto3 field that counts as absent is left out, and what comes back is its default. A message comes back whole,
  whatever the destination held, if and only if nothing is forgotten that way (`Survival.MessageSurvives`). A fixed-count
  array of numbers inside such a submessage is forgotten when it takes more bytes than `pb_size_t`
  (`Survival.ArrayForgets`): only the first bytes were compared with zero, and only those are put back.
- Relaying a message can change its bytes. It does if and only if some proto3 field in it counts as absent while its
  default does not (`Reencode.RelayedExactly`, with an example in `Reencode.DefaultBreaksRelay`).
- A one-of submessage that arrives twice is replaced (`Nested.OneofReplaces`), where a required or optional one is merged
  (`Nested.SubmessagesMerge`).
- The documentation says that concatenated messages merge. With fixed-count arrays they do if and only if the second
  message does not start its fixed-count arrays with the one that the first ended with (`Merge.ConcatDecodesExactly`, with an example in `Merge.FixedArraysDoNotMerge`).
- In an empty table the terminator answers to tag 0, so such a field is refused there and skipped everywhere else
  (`Unknowns.TagZero`).
- Two unions that lie `PB_SIZE_MAX` bytes apart are taken for one (`FieldIter.LayoutRecovered`, with an example in
  `FieldIter.UnionsConfused`).

And elsewhere:

- Encoding a multipart form reads its streams and sets flags that are never cleared. A second call gives the form without
  the bodies (`Multipart.EncodeTwice`), and after parts were appended it gives no form at all
  (`Multipart.EncodeAppendEncode`, `Multipart.EncodedAgain`).
- Different parameters can have the same query. With brackets for arrays, and names that are not empty and free of
  brackets, the query determines the leaves (`QueryStrings.QueryDeterminesLeaves`); each of these conditions is needed
  (`QueryStrings.NestingIsAmbiguous`, `NameIsAmbiguous`, `EmptyNameIsAmbiguous`, `NoBracketsIsAmbiguous`).
- An initial timeout just above 2^31 ms overflows when it is doubled (`DtlsTimer.BackoffExact`).
- Chat messages that do not arrive in the order of their dates are shown differently after a restart
  (`ChatSections.IncrementalIsSomeRebuild`). The application's own clock goes back at noon, because it formats the hour
  with a 12-hour pattern and reads it back without the half of the day (`ChatSections.ClockGoesBack`,
  `NoonReorders`). When no list could be fetched, repeated changes are shown again
  and again (`ChatSections.ReplayedChanges`).

## Model

| member | source | states |
|---|---|---|
| RoundTrip.MessageRoundTrip | MovieFun/Pods/nanopb/pb_decode.c:901-1063 | for every acyclic table with distinct tags and every well-formed message, decoding the encoder's bytes succeeds, consumes them all and gives the message back with unset optional fields, and proto3 fields that were left out, at their defaults |
| RoundTrip.EntryRoundTrip | MovieFun/Pods/nanopb/pb_encode.c:307-392 | the bytes of one entry take the decoder from the first k entries arrived to the first k + 1, whatever follows, touching no other slot |
| RoundTrip.ValRoundTrip | MovieFun/Pods/nanopb/pb_encode.c:734-868 | every value of every type, nested messages included, is read back from its encoding with any suffix left over |
| Survival.MessageSurvives | MovieFun/Pods/nanopb/pb_encode.c:213-303 | a message comes back whole if and only if no proto3 field in it counts as absent while the decoder's defaults do not restore it: for a fixed-count array longer than the bytes that they zero, or a value whose default is not zero |
| Survival.ArrayForgets | MovieFun/Pods/nanopb/pb_decode.c:838-844 | a left-out fixed-count array of numbers is not restored when it takes more than sizeof(pb_size_t) bytes; one of strings, when its last string starts behind them; one of bytes items, when it has more than one |
| Survival.OmittedMsg | MovieFun/Pods/nanopb/pb_encode.c:261-280 | a nested struct that the presence rule leaves out is the one that the decoder's defaults put back, short fixed-count arrays included, if and only if it has no entry that they do not restore |
| Bounds.AcceptedGoesRound | MovieFun/Pods/nanopb/pb_decode.c:901-1063 | whatever bytes are accepted, the struct stays inside its table, and when its fixed-count arrays are full it can be encoded and that decodes to it again |
| Bounds.DecMsgFits | MovieFun/Pods/nanopb/pb_decode.c:901-1049 | decoding any bytes into a struct inside its table keeps counts within arrays, bytes and strings within their buffers, integers in range and one-ofs on their own members, at every depth |
| RoundTrip.RestRoundTrip | MovieFun/Pods/nanopb/pb_encode.c:494-516 | from any state in which the first k entries have arrived, the bytes of the others complete the message, with all required fields seen |
| Reencode.RelayedExactly | MovieFun/Pods/nanopb/pb_encode.c:307-345 | encoding what was decoded from an encoding gives the same bytes again if and only if every proto3 field in the message that counts as absent has a default that counts as absent; otherwise the second encoding is longer or refused |
| Reencode.RelayedIffWhole | MovieFun/Pods/nanopb/pb_encode.c:494-516 | where no proto3 submessage holds a fixed-count array and the defaults fit, relaying changes nothing if and only if the message comes back whole |
| Reencode.StaysPresent | MovieFun/Pods/nanopb/pb_encode.c:213-303 | a proto3 value that does not count as absent does not do so after a round trip, at any depth |
| Reencode.RelayedUnchanged | MovieFun/Pods/nanopb/pb_encode.c:494-516 | relaying changes nothing in any message that comes back whole, nor in any message of a table whose proto3 fields forget nothing when left out |
| Reencode.DefaultBreaksRelay | MovieFun/Pods/nanopb/pb_encode.c:321-325 | a proto3 field whose default is not zero breaks it: its zero is left out, comes back as the default, and is then written |
| Merge.ConcatIsMerge | MovieFun/Pods/nanopb/pb_decode.h:74-75 | unless a fixed-count array is resumed, decoding a ++ b in one call leaves what decoding the fields of a and then those of b into the same struct leaves, and it succeeds exactly when b's fields decode and every checked required field is in a or b |
| Merge.MessagesMerge | MovieFun/Pods/nanopb/pb_decode.c:901-1049 | of two messages that decode one after the other, the second need not repeat the required fields |
| Merge.ConcatDecodesExactly | MovieFun/Pods/nanopb/pb_decode.c:964-986 | when a and b decode one after the other, a ++ b decodes if and only if b does not begin its fixed-count arrays with the one a ended with |
| Merge.FixedArraysDoNotMerge | MovieFun/Pods/nanopb/pb_decode.c:1000-1004 | that happens: two messages that hold the same array of one element each decode, their concatenation does not |
| Merge.NoFixedNeverResumes | MovieFun/Pods/nanopb/pb_decode.c:967-968 | tables without fixed-count arrays are never in that case |
| Merge.LoopResumeFails | MovieFun/Pods/nanopb/pb_decode.c:964-1004 | a run that resumes a full fixed-count array is refused |
| Prefix.LoopAppend | MovieFun/Pods/nanopb/pb_decode.c:919-997 | the field loop over a ++ b is the loop over a followed by the loop over b |
| Prefix.LoopStopped | MovieFun/Pods/nanopb/pb_decode.c:305-309 | a zero key ends the message whatever follows it |
| Unknowns.UnknownFieldsTransparent | MovieFun/Pods/nanopb/pb_decode.c:933-962 | weaving any unknown fields, as the decoder itself reads and skips them, padded keys and lengths included, between the fields of a message changes neither the struct nor the success of decoding, fixed-count tracking and required fields included |
| Unknowns.ForeignSkipped | MovieFun/Pods/nanopb/pb_decode.c:316-326 | one unknown field in front of any data is skipped exactly |
| Unknowns.WireFieldForeign | MovieFun/Pods/nanopb/pb_decode.c:316-326 | a field of any of the four wire types is such an unknown field for exactly the tables without its tag |
| Unknowns.TagZero | MovieFun/Pods/nanopb/pb_common.c:77-94 | a field with tag 0 is refused in the empty table and skipped in every other one |
| Nested.SubmessagesMerge | MovieFun/Pods/nanopb/pb_decode.c:1463-1485 | a required or optional submessage that comes twice leaves the state that one occurrence with the bytes of both leaves, whatever the struct held and whatever follows: two are accepted exactly when each decodes, the one unless a fixed-count array that ends the first begins the second |
| Nested.JoinedNeedsLess | MovieFun/Pods/nanopb/pb_decode.c:1006-1037 | the one occurrence also takes a second half that lacks required fields which the first half has |
| Nested.ZeroKeyHidesRest | MovieFun/Pods/nanopb/pb_decode.c:305-309 | a zero key in the first half hides the second half of the one occurrence |
| Nested.OneofReplaces | MovieFun/Pods/nanopb/pb_decode.c:461-470 | of two occurrences of a one-of's submessage only the second counts, decoded into a fresh struct; both have to decode |
| Nested.ArrayAppends | MovieFun/Pods/nanopb/pb_decode.c:447-459 | each occurrence in an array of submessages is a new element, decoded into a fresh struct, and refused without room |
| LastWins.LastOneWins | MovieFun/Pods/nanopb/pb_decode.c:409-470 | an occurrence of a field that holds one value can be removed without changing the outcome whenever the field, or another member of its one-of, comes again anywhere later |
| LastWins.RunsMeet | MovieFun/Pods/nanopb/pb_decode.c:919-997 | two runs whose states differ in one such slot end the same once the slot is written |
| Packing.PackedEqualsUnpacked | MovieFun/Pods/nanopb/pb_decode.c:419-459 | a packed block and the same values one by one leave the same array and count when they fit behind what is there, and both are refused when they do not |
| Chunks.PackedBody | MovieFun/Pods/nanopb/pb_decode.c:431-443 | the packed loop takes the whole block if and only if old and new elements together fit the array |
| Chunks.KeyRoundTrip | MovieFun/Pods/nanopb/pb_decode.c:293-314 | a written key is read back as its tag and wire type |
| WireFormat.KeyNumbers | MovieFun/Pods/nanopb/pb_encode.c:641-672 | a key is the varint of eight times the tag plus 0 for the three varint types, 1 for fixed64, 5 for fixed32 and 2 for everything else |
| WireFormat.ArrayForm | MovieFun/Pods/nanopb/pb_encode.c:126-211 | an array of numbers is written as one block behind a key with 2 and its length, any other one with a key for each element |
| WireFormat.EncodingSkipped | MovieFun/Pods/nanopb/pb_decode.c:316-326 | a receiver whose table has none of the tags skips everything that the encoder writes, entry by entry, and reads on behind it |
| WireFormat.SkipNumbers | MovieFun/Pods/nanopb/pb_decode.c:272-326 | wire type 0 is skipped up to the first byte below 128, 1 and 5 by eight and four bytes, 2 by its length; there are no others |
| WireFormat.OtherTypesRefused | MovieFun/Pods/nanopb/pb_decode.c:324 | an unknown field with another wire type fails the message, whatever follows |
| WireFormat.WireTypeIgnored | MovieFun/Pods/nanopb/pb_decode.c:398-473 | a known field is decoded the same under every wire type, except that type 2 makes a block of an array of numbers |
| WireFormat.ZeroKeyEnds | MovieFun/Pods/nanopb/pb_decode.c:305-309 | a zero byte in place of a key ends the message, whatever follows |
| WireFormat.ValueBytes | MovieFun/Pods/nanopb/pb_encode.c:734-868 | the bytes of every type: the shortest varint of the 64-bit two's complement, of the number, or of twice its magnitude (less one if negative); four or eight bytes low first; a length and the bytes |
| WireFormat.NarrowFields | MovieFun/Pods/nanopb/pb_decode.c:1289-1387 | an unsigned field takes exactly the numbers below its range, a zigzag one exactly the integers that fit, and no field of another size takes any |
| WireFormat.FixedLengthRead | MovieFun/Pods/nanopb/pb_decode.c:1487-1508 | bytes of a fixed length are taken whole, an empty payload stands for zeros, and any other length is an error |
| WireFormat.ZeroPayload | MovieFun/Pods/nanopb/pb_decode.c:848-864 | without an explicit default, initialising leaves what decoding a payload of zeros would |
| WireFormat.LargestSize | MovieFun/Pods/nanopb/pb.h:200-215 | the largest value of pb_size_t is that of an unsigned type of its width |
| WireFormat.ZeroMemory | MovieFun/Pods/nanopb/pb_decode.c:812-895 | tables without explicit defaults, and without longer fixed-count arrays, are initialised to what zeroed memory holds, at every depth |
| Presence.LeftOutExactly | MovieFun/Pods/nanopb/pb_encode.c:213-303 | a proto3 field is left out exactly when its number is zero, its string or bytes are empty, its fixed length is none, or every entry of its nested struct would write nothing, where an array without a count passes for that when its first bytes are zero |
| Presence.LeftOutIfEmpty | MovieFun/Pods/nanopb/pb_encode.c:261-280 | without such arrays, a nested proto3 struct is left out exactly when it would itself be encoded to nothing |
| Presence.RequiredExactly | MovieFun/Pods/nanopb/pb_decode.c:999-1037 | data whose fields decode is a message exactly when the loop has met each of the first 64 required entries and the fixed-count array received last is full |
| Presence.EmptyMessage | MovieFun/Pods/nanopb/pb_decode.c:1006-1037 | the empty data is a message exactly for tables without required entries |
| Presence.PartialArrayRefused | MovieFun/Pods/nanopb/pb_decode.c:999-1004 | elements of a fixed-count array alone are a message exactly when they are all there |
| Presence.ArraysDoNotInterleave | MovieFun/Pods/nanopb/pb_decode.c:970-981 | while one fixed-count array is not full, a field of another one is refused |
| Scalars.StringSurvivesIfTerminated | MovieFun/Pods/nanopb/pb_encode.c:847-854 | a string buffer survives the trip if and only if a NUL ends it inside the buffer |
| Scalars.ScalarRoundTrip | MovieFun/Pods/nanopb/pb_decode.c:1289-1508 | every scalar value that fits its field is read back |
| Scalars.CastReadWire | MovieFun/Pods/nanopb/pb_decode.c:1303-1323 | the decoder's casts undo the encoder's on every value of every integer size |
| OutputStream.SizingPredictsWriting | MovieFun/Pods/nanopb/pb_encode.c:682-730 | what any encoding call counts on a sizing stream decides whether the same call on a buffer succeeds, and is the number of bytes that it then writes |
| EncodeSpec.FixedWidthItems | MovieFun/Pods/nanopb/pb_encode.c:146-153 | the shortcut 4 or 8 times the count is the length of the packed body |
| Varints.VarintRoundTrip | MovieFun/Pods/nanopb/pb_decode.c:250-270 | every 64-bit value is read back from its at most ten bytes, leaving any suffix |
| Varints.VarintShortest | MovieFun/Pods/nanopb/pb_encode.c:574-594 | no byte string with the same value is shorter than the encoder's |
| Varints.VarintSize | MovieFun/Pods/nanopb/pb_encode.c:576 | ten bytes are enough for 64 bits and five for 32 |
| Varints.Varint32Agrees | MovieFun/Pods/nanopb/pb_decode.c:182-242 | on varints of at most ten bytes, what the 32-bit reader accepts is the low half of what the 64-bit reader reads, from the same bytes |
| Varints.Varint32OnEncoded | MovieFun/Pods/nanopb/pb_decode.c:216-237 | on encoder output the 32-bit reader accepts exactly the values whose upper groups it does not see or takes for a sign extension, and fails on all others |
| Varints.Accepts32Ranges | MovieFun/Pods/nanopb/pb_decode.c:216-225 | it accepts all values below 2^32 and all sign-extended negative 32-bit integers, and refuses all from 2^32 to 2^63 - 1 |
| Varints.Varint32Padded | MovieFun/Pods/nanopb/pb_decode.c:211-237 | zero groups of any number are swallowed without changing the value, wherever the 8-bit counter is and however often it wraps |
| Varints.OverlongRead | MovieFun/Pods/nanopb/pb_decode.c:182-242 | every 32-bit value padded to any length is read as that value, where the 64-bit reader refuses it beyond ten bytes |
| Scalars.SignedFieldCasts | MovieFun/Pods/nanopb/pb_decode.c:1303-1321 | a signed field accepts a varint exactly when its lower half fits the field, and reads the value on the wire exactly when that fits |
| Scalars.UpperHalfDropped | MovieFun/Pods/nanopb/pb_decode.c:1303-1306 | a 32-bit field reads 2^32 + 5 as 5 |
| Varints.ZigzagRoundTrip | MovieFun/Pods/nanopb/pb_encode.c:596-605 | zigzag decoding undoes encoding on all 64-bit integers |
| Varints.UnzigzagRoundTrip | MovieFun/Pods/nanopb/pb_decode.c:1240-1252 | and the other way round |
| Varints.ZigzagValue | MovieFun/Pods/nanopb/pb_encode.c:599-602 | the shift-and-complement form is 2v, or -2v - 1 for negative v |
| NegativeVarint.EncodeNegativeVarint | MovieFun/Pods/nanopb/pb_encode.c:549-571 | without 64-bit arithmetic, a negative 32-bit integer is written as the varint of its 64-bit sign extension |
| NegativeVarint.FillNegativeVarint | MovieFun/Pods/nanopb/pb_encode.c:551-568 | the compensating loop fills at most ten bytes with that varint |
| NegativeVarint.RoundShifts | MovieFun/Pods/nanopb/pb_encode.c:557-567 | each round shifts the wide number that the 32-bit word stands for by seven bits |
| FieldIter.Iter.constructor | MovieFun/Pods/nanopb/pb_common.c:8-18 | a new iterator is at the first entry, with its addresses and required index |
| FieldIter.Iter.Begin | MovieFun/Pods/nanopb/pb_common.c:8-18 | goes to the first entry from anywhere and says whether there is one |
| FieldIter.Iter.Next | MovieFun/Pods/nanopb/pb_common.c:20-76 | one entry on or back to the first, with addresses and required index those of the position alone, not of the way there |
| FieldIter.Iter.Find | MovieFun/Pods/nanopb/pb_common.c:78-95 | ends within one cycle, finds an entry if and only if one has the tag and is no extension, stops at the first one from where it started with the addresses and required index of its position, and is back where it was on failure |
| FieldIter.LayoutRecovered | MovieFun/Pods/nanopb/pb.h:395-403 | for tables that the macros write for the members of a struct, the iterator recovers every member offset if and only if no two neighbouring unions are PB_SIZE_MAX bytes apart, and then also finds the counts and flags |
| FieldIter.UnionsConfused | MovieFun/Pods/nanopb/pb_common.c:44-50 | a table as the macros write it, with two unions that far apart: the iterator puts the second one's member into the first |
| FieldIter.FindExactly | MovieFun/Pods/nanopb/pb_common.c:77-94 | lookup finds the first entry with the tag that is not an extension, if there is one |
| FieldIter.OffsetOfSlot | MovieFun/Pods/nanopb/pb_common.c:44-50 | all members of a union have the address of the first |
| FieldIter.OffsetsOrdered | MovieFun/Pods/nanopb/pb_common.c:41-73 | no two entries with different slots overlap in the struct if and only if the entry after each union begins behind all of its members |
| OutputStream.OStream.Over | MovieFun/Pods/nanopb/pb_encode.c:84-99 | a stream at the start of its stretch of the buffer |
| OutputStream.OStream.Write | MovieFun/Pods/nanopb/pb_encode.c:101-124 | appends the bytes if they fit, or counts them, keeps position and count in step and touches nothing else |
| OutputStream.OStream.CopyIn | MovieFun/Pods/nanopb/pb_encode.c:72-82 | copies exactly the given bytes to the write position |
| OutputStream.WritesJoin | MovieFun/Pods/nanopb/pb_encode.c:101-124 | two writes in a row are the write of the concatenation |
| Encoder.EncodeVarint | MovieFun/Pods/nanopb/pb_encode.c:574-594 | writes the varint of any 64-bit value |
| Encoder.FillVarint | MovieFun/Pods/nanopb/pb_encode.c:585-591 | the loop and the cleared last bit give the varint, inside the ten-byte buffer |
| Encoder.EncodeSvarint | MovieFun/Pods/nanopb/pb_encode.c:596-605 | writes the varint of the zigzag form |
| Encoder.EncodeFixed32 | MovieFun/Pods/nanopb/pb_encode.c:607-617 | writes four bytes, low first |
| Encoder.EncodeFixed64 | MovieFun/Pods/nanopb/pb_encode.c:619-633 | writes eight bytes, low first |
| Encoder.EncodeTagForField | MovieFun/Pods/nanopb/pb_encode.c:641-672 | writes the key with the wire type of the field's type |
| Encoder.EncodeString | MovieFun/Pods/nanopb/pb_encode.c:674-680 | writes a length and as many bytes |
| Encoder.StringLength | MovieFun/Pods/nanopb/pb_encode.c:846-851 | measures the bytes before the first NUL, at most the buffer |
| Encoder.CheckDefaultValue | MovieFun/Pods/nanopb/pb_encode.c:241-303 | decides the proto3 presence rule for a value |
| Encoder.CheckDefaultFields | MovieFun/Pods/nanopb/pb_encode.c:268-279 | decides it for all entries of a nested struct |
| Encoder.EncodeInt | MovieFun/Pods/nanopb/pb_encode.c:734-791 | writes an integer of any of the four sizes and refuses other sizes |
| Encoder.EncodeValue | MovieFun/Pods/nanopb/pb_encode.c:793-868 | writes a value of any type, or refuses it without an encoding |
| Encoder.EncodeSubmessage | MovieFun/Pods/nanopb/pb_encode.c:682-730 | sizing, then writing through a substream, writes the length and the message; the substream never lacks room and its size never changes |
| Encoder.PackedSize | MovieFun/Pods/nanopb/pb_encode.c:145-165 | computes the length of the packed body |
| Encoder.EncodePacked | MovieFun/Pods/nanopb/pb_encode.c:142-181 | writes the length and the values, or counts them |
| Encoder.EncodeArray | MovieFun/Pods/nanopb/pb_encode.c:126-211 | writes an array packed or with keys, and refuses one that is too long |
| Encoder.EncodeField | MovieFun/Pods/nanopb/pb_encode.c:307-392 | writes an entry according to its presence rule |
| Encoder.EncodeMsg | MovieFun/Pods/nanopb/pb_encode.c:494-516 | writes the whole message, or counts it, to any stream |
| Encoder.GetEncodedSize | MovieFun/Pods/nanopb/pb_encode.c:533-542 | returns the length of the encoding if there is one |
| Composed.EncodeToFit | MovieFun/Pods/nanopb/pb_encode.c:494-542 | encoding into a buffer of the size that sizing finds never lacks room: it succeeds exactly when there is an encoding, and fills the buffer with it |
| Composed.SendAndReceive | MovieFun/Pods/nanopb/pb_decode.c:1044-1063 | a well-formed message that was sized, encoded and decoded by the procedures is in the destination in normal form, whatever that held |
| Composed.MessageReadable | MovieFun/Pods/nanopb/pb_encode.c:682-730 | a well-formed message whose encoding has a size that size_t holds meets all that the encoder asks, at every depth |
| InputStream.IStream.Read | MovieFun/Pods/nanopb/pb_decode.c:85-132 | reads exactly count bytes or fails without moving |
| InputStream.IStream.ReadByte | MovieFun/Pods/nanopb/pb_decode.c:136-152 | reads one byte or fails without moving |
| InputStream.DecodeVarint32Eof | MovieFun/Pods/nanopb/pb_decode.c:182-242 | the loop with its counter and checks is the 32-bit reader, and end of data is reported if and only if there was none |
| InputStream.DecodeVarint | MovieFun/Pods/nanopb/pb_decode.c:250-270 | the loop is the 64-bit reader; it consumes the varint and leaves the rest |
| InputStream.DecodeSvarint | MovieFun/Pods/nanopb/pb_decode.c:1240-1252 | reads a zigzag integer |
| InputStream.DecodeTag | MovieFun/Pods/nanopb/pb_decode.c:293-314 | reads a key, and tells the end of the message from an error |
| InputStream.SkipVarint | MovieFun/Pods/nanopb/pb_decode.c:273-282 | skips a varint of any length |
| InputStream.SkipString | MovieFun/Pods/nanopb/pb_decode.c:284-291 | skips a length and as many bytes |
| InputStream.SkipField | MovieFun/Pods/nanopb/pb_decode.c:316-326 | skips a payload by its wire type |
| InputStream.MakeSubstream | MovieFun/Pods/nanopb/pb_decode.c:367-380 | the substream holds exactly the announced bytes and the parent exactly those after them |
| InputStream.CloseSubstream | MovieFun/Pods/nanopb/pb_decode.c:382-395 | the parent goes on behind the substream's end, however little of it was read |
| Bitmap.BitmapExact | MovieFun/Pods/nanopb/pb_decode.c:1006-1046 | the word-by-word check passes if and only if every one of the first 64 required entries was seen |
| Bitmap.CompleteWords | MovieFun/Pods/nanopb/pb_decode.c:1029-1044 | whole words and the remaining bits together check exactly the first count bits |
| Bitmap.SetBitWord | MovieFun/Pods/nanopb/pb_decode.c:988-993 | setting one bit adds one index to what a word holds |
| Decoder.SetToDefaults | MovieFun/Pods/nanopb/pb_decode.c:884-895 | sets every slot of a struct to its default, nested structs and the first bytes of fixed-count arrays included |
| Decoder.DefaultOf | MovieFun/Pods/nanopb/pb_decode.c:812-882 | the default of one entry, for each presence rule; a fixed-count array begins with zeros and is otherwise left as it was |
| Decoder.DecodeInt | MovieFun/Pods/nanopb/pb_decode.c:1289-1372 | reads an integer of any of the four sizes and refuses what does not fit |
| Decoder.DecodeFixed32 | MovieFun/Pods/nanopb/pb_decode.c:1254-1266 | reads four bytes, low first |
| Decoder.DecodeFixed64 | MovieFun/Pods/nanopb/pb_decode.c:1269-1286 | reads eight bytes, low first |
| Decoder.DecodeBlob | MovieFun/Pods/nanopb/pb_decode.c:1391-1461 | reads bytes or a string that fits its buffer |
| Decoder.DecodeFixedLength | MovieFun/Pods/nanopb/pb_decode.c:1487-1508 | reads exactly the fixed length, or zeros for an empty one |
| Decoder.DecodeSubmessage | MovieFun/Pods/nanopb/pb_decode.c:1463-1485 | decodes inside a substream and leaves the parent behind it |
| Decoder.DecodePackedItems | MovieFun/Pods/nanopb/pb_decode.c:427-447 | the loop over a packed block uses it up or fails |
| Decoder.DecodeElements | MovieFun/Pods/nanopb/pb_decode.c:419-459 | takes a packed block or one more element, or refuses it |
| Decoder.DecodeStaticField | MovieFun/Pods/nanopb/pb_decode.c:401-475 | decodes a payload into an entry's slot according to its presence rule |
| Decoder.TrackFixed | MovieFun/Pods/nanopb/pb_decode.c:964-986 | a fixed-count array may start only after the one before it is full |
| Decoder.NoteRequired | MovieFun/Pods/nanopb/pb_decode.c:988-993 | the two words hold the numbers of exactly the required entries seen |
| Decoder.CountRequired | MovieFun/Pods/nanopb/pb_decode.c:1012-1025 | from any position, going to the end counts the required entries, the last one included, up to 64 |
| Decoder.CheckRequired | MovieFun/Pods/nanopb/pb_decode.c:1027-1045 | the loop over the words is the completeness of the words |
| Decoder.DecodeOne | MovieFun/Pods/nanopb/pb_decode.c:933-996 | one field, known or unknown, takes struct, tracking and bitmap from state to state |
| Decoder.DecodeRound | MovieFun/Pods/nanopb/pb_decode.c:919-997 | one round of the field loop, with its three ways to end |
| Decoder.DecodeNoinit | MovieFun/Pods/nanopb/pb_decode.c:901-1049 | the whole procedure succeeds exactly when the specification does, leaves the specified struct and consumes the specified bytes |
| Decoder.Decode | MovieFun/Pods/nanopb/pb_decode.c:1051-1063 | the same from defaults, whatever the struct held before |
| Refcount.RunRefines | MovieFun/Pods/BoringSSL-GRPC/crypto/refcount_c11.c:37-65 | every interleaving of the compare-and-swap loops by any number of threads, spurious failures included, is an interleaving of the locked operations |
| Refcount.MoveRefines | MovieFun/Pods/BoringSSL-GRPC/crypto/refcount_c11.c:37-65 | each atomic action is one locked operation of its thread or no step at all |
| Refcount.LastReferenceReported | MovieFun/Pods/BoringSSL-GRPC/crypto/refcount_c11.c:49-65 | when only holders of references call, no thread aborts, at most one decrement ever returns one, only when no reference is left, and below the maximum the count is the number of references |
| Refcount.MaximumIsSticky | MovieFun/Pods/BoringSSL-GRPC/crypto/refcount_c11.c:41-57 | once at the maximum, the count stays there over every run |
| Refcount.RunKeepsCounted | MovieFun/Pods/BoringSSL-GRPC/crypto/refcount_c11.c:37-65 | the invariant between count, references and reports holds over every disciplined run |
| Refcount.CountIsSwaps | MovieFun/Pods/BoringSSL-GRPC/crypto/refcount_c11.c:37-65 | over every run the count is, as a number, where it started plus the increments that swapped minus the decrements that did: it never wraps |
| Refcount.LockedCount.Increment | MovieFun/Pods/BoringSSL-GRPC/crypto/refcount_lock.c:29-35 | is the atomic increment |
| Refcount.LockedCount.DecrementAndTestZero | MovieFun/Pods/BoringSSL-GRPC/crypto/refcount_lock.c:37-51 | is the atomic decrement, or aborts on zero |
| DtlsTimer.TimerRuns | MovieFun/Pods/BoringSSL-GRPC/ssl/d1_lib.cc:120-187 | over every run of starts, stops, expiries and changes of the initial duration, as long as fewer than 2^32 expiries follow a stop: at most twelve of them lead to a retransmission, the duration is the initial one doubled once for each, and the deadline is that long after the last start |
| DtlsTimer.AnswersExactly | MovieFun/Pods/BoringSSL-GRPC/ssl/d1_lib.cc:138-267 | after any run, handling a timeout does nothing up to 15 ms before the backed-off duration has passed since the last start; from then on it retransmits twelve times and gives up after |
| DtlsTimer.BackoffExact | MovieFun/Pods/BoringSSL-GRPC/ssl/d1_lib.cc:155-160 | k doublings of d0 give min(60000, d0 * 2^k) for every k of at least one, if and only if the first doubling does not overflow to less than a minute |
| DtlsTimer.Timer.Start | MovieFun/Pods/BoringSSL-GRPC/ssl/d1_lib.cc:120-136 | the deadline is exactly now plus the duration, with a normalised microsecond part |
| DtlsTimer.Timer.GetTimeout | MovieFun/Pods/BoringSSL-GRPC/ssl/d1_lib.cc:197-245 | the time left to the microsecond, zero if and only if less than 15 ms are left, capped at INT_MAX seconds |
| DtlsTimer.Timer.IsExpired | MovieFun/Pods/BoringSSL-GRPC/ssl/d1_lib.cc:138-153 | expiry is reported if and only if the timer is set and less than 15 ms are left |
| DtlsTimer.Timer.CheckTimeoutNum | MovieFun/Pods/BoringSSL-GRPC/ssl/d1_lib.cc:168-187 | counts an expiry and gives up after the twelfth |
| DtlsTimer.Timer.HandleTimeout | MovieFun/Pods/BoringSSL-GRPC/ssl/d1_lib.cc:247-267 | does nothing, gives up, or doubles and restarts, as the state says |
| DtlsTimer.Timer.SetInitialDuration | MovieFun/Pods/BoringSSL-GRPC/ssl/d1_lib.cc:193-195 | changes the duration of the next start from rest and nothing else |
| DtlsTimer.Timer.Stop | MovieFun/Pods/BoringSSL-GRPC/ssl/d1_lib.cc:162-166 | clears expiries and deadline and puts the initial duration back |
| Multipart.FramingUndone | MovieFun/Pods/Alamofire/Source/MultipartFormData.swift:62-75 | splitting a form of one or more parts at its delimiters gives back exactly its parts in order, if and only if the delimiter is in no part with the line break before it |
| MultipartReader.FormReadBack | MovieFun/Pods/Alamofire/Source/MultipartFormData.swift:348-365 | reading an encoded form gives back the headers and the body of every part, in order, if and only if no part contains the delimiter, no header a line break, and no key a colon with a space behind it |
| MultipartReader.PartReadBack | MovieFun/Pods/Alamofire/Source/MultipartFormData.swift:421-430 | header lines are told apart from a body with any bytes: cutting at the first empty line and each line at its first colon and space gives back headers and body if and only if the headers are plain like that |
| MultipartReader.ReadIsWritten | MovieFun/Pods/Alamofire/Source/MultipartFormData.swift:421-430 | whatever can be read as headers and a body is what writing these gives |
| Multipart.SplitFramed | MovieFun/Pods/Alamofire/Source/MultipartFormData.swift:402-419 | the delimiter matches nowhere but where the encoder put it |
| Multipart.CleanFlagsGiveForm | MovieFun/Pods/Alamofire/Source/MultipartFormData.swift:348-364 | with the flags set on the first and last part only, the encoder's output is the form of RFC 2046, section 5.1.1 |
| Multipart.EncodedAgain | MovieFun/Pods/Alamofire/Source/MultipartFormData.swift:355-356 | encoding, appending parts and encoding again gives a form of what is left if and only if nothing was appended, or there was nothing before |
| Multipart.EncodeTwice | MovieFun/Pods/Alamofire/Source/MultipartFormData.swift:348-364 | the second call gives the form without the bodies, which is the first form if and only if there were none |
| Multipart.EncodeAppendEncode | MovieFun/Pods/Alamofire/Source/MultipartFormData.swift:348-364 | after a part was appended the second call gives no form of what is left |
| Multipart.StaleFlags | MovieFun/Pods/Alamofire/Source/MultipartFormData.swift:355-356 | flags set from before give a form if and only if none marks a part before the last as the last |
| Multipart.FormData.Append | MovieFun/Pods/Alamofire/Source/MultipartFormData.swift:332-335 | adds a part with both flags unset |
| Multipart.FormData.Encode | MovieFun/Pods/Alamofire/Source/MultipartFormData.swift:348-364 | marks the ends and returns the bytes of what is left of all parts in order, however the streams hand out their data, and leaves the streams read |
| Multipart.FormData.WriteEncodedData | MovieFun/Pods/Alamofire/Source/MultipartFormData.swift:374-398 | appends the very same bytes to the output and leaves the same state, however the streams hand out their data and whatever part of a buffer each write takes |
| Multipart.EncodePart | MovieFun/Pods/Alamofire/Source/MultipartFormData.swift:402-419 | one part with the boundaries its flags ask for |
| Multipart.EncodeBodyStream | MovieFun/Pods/Alamofire/Source/MultipartFormData.swift:432-455 | reads the rest of the stream for every chunking |
| Multipart.EncodeHeaders | MovieFun/Pods/Alamofire/Source/MultipartFormData.swift:421-430 | header lines in dictionary order and an empty line |
| Multipart.WriteBodyStream | MovieFun/Pods/Alamofire/Source/MultipartFormData.swift:476-500 | copies the rest of the stream for every chunking |
| Multipart.WriteBuffer | MovieFun/Pods/Alamofire/Source/MultipartFormData.swift:517-533 | writes the whole buffer for every sequence of partial writes |
| Multipart.WritePart | MovieFun/Pods/Alamofire/Source/MultipartFormData.swift:459-508 | one part, byte for byte as in memory |
| QueryReader.QueryReadBack | MovieFun/Pods/Alamofire/Source/ParameterEncoding.swift:206-235 | parsing a query gives one component for each boolean or text that the parameters hold, in order; each reads as that boolean or text, at any depth and under every encoding, and its key as the parameter's key and the names on the way |
| QueryReader.KeyReadBack | MovieFun/Pods/Alamofire/Source/ParameterEncoding.swift:209-217 | a key without an opening bracket and the names behind it are read back if and only if no name is empty or holds a closing bracket; without array brackets the array steps are lost |
| QueryReader.FlagReadBack | MovieFun/Pods/Alamofire/Source/ParameterEncoding.swift:113-123 | the text of a boolean reads as it: 0 and 1 as numbers, or the two words |
| QueryReader.FlagQueries | MovieFun/Pods/Alamofire/Source/ParameterEncoding.swift:216-228 | the query of one boolean is its escaped key, an equals sign and 1, 0, true or false |
| QueryReader.AllowedExactly | MovieFun/Pods/Alamofire/Source/ParameterEncoding.swift:246-251 | the bytes that are kept are those of the query characters without the general and the sub-delimiters |
| QueryReader.EscapedByte | MovieFun/Pods/Alamofire/Source/ParameterEncoding.swift:266-285 | any other byte becomes a percent sign and two capital hexadecimal digits |
| QueryStrings.QueryParsesBack | MovieFun/Pods/Alamofire/Source/ParameterEncoding.swift:288-296 | splitting a query at its separators and percent-decoding gives exactly the unescaped components, if and only if there are any |
| QueryStrings.Query | MovieFun/Pods/Alamofire/Source/ParameterEncoding.swift:288-296 | the query is the escaped components of all parameters in order, and parses back to them |
| QueryStrings.QueryComponents | MovieFun/Pods/Alamofire/Source/ParameterEncoding.swift:206-230 | one component for each leaf of a value, left to right, whose key spells the way to the leaf |
| QueryStrings.EscapeUndone | MovieFun/Pods/Alamofire/Source/ParameterEncoding.swift:246-286 | percent-decoding undoes escaping on every string |
| QueryStrings.EscapedBytes | MovieFun/Pods/Alamofire/Source/ParameterEncoding.swift:247-251 | escaping leaves nothing but unreserved characters, slash, question mark and percent signs |
| QueryStrings.EscapeInBatches | MovieFun/Pods/Alamofire/Source/ParameterEncoding.swift:266-283 | escaping fifty characters at a time is escaping the whole string |
| QueryStrings.QueryDeterminesLeaves | MovieFun/Pods/Alamofire/Source/ParameterEncoding.swift:206-296 | with brackets for arrays, and keys free of brackets and not empty below the top, two sets of parameters have the same query if and only if they have the same leaves, in order, under the same keys and ways |
| QueryStrings.QueryInjective | MovieFun/Pods/Alamofire/Source/ParameterEncoding.swift:288-296 | two lists of components have the same query if and only if they are the same |
| QueryStrings.NestingIsAmbiguous | MovieFun/Pods/Alamofire/Source/ParameterEncoding.swift:209-212 | a nested dictionary and a key that spells it have the same components and different leaves |
| QueryStrings.NameIsAmbiguous | MovieFun/Pods/Alamofire/Source/ParameterEncoding.swift:209-212 | so have two nested names and one name that spells them |
| QueryStrings.EmptyNameIsAmbiguous | MovieFun/Pods/Alamofire/Source/ParameterEncoding.swift:209-217 | so have an empty name and an array item |
| QueryStrings.NoBracketsIsAmbiguous | MovieFun/Pods/Alamofire/Source/ParameterEncoding.swift:96-106 | without brackets, so have an array of one item and the item |
| ChatSections.IncrementalIsRebuild | MovieFun/MovieFun/View/Chat/ChatController.swift:163-217 | showing arriving messages one at a time gives the headers, sides, rows and links of a rebuild from the whole list, if and only if they arrive in the order of their dates after those fetched |
| ChatSections.IncrementalIsSomeRebuild | MovieFun/MovieFun/View/Chat/ChatController.swift:163-217 | the same without assuming that dates tell messages apart: it gives one of the possible rebuilds if and only if messages arrive in the order of their dates |
| ChatSections.ClockGoesBack | MovieFun/MovieFun/Helper/Utils.swift:42-46 | of two moments in order, the application's clock reads the second as earlier exactly when both fall on one day, noon lies between them, and the second is less far behind noon than the first is behind midnight |
| ChatSections.NoonReorders | MovieFun/MovieFun/View/Chat/ChatController.swift:78-90 | two own messages look the same after a restart unless they were sent around noon that way |
| ChatSections.AddedRowBuilds | MovieFun/MovieFun/View/Chat/ChatController.swift:163-182 | adding a row to the screen is building the screen from the groups with the message added |
| ChatSections.SectionsInjective | MovieFun/MovieFun/View/Chat/ChatController.swift:184-217 | the screen shows which messages it was built from and how they were grouped |
| ChatSections.SectionContents | MovieFun/MovieFun/View/Chat/ChatController.swift:184-217 | a section is a header with the day of its first message and a row for each message in order, own ones right and others left, each linked to the one before it |
| ChatSections.NewChangesAdded | MovieFun/MovieFun/View/Chat/ChatController.swift:45-76 | changes that share sender and time with no held message nor with each other are all added, in order |
| ChatSections.AddedOnce | MovieFun/MovieFun/View/Chat/ChatController.swift:219-228 | only changes are added; no added one shares sender and time with a message before it, and every change shares them with some message that is held afterwards |
| ChatSections.ClockFace | MovieFun/MovieFun/Helper/Utils.swift:42-46 | the application's clock shows the right day and the right time on a twelve-hour face, always in the first half of the day |
| ChatSections.ReplayedChanges | MovieFun/MovieFun/View/Chat/ChatController.swift:219-228 | changes heard again, in any order and number, add nothing after a fetch, and all of themselves without one |
| ChatSections.EchoesAddNothing | MovieFun/MovieFun/View/Chat/ChatController.swift:219-228 | changes that match held messages by account and date add nothing |
| ChatGroups.IncrementalExact | MovieFun/MovieFun/View/Chat/ChatController.swift:163-182 | adding messages one at a time keeps one sorted group a day if and only if they come in the order of their dates |
| ChatGroups.GroupingUnique | MovieFun/MovieFun/View/Chat/ChatController.swift:230-250 | a list whose dates identify its messages has one grouping |
| ChatGroups.CreateGroupMessage | MovieFun/MovieFun/View/Chat/ChatController.swift:230-250 | the groups are a permutation of the dated messages, one group a day, days in order, each group in order |
| ChatController.Controller.BuildViewModels | MovieFun/MovieFun/View/Chat/ChatController.swift:184-217 | replaces the sections by those of the groups |
| ChatController.Controller.AddRowViewModel | MovieFun/MovieFun/View/Chat/ChatController.swift:163-182 | appends to the last section or starts one, so that the screen shows the extended groups |
| ChatController.Controller.Start | MovieFun/MovieFun/View/Chat/ChatController.swift:28-29 | the next batch of changes is to be dropped, before the list is fetched |
| ChatController.Controller.Fetched | MovieFun/MovieFun/View/Chat/ChatController.swift:32-40 | a fetched list is shown as a grouping of it; an error changes nothing; which batch is dropped is not touched |
| ChatController.Controller.Changed | MovieFun/MovieFun/View/Chat/ChatController.swift:45-76 | the first batch is dropped; of the others, sorted by date, the unknown ones are held and shown; all of them if each differs from the held ones and from one another in sender or time |
| ChatController.Controller.CheckExistMessage | MovieFun/MovieFun/View/Chat/ChatController.swift:219-228 | whether a held message has the same account and date |
| ChatController.Controller.AddMessage | MovieFun/MovieFun/View/Chat/ChatController.swift:78-90 | an own message is held and shown at once |

## Left out

- RoundTrip.MessageRoundTrip: is stated for encodings shorter than 2^32 bytes, since the decoder reads lengths as 32-bit varints.
- Reencode.RelayedExactly: is stated for tables where no proto3 submessage holds a fixed-count array of strings or structs. The presence rule looks at the memory of such an array, with bytes behind a NUL or in unset optional fields that do not survive.
- Encoder.EncodeField: refuses a fixed-count array that was never filled, where the code writes whatever is in memory.
- Refcount.LastReferenceReported: assumes that threads call only while they hold a reference, and may hand references to each other; without that the code aborts or reports early, as it should.
- nanopb, memory: `PB_ENABLE_MALLOC`, pointer fields, `pb_release`; heap allocation is off by default.
- nanopb, callbacks and extension fields: they call code outside the repository.
- nanopb, streams: memory buffers and sizing streams only, no custom stream callbacks and no `PB_BUFFER_ONLY`.
- nanopb, error messages: only success and failure are modelled.
- nanopb, after a failed decode: the struct's content is left open, except for what the position of the stream says.
- nanopb, struct layout: alignment padding and packed structs; nested structs are values copied in and out of their slot, C strings are the bytes before the NUL, array elements past the count and the data of an unset union are not kept. Whether the first bytes of a fixed-count array are zero is taken to depend on its elements alone, not on bytes after a NUL or in padding. The decoder's defaults write `sizeof(pb_size_t)` bytes even where a fixed-count array is shorter; what that does to the bytes behind the array is not modelled.
- nanopb, overflow: sums of sizes are assumed to fit `size_t` (`Encoder.ReadableMsg`), and no message has 2^32 required fields.
- nanopb, wrappers: the delimited and null-terminated variants, which add easy members.
- Reference counts: memory ordering; each atomic action takes effect at once.
- DTLS: MTU queries, retransmission itself, non-DTLS connections. The clock is past the epoch and within signed 64-bit seconds.
- Multipart: file checks, MIME types, content lengths and stream errors. Each input stream belongs to one part, and a stream that was read to its end gives nothing when it is opened again; the output stream always has space. The order of a header dictionary is a parameter.
- Query strings: applying the query to a request, the fallback for strings that cannot be escaped, and the comparison that sorts the keys; parameters are given in sorted order, numbers and other values by their text.
- Chat: images and their upload, the assets list, whether a message was sent, missing account ids, and what the date formatter does, except that it reads hours of a 12-hour pattern without a half of the day as those before noon; daylight saving and a user setting for 24 hours are left out. The day of a date is a given monotone function, and the header's text stands for the day. A message without a date traps in the code where the model has a precondition.
- MovieFun's other screens, network services, Firebase, Realm and the rest of Alamofire and BoringSSL: user interface and clients of code that is not in the repository.
