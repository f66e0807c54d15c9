# OutgameServer verification

A Dafny model of the parts of this repository where a mistake is hardest to see, with proofs about
them. Nothing in this directory is compiled into the server.

**The message codec.** `S2C_LoginResponse`, `S2C_FindFriendResponse`, `FriendInfo` and `BoolValue` as
the generated code in `PacketLibrary/Protocol.pb.cc` and the bundled protobuf runtime handle them. Two
layers. The lower one is pure: varints (`Varint`), records with nested groups (`WireFormat`), parsing as
one record per turn (`RecordParsing`), the four messages as values (`Messages`) and UTF-8 (`Utf8`). About
it are proved: the bytes themselves, with the numbers of the format written out (`WireLayout`);
concatenation is merge (`ConcatTheorems`); exact round trips and the merge monoid (`RoundTripTheorems`);
what the order of records means (`RecordOrder`); sizes (`Sizes`); how much longer the serialisation of
accepted input can be (`Growth`), and up to what length input survives serialising and parsing again
(`NormalForms`). The upper layer is imperative and is proved to agree with the lower one on every input:
readers and writers over a byte array (`ArrayReader`, `ArrayWriter`), and message objects updated in place
(`MessageObjects`, `LoginResponse`, `FindFriendResponse`), with the inner loop for runs of one tag.
`MessageLite` has the calls that work on strings of bytes, `AnyUrl` the type URLs of `Any`.

**Ownership of sub-messages.** `Ownership` is a state machine over whole programs that use the generated
class. In `OwnershipObjects` the methods on the heap, whole-message clear, merge, copy and parse among them,
are proved to take its steps, and a program given as any script of calls is proved to take exactly the steps
of its script.

**Game rooms.** `GameRooms` and `RoomManager` are the rooms, their member maps, the users' back pointers
and the registry of codes as values. `RoomRuns` has runs of requests, safe and unsafe, and how they bring
the server down; `RoomFailures` leads from a new server to a full room and to each failure.
`GameRoomObjects` has the classes, proved to take the same steps and to fail where the values do.

**Binding masks.** `BindMask` is `DBBind`'s check that everything has been bound.

Some things the proofs show about the code as it is:

- `SerializeToString` accepts messages up to INT_MAX bytes, while a length prefix is readable only up to
  INT_MAX - 16. A message with a part in between serialises and cannot be parsed back, so the round trip is
  proved under the exact condition.
- Serialising what was just parsed can fail, because a negative number can be sent in five bytes and is
  written in ten. Two things go wrong. The whole can pass INT_MAX bytes: list elements of eight bytes come
  back in thirteen, so S2C_LoginResponse survives for all inputs of up to 1,321,528,399 bytes and no further,
  FriendInfo up to INT_MAX - 5. Or a part can pass the limit of its length prefix, which for
  S2C_FindFriendResponse comes first, above INT_MAX - 15 bytes. A BoolValue never grows, so it always
  survives. Each limit is proved with an input one byte longer that fails.
- `QuitGameRoom` follows the user's back pointer without a check: a quit from a user in no room brings the
  server down.
- `JoinGameRoom` and `CreateGameRoom` do not look at the room the user is already in, and `LogoutUser` does
  not leave it. Each keeps members and back pointers consistent exactly when the user is in no other room,
  respectively in no room. Where it does not, an entry can outlive its user, and the destructor of the room
  follows it and brings the server down. For each of the three a run from a new server to that failure is
  given.

`GameRoomManager.cpp` and `UserManager.cpp` in `OutgameServer` are not UTF-8 text; rows about them cite the
declaration, or the room code they run, and give the lines of the body in the last column.

Names of logged-in users are taken to be distinct, as the database build ensures by refusing a second login;
the build without a database does not check it.

## Model

| member | source | states |
|---|---|---|
| Varint.DecodeEncode | ImportLibrary/Include/google/protobuf/parse_context.h:527-541 | a varint reader with room for `max` bytes gets the written value back exactly when the encoding has at most `max` bytes, whatever follows it |
| Varint.DecodeExtends | ImportLibrary/Include/google/protobuf/parse_context.h:527-541 | a varint that was read is read the same when more bytes are appended |
| Varint.ReadTagEncode | ImportLibrary/Include/google/protobuf/parse_context.h:550-566 | every 32-bit tag that is written is read back |
| Varint.ReadSizeEncode | ImportLibrary/Include/google/protobuf/parse_context.cc:363-381 | a length prefix is read back if and only if it is at most INT_MAX - 16; every other length fails to read |
| Varint.ReadVarint64Encode | ImportLibrary/Include/google/protobuf/parse_context.cc:339-350 | every 64-bit value, negatives as ten bytes included, is read back |
| Varint.ReadInt32 | ImportLibrary/Include/google/protobuf/parse_context.cc:320-337 | an int32 field read with the 32-bit reader (which only skips bytes six to ten) and with the 64-bit reader ends at the same place with the same value |
| WireFormat.RecordRoundTrip | ImportLibrary/Include/google/protobuf/parse_context.h:794-838 | a record, nested groups included, survives writing and reading if and only if it is well formed (field number, width, length and nesting limits) |
| WireFormat.ReadRecordEncode | ImportLibrary/Include/google/protobuf/unknown_field_set.cc:324-328 | reading inverts writing for every well-formed record, whatever bytes follow |
| WireFormat.ReadRecordTooLong | ImportLibrary/Include/google/protobuf/parse_context.cc:377-379 | a payload within sixteen bytes of INT_MAX, or longer, makes the record unreadable |
| WireFormat.ReadRecordExtends | ImportLibrary/Include/google/protobuf/parse_context.h:794-838 | a record that was read is read again, unchanged, when more bytes are appended |
| WireFormat.ReadRecordWf | ImportLibrary/Include/google/protobuf/unknown_field_set.cc:284-316 | whatever the bytes, an accepted record is well formed and its groups stay within the nesting limit |
| RecordParsing.ParseStream | PacketLibrary/Protocol.pb.cc:1545-1606 | streaming: for any accepted x and any y, parsing x followed by y is parsing x and then parsing y into the result |
| RecordParsing.ParseEncoded | PacketLibrary/Protocol.pb.cc:1545-1606 | parsing the encoding of any well-formed records applies exactly those records in order, then goes on with what follows |
| RecordParsing.ParseSwap | PacketLibrary/Protocol.pb.cc:1545-1606 | two adjacent records that commute on the message may be exchanged, in whatever (possibly overlong) form they are encoded |
| WireLayout.VarintUnique | ImportLibrary/Include/google/protobuf/io/coded_stream.h:919-943 | what is written for a number is the one shortest string of seven-bit groups, low ones first, that is worth it; worth and shortest are defined without the writer |
| WireLayout.DecodeExact | ImportLibrary/Include/google/protobuf/parse_context.h:527-541 | the reader takes the bytes up to the first without a continuation bit and their worth, if that byte is among the first `max` |
| WireLayout.ReadersExact | ImportLibrary/Include/google/protobuf/parse_context.cc:320-381 | the four readers with their numbers: five bytes for tags and lengths, ten for values, 32 or 64 bits kept, no length above 2,147,483,631 |
| WireLayout.ReadersEndless | ImportLibrary/Include/google/protobuf/parse_context.cc:320-381 | without a byte that ends the varint all four readers fail |
| WireLayout.TwosComplement | ImportLibrary/Include/google/protobuf/io/coded_stream.h:1647-1650 | the 64-bit value sent for an int32 is the number itself or that plus 2^64, and the int32 read from a value is the one that agrees with it modulo 2^32 |
| WireLayout.RecordLayout | ImportLibrary/Include/google/protobuf/unknown_field_set.cc:284-316 | tag number times eight plus 0, 1, 2, 3 or 5, as a varint, and then the value: a varint, eight bytes, a length and bytes, fields and an end tag with 4, or four bytes |
| WireLayout.RefusedTags | ImportLibrary/Include/google/protobuf/parse_context.h:794-838 | field number zero, wire types six and seven and an end tag that is not the group's own are refused |
| WireLayout.BoolLayout | ImportLibrary/Include/google/protobuf/wrappers.pb.cc:1437-1455 | for every BoolValue the bytes are 8, 1 if it is true, and then the unknown fields |
| WireLayout.FriendLayout | PacketLibrary/Protocol.pb.cc:983-1011 | for every FriendInfo: 10, length and name if there is one; 16 and the state in two's complement of 64 bits if it is not zero; unknown fields |
| WireLayout.LoginLayout | PacketLibrary/Protocol.pb.cc:1608-1644 | for every S2C_LoginResponse: the sub-message under 10 if present, the friends under 18, the pending under 26, in order, each with its length; unknown fields |
| WireLayout.FindLayout | PacketLibrary/Protocol.pb.cc:2613-2647 | for every S2C_FindFriendResponse: the sub-messages under 10 and 18 if present, the number under 24 in two's complement if it is not zero; unknown fields |
| WireLayout.BoolRead | ImportLibrary/Include/google/protobuf/wrappers.pb.cc:1400-1415 | after the byte 8 every varint whose low 64 bits are not zero is read as true, others as false |
| WireLayout.NumberRead | PacketLibrary/Protocol.pb.cc:954-961 | after the byte 16 (24 in S2C_FindFriendResponse) a varint of any length up to ten is read as the int32 with the same low 32 bits |
| WireLayout.NameRead | PacketLibrary/Protocol.pb.cc:943-953 | a name is taken as it is if it is UTF-8, and refused otherwise |
| WireLayout.DepthExact | ImportLibrary/Include/google/protobuf/io/coded_stream.cc:89-89 | any of the four messages accepts a hundred groups inside one another and no more |
| WireLayout.DepthInside | ImportLibrary/Include/google/protobuf/parse_context.h:661-669 | inside a sub-message, in any of their fields, it is ninety-nine |
| Utf8.ValidExact | ImportLibrary/Include/google/protobuf/stubs/structurally_valid.cc:125-345 | the strings of the grammar are exactly the shortest encodings of sequences of Unicode scalar values |
| Utf8.TableDecidesGrammar | ImportLibrary/Include/google/protobuf/stubs/structurally_valid.cc:125-345 | the byte-indexed state table accepts a string if and only if it matches the grammar of section 4 of RFC 3629 (no surrogates, no overlong forms, nothing above U+10FFFF) |
| Utf8.IsStructurallyValid | ImportLibrary/Include/google/protobuf/stubs/structurally_valid.cc:496-562 | the scan, an ASCII skip followed by a run of the table, returns true exactly for strings of that grammar |
| ConcatTheorems.BoolConcatIsMerge | ImportLibrary/Include/google/protobuf/wrappers.pb.cc:1486-1496 | concatenation is merge, for BoolValue |
| ConcatTheorems.FriendConcatIsMerge | PacketLibrary/Protocol.pb.cc:1049-1062 | concatenation is merge, for FriendInfo: string, sign-extended number and unknown fields |
| ConcatTheorems.FriendListMerge | PacketLibrary/Protocol.pb.cc:1619-1633 | a serialised list of any length, parsed into any message, appends its elements in order to the list its field number names |
| ConcatTheorems.LoginConcatIsMerge | PacketLibrary/Protocol.pb.cc:1691-1703 | concatenation is merge: for any accepted x and any serialisable b, parsing x followed by the bytes of b is merging b into the message x parses to |
| ConcatTheorems.FindConcatIsMerge | PacketLibrary/Protocol.pb.cc:2692-2708 | the same for two optional sub-messages and a number |
| ConcatTheorems.ExplicitZeroOverwrites | PacketLibrary/Protocol.pb.cc:954-961 | why the second part must be a serialisation: an explicit zero on the wire overwrites, merging skips it, and the two agree exactly when the state was already zero |
| RoundTripTheorems.LoginConcatExact | PacketLibrary/Protocol.pb.cc:1691-1703 | for every well-formed b, appending its bytes to any accepted x merges if every nested message fits its length prefix, and fails otherwise |
| RoundTripTheorems.FindConcatExact | PacketLibrary/Protocol.pb.cc:2692-2708 | the same exact condition for S2C_FindFriendResponse |
| RoundTripTheorems.BoolAcceptedWf | ImportLibrary/Include/google/protobuf/wrappers.pb.cc:1400-1435 | whatever bytes are parsed into a well-formed BoolValue, an accepted result is well formed |
| RoundTripTheorems.FriendAcceptedWf | PacketLibrary/Protocol.pb.cc:936-981 | an accepted FriendInfo has a UTF-8 name, a name short enough to read back and only unhandled unknown fields |
| RoundTripTheorems.LoginAcceptedWf | PacketLibrary/Protocol.pb.cc:1545-1606 | every accepted S2C_LoginResponse, with everything nested in it, is well formed: UTF-8, unhandled unknown fields, nesting; lengths are the subject of NormalForms |
| RoundTripTheorems.FindAcceptedWf | PacketLibrary/Protocol.pb.cc:2560-2611 | the same for S2C_FindFriendResponse; lengths are the subject of NormalForms |
| RoundTripTheorems.MergeBoolMonoid | ImportLibrary/Include/google/protobuf/wrappers.pb.cc:1486-1496 | merging is associative and the cleared message is its unit on both sides |
| RoundTripTheorems.MergeFriendMonoid | PacketLibrary/Protocol.pb.cc:1049-1062 | the same for FriendInfo |
| RoundTripTheorems.MergeLoginMonoid | PacketLibrary/Protocol.pb.cc:1691-1703 | the same where an absent sub-message, a present one and two lists combine |
| RoundTripTheorems.MergeFindMonoid | PacketLibrary/Protocol.pb.cc:2692-2708 | the same for two optional sub-messages |
| RoundTripTheorems.BoolRoundTrip | ImportLibrary/Include/google/protobuf/wrappers.pb.cc:1400-1455 | parsing a serialised BoolValue gives it back if and only if its unknown fields are well formed and unhandled |
| RoundTripTheorems.FriendRoundTrip | PacketLibrary/Protocol.pb.cc:936-1011 | the round trip holds if and only if the name is UTF-8 and short enough and the unknown fields are unhandled |
| RoundTripTheorems.LoginRoundTrip | PacketLibrary/Protocol.pb.cc:1545-1644 | the round trip of S2C_LoginResponse, lists of any length and present-but-false sub-messages included, holds if and only if the message is well formed and its nested messages fit their length prefixes |
| RoundTripTheorems.FindRoundTrip | PacketLibrary/Protocol.pb.cc:2560-2647 | the same if-and-only-if for S2C_FindFriendResponse, negative numbers included |
| RoundTripTheorems.LoginUnfitFails | ImportLibrary/Include/google/protobuf/parse_context.cc:377-379 | one nested message that does not fit makes the whole parse fail, not just differ |
| RecordOrder.FriendRecordsCommute | PacketLibrary/Protocol.pb.cc:936-981 | two adjacent records may trade places, whatever follows, if and only if they are for different fields or one is not handled and the other is, or (for one field) say the same or hold a name that is refused, or (neither handled) are the same record |
| RecordOrder.LoginRecordsCommute | PacketLibrary/Protocol.pb.cc:1545-1606 | the exact condition for S2C_LoginResponse: two elements of one list must be equal or one of them refused; two sub-message payloads must end on the same value and have unhandled records that commute, or one of them is refused; two unhandled records must be the same; all others may always trade places |
| RecordOrder.FindRecordsCommute | PacketLibrary/Protocol.pb.cc:2560-2611 | the exact condition for S2C_FindFriendResponse: a condition on the two records alone, for its two sub-messages (last value, last name, last number) and its number |
| RecordOrder.BoolRecordsCommute | ImportLibrary/Include/google/protobuf/wrappers.pb.cc:1400-1435 | the exact condition for BoolValue: two values must be equal as booleans |
| RecordOrder.ReadThenApply | PacketLibrary/Protocol.pb.cc:1545-1606 | parsing is reading the records, which does not depend on the message, and then applying them one by one |
| RecordOrder.BoolRecordsApply | ImportLibrary/Include/google/protobuf/wrappers.pb.cc:1400-1435 | what any records make of a BoolValue: the last value among them, and the unhandled ones in order |
| RecordOrder.FriendRecordsApply | PacketLibrary/Protocol.pb.cc:936-981 | what any records make of a FriendInfo: refused exactly for a name that is not UTF-8, else the last name, the last number, and the unhandled ones in order |
| RecordOrder.UnknownRecordsKeepOrder | PacketLibrary/Protocol.pb.cc:1594-1602 | two records that are not handled are kept in wire order, so an exchange shows exactly when they differ |
| RecordOrder.ListRecordsKeepOrder | PacketLibrary/Protocol.pb.cc:1558-1585 | two records of the same list end up as its last two elements in wire order, and one bad element fails the parse |
| RecordOrder.BoolLastWins | ImportLibrary/Include/google/protobuf/wrappers.pb.cc:1400-1435 | of two values on the wire the last decides: the earlier record might as well not be there |
| RecordOrder.FriendLastWins | PacketLibrary/Protocol.pb.cc:936-981 | of two names or two numbers the last decides, but an earlier name that is not UTF-8 fails the parse |
| RecordOrder.FindLastWins | PacketLibrary/Protocol.pb.cc:2560-2611 | the same for the number of S2C_FindFriendResponse |
| RecordOrder.LoginRecordsJoin | PacketLibrary/Protocol.pb.cc:1551-1557 | two records for the sub-message parse as one record with the payloads joined, if the first payload is accepted, and fail otherwise |
| RecordOrder.FindRecordsJoin | PacketLibrary/Protocol.pb.cc:2566-2580 | the same for both sub-messages of S2C_FindFriendResponse |
| Growth.RecordShrinks | ImportLibrary/Include/google/protobuf/parse_context.h:794-838 | a record, groups and overlong varints included, is written back in at most the bytes it was read from |
| Growth.BoolShrinks | ImportLibrary/Include/google/protobuf/wrappers.pb.cc:1400-1455 | parsing into a BoolValue lengthens its serialisation by at most the bytes parsed |
| Growth.FriendWeight | PacketLibrary/Protocol.pb.cc:936-1011 | the same for FriendInfo when a negative number is counted as the six bytes it must have taken |
| Growth.FriendLength | PacketLibrary/Protocol.pb.cc:983-1011 | the serialisation is that count, and five bytes more exactly for a negative number |
| Growth.LoginGrows | PacketLibrary/Protocol.pb.cc:1545-1644 | whatever is accepted, lists of any length included: the serialisation of the message has at most five bytes more for every eight bytes of input |
| Growth.FindGrows | PacketLibrary/Protocol.pb.cc:2560-2647 | whatever is accepted, several records merging into one sub-message included: the serialisation is at most eleven bytes longer |
| Growth.LoginShortFits | PacketLibrary/Protocol.pb.cc:1545-1644 | accepted input of at most INT_MAX - 15 bytes parses to a message whose nested parts all fit their prefixes |
| Growth.FindShortFits | PacketLibrary/Protocol.pb.cc:2560-2647 | the same where several records merge into one sub-message |
| NormalForms.NormalForm | ImportLibrary/Include/google/protobuf/message_lite.cc:446-465 | for all four messages and every accepted input: the message is refused by SerializeToString exactly when it is over INT_MAX bytes; if not, those bytes parse to the same message exactly when the nested parts, which may have grown, fit their prefixes, and fail otherwise |
| NormalForms.NormalisesExact | ImportLibrary/Include/google/protobuf/message_lite.cc:446-465 | SerializeToString after ParseFromString succeeds and parses to the same message if and only if the whole is at most INT_MAX bytes and the parts fit |
| NormalForms.BoolNormalises | ImportLibrary/Include/google/protobuf/wrappers.pb.cc:1400-1455 | a BoolValue survives from every input of up to INT_MAX bytes |
| NormalForms.FriendNormaliserExact | PacketLibrary/Protocol.pb.cc:936-1011 | all inputs of up to n bytes survive as FriendInfo if and only if n is at most INT_MAX - 5 |
| NormalForms.FriendLongFails | PacketLibrary/Protocol.pb.cc:983-991 | an input of INT_MAX - 4 bytes, the longest name and -1 sent in five bytes, is accepted as FriendInfo and does not serialise |
| NormalForms.LoginNormaliserExact | PacketLibrary/Protocol.pb.cc:1545-1644 | all inputs of up to n bytes survive as S2C_LoginResponse if and only if n is at most 1,321,528,399: the size of the whole is what fails first |
| NormalForms.LoginManyFail | ImportLibrary/Include/google/protobuf/message_lite.cc:446-465 | an accepted input of 1,321,528,400 bytes, list elements of eight bytes that are written back in thirteen, does not serialise |
| NormalForms.FindNormaliserExact | PacketLibrary/Protocol.pb.cc:2560-2647 | all inputs of up to n bytes survive as S2C_FindFriendResponse if and only if n is at most INT_MAX - 15: a part is what fails first |
| NormalForms.LoginLongFails | ImportLibrary/Include/google/protobuf/parse_context.cc:377-379 | an accepted input of INT_MAX - 14 bytes, one list element with nothing merged, is written back as bytes the parser refuses: -1 sent in five bytes is written in ten |
| NormalForms.FindLongFails | ImportLibrary/Include/google/protobuf/parse_context.cc:377-379 | the same bytes, read as an S2C_FindFriendResponse |
| Sizes.VarintSizeExact | ImportLibrary/Include/google/protobuf/io/coded_stream.h:1720-1728 | the multiply-and-shift formula on the position of the top bit equals the number of bytes the writing loop produces, for every 64-bit value |
| Sizes.UnknownSizeAgrees | ImportLibrary/Include/google/protobuf/wire_format.cc:266-306 | the size computed for unknown fields, groups included, is the number of bytes written for them, up to the two-gigabyte limit |
| Sizes.ByteSizeBoolAgrees | ImportLibrary/Include/google/protobuf/wrappers.pb.cc:1457-1471 | the size pass is exact up to two gigabytes and over the limit exactly when the true length is, although prefixes are measured after a cut to 32 bits |
| Sizes.ByteSizeFriendAgrees | PacketLibrary/Protocol.pb.cc:1013-1034 | the same for FriendInfo, ten-byte negative numbers and left-out defaults included |
| Sizes.ByteSizeLoginAgrees | PacketLibrary/Protocol.pb.cc:1646-1676 | the same through nested length prefixes, although sizes are summed in another order than bytes are written |
| Sizes.ByteSizeFindAgrees | PacketLibrary/Protocol.pb.cc:2649-2677 | the same for S2C_FindFriendResponse |
| ArrayReader.ReadTagAt | ImportLibrary/Include/google/protobuf/parse_context.cc:352-361 | the in-place reader, with its 32-bit wrap-around of (byte - 1) << 7i, reads what the specification reads and ends where it ends, on every input |
| ArrayReader.ReadSizeAt | ImportLibrary/Include/google/protobuf/parse_context.cc:363-381 | the same for length prefixes, whose fifth byte is read apart: same sizes, same refusals |
| ArrayReader.ReadVarint64At | ImportLibrary/Include/google/protobuf/parse_context.cc:339-350 | the same for 64-bit varints with wrap-around at the tenth byte |
| ArrayReader.ReadVarint32At | ImportLibrary/Include/google/protobuf/parse_context.cc:320-337 | the same for 32-bit varints, whose bytes six to ten are skipped unread |
| ArrayReader.ReadBytesAt | ImportLibrary/Include/google/protobuf/unknown_field_set.cc:295-301 | length-delimited payloads: accepted, refused and positioned as specified |
| ArrayReader.ReadBodyAt | ImportLibrary/Include/google/protobuf/parse_context.h:794-838 | one unknown record read in place, by wire type, is the specified one |
| ArrayReader.ReadGroupAt | ImportLibrary/Include/google/protobuf/parse_context.h:840-856 | a group read in place ends at its own end tag or fails, exactly as specified, and terminates |
| ArrayWriter.WriteVarint | ImportLibrary/Include/google/protobuf/io/coded_stream.h:919-943 | the loop that adds continuation bits after the fact leaves exactly the encoding at the given place and touches no other byte |
| ArrayWriter.WriteFields | ImportLibrary/Include/google/protobuf/wire_format.cc:192-228 | unknown fields are written in order, nested groups included, and nothing else in the array changes |
| ArrayWriter.ComputeUnknownFieldsSize | ImportLibrary/Include/google/protobuf/wire_format.cc:266-306 | the accumulating loop returns the specified size |
| MessageObjects.BoolValue.constructor | ImportLibrary/Include/google/protobuf/wrappers.pb.cc:1365-1367 | a new BoolValue is empty |
| MessageObjects.BoolValue.Copy | ImportLibrary/Include/google/protobuf/wrappers.pb.cc:1358-1363 | a copy has equal contents |
| MessageObjects.BoolValue.Clear | ImportLibrary/Include/google/protobuf/wrappers.pb.cc:1390-1398 | clearing gives the empty message |
| MessageObjects.BoolValue.MergeFrom | ImportLibrary/Include/google/protobuf/wrappers.pb.cc:1486-1496 | merging in place is the value-level merge |
| MessageObjects.BoolValue.ByteSizeLong | ImportLibrary/Include/google/protobuf/wrappers.pb.cc:1457-1471 | the computed size is the specified one |
| MessageObjects.BoolValue.InternalSerialize | ImportLibrary/Include/google/protobuf/wrappers.pb.cc:1437-1455 | writes exactly the serialisation at the given place and changes no other byte |
| MessageObjects.BoolValue.InternalParse | ImportLibrary/Include/google/protobuf/wrappers.pb.cc:1400-1435 | on every byte range the parse loop accepts, rejects and computes what one record per turn does |
| MessageObjects.FriendInfo.constructor | PacketLibrary/Protocol.pb.cc:895-901 | a new FriendInfo is empty |
| MessageObjects.FriendInfo.Copy | PacketLibrary/Protocol.pb.cc:880-893 | a copy has equal contents |
| MessageObjects.FriendInfo.Clear | PacketLibrary/Protocol.pb.cc:925-934 | clearing gives the empty message |
| MessageObjects.FriendInfo.MergeFrom | PacketLibrary/Protocol.pb.cc:1049-1062 | merging in place is the value-level merge: set scalars win, unknown fields concatenate |
| MessageObjects.FriendInfo.CopyFrom | PacketLibrary/Protocol.pb.cc:1064-1069 | from any prior state the target becomes equal to the source, which is unchanged; copying to itself does nothing |
| MessageObjects.FriendInfo.ByteSizeLong | PacketLibrary/Protocol.pb.cc:1013-1034 | the computed size is the specified one |
| MessageObjects.FriendInfo.InternalSerialize | PacketLibrary/Protocol.pb.cc:983-1011 | writes exactly the serialisation, default values left out, and changes no other byte |
| MessageObjects.FriendInfo.InternalParse | PacketLibrary/Protocol.pb.cc:936-981 | the parse loop agrees with one record per turn on every input, UTF-8 refusal included |
| MessageObjects.CopyList | ImportLibrary/Include/google/protobuf/repeated_ptr_field.h:951-983 | a merged list consists of new objects with equal contents, in order |
| MessageObjects.ParseFriendAt | ImportLibrary/Include/google/protobuf/parse_context.h:661-669 | a nested message is parsed from exactly its own bytes, one level deeper |
| MessageObjects.WriteFriendMessage | PacketLibrary/Protocol.pb.cc:1619-1625 | a nested message is written with the tag and the length prefix its size pass computed |
| LoginResponse.S2C_LoginResponse.constructor | PacketLibrary/Protocol.pb.cc:1504-1506 | a new message is empty and owns nothing |
| LoginResponse.S2C_LoginResponse.HasSuccess | PacketLibrary/Protocol.pb.h:5759-5764 | says whether the sub-message is present, whatever value it holds |
| LoginResponse.S2C_LoginResponse.MutableSuccess | PacketLibrary/Protocol.pb.h:5809-5821 | returns the sub-message the message holds, or a new one that becomes its own; the rest is unchanged |
| LoginResponse.S2C_LoginResponse.AddFriend | PacketLibrary/Protocol.pb.h:5870-5877 | one new element at the end of the right list |
| LoginResponse.S2C_LoginResponse.ClearSuccess | PacketLibrary/Protocol.pb.cc:1474-1479 | the sub-message is freed and gone; the rest is unchanged |
| LoginResponse.S2C_LoginResponse.ReleaseSuccess | PacketLibrary/Protocol.pb.h:5787-5802 | the sub-message passes, alive and unchanged, to the caller |
| LoginResponse.S2C_LoginResponse.SetAllocatedSuccess | PacketLibrary/Protocol.pb.h:5822-5842 | the old sub-message is freed and the given one takes its place |
| LoginResponse.S2C_LoginResponse.Clear | PacketLibrary/Protocol.pb.cc:1530-1543 | afterwards the message is empty, owns nothing, and its old sub-message is freed |
| LoginResponse.S2C_LoginResponse.ParseFriendRun | PacketLibrary/Protocol.pb.cc:1558-1585 | the inner loop over a run of one tag, with its `ptr -= 1` and `ptr += 1`, and with seams answered either way, equals one record per turn: same message, position and failures |
| LoginResponse.S2C_LoginResponse.InternalParse | PacketLibrary/Protocol.pb.cc:1545-1606 | the whole parse loop accepts exactly what the specification accepts, computes the same message and stops at the limit |
| LoginResponse.S2C_LoginResponse.ParseFromString | ImportLibrary/Include/google/protobuf/message_lite.cc:139-151 | parsing from a string starts from an empty message with the default nesting limit and accepts only input that is used up |
| LoginResponse.S2C_LoginResponse.MergeFrom | PacketLibrary/Protocol.pb.cc:1691-1703 | merging in place is the value-level merge, the source is unchanged, and everything added is new |
| LoginResponse.S2C_LoginResponse.CopyFrom | PacketLibrary/Protocol.pb.cc:1705-1710 | from any prior state the target becomes equal to the source, the source is unchanged, a distinct target shares no object with it, and copying to itself does nothing |
| LoginResponse.S2C_LoginResponse.Copy | PacketLibrary/Protocol.pb.cc:1491-1502 | the copy constructor agrees with CopyFrom: an equal message that owns only new objects |
| LoginResponse.S2C_LoginResponse.Destroy | PacketLibrary/Protocol.pb.cc:1508-1518 | the destructor frees the sub-message and every list element |
| LoginResponse.S2C_LoginResponse.ByteSizeLong | PacketLibrary/Protocol.pb.cc:1646-1676 | the size pass returns the specified size |
| LoginResponse.S2C_LoginResponse.InternalSerialize | PacketLibrary/Protocol.pb.cc:1608-1644 | writes exactly the serialisation through nested messages and lists, and changes no other byte |
| LoginResponse.S2C_LoginResponse.SerializeToString | ImportLibrary/Include/google/protobuf/message_lite.cc:446-465 | succeeds exactly when the true serialisation is at most INT_MAX bytes, and then returns it, although it decides on the computed size alone |
| FindFriendResponse.S2C_FindFriendResponse.constructor | PacketLibrary/Protocol.pb.cc:2512-2517 | a new message is empty |
| FindFriendResponse.S2C_FindFriendResponse.MutableExist | PacketLibrary/Protocol.pb.h:6238-6250 | returns the sub-message held, or a new one; the rest is unchanged |
| FindFriendResponse.S2C_FindFriendResponse.MutableFriendInfo | PacketLibrary/Protocol.pb.h:6330-6342 | the same for the second sub-message |
| FindFriendResponse.S2C_FindFriendResponse.Clear | PacketLibrary/Protocol.pb.cc:2542-2558 | afterwards the message is empty and both old sub-messages are freed |
| FindFriendResponse.S2C_FindFriendResponse.InternalParse | PacketLibrary/Protocol.pb.cc:2560-2611 | the parse loop agrees with one record per turn on every input, truncation of the number to 32 bits included |
| FindFriendResponse.S2C_FindFriendResponse.MergeFrom | PacketLibrary/Protocol.pb.cc:2692-2708 | merging in place is the value-level merge and leaves the source unchanged |
| FindFriendResponse.S2C_FindFriendResponse.CopyFrom | PacketLibrary/Protocol.pb.cc:2710-2715 | the target becomes equal to the source and shares no sub-message with it, its old sub-messages are freed, and copying to itself changes no object |
| FindFriendResponse.S2C_FindFriendResponse.Copy | PacketLibrary/Protocol.pb.cc:2495-2510 | the copy constructor gives an equal message with new sub-messages |
| FindFriendResponse.S2C_FindFriendResponse.ByteSizeLong | PacketLibrary/Protocol.pb.cc:2649-2677 | the size pass returns the specified size |
| FindFriendResponse.S2C_FindFriendResponse.InternalSerialize | PacketLibrary/Protocol.pb.cc:2613-2647 | writes exactly the serialisation and changes no other byte |
| FindFriendResponse.S2C_FindFriendResponse.SerializeToString | ImportLibrary/Include/google/protobuf/message_lite.cc:446-465 | succeeds exactly up to the two-gigabyte limit and returns the serialisation |
| MessageLite.SerializeToStringExact | ImportLibrary/Include/google/protobuf/message_lite.cc:446-465 | for all four messages: refused if and only if the serialisation is longer than INT_MAX |
| MessageLite.SerializeThenParse | ImportLibrary/Include/google/protobuf/message_lite.cc:139-151 | a message that serialises parses back from its bytes if and only if it is readable (UTF-8, unhandled unknown fields, nesting and length limits) |
| MessageLite.SerializableButUnreadable | ImportLibrary/Include/google/protobuf/parse_context.cc:377-379 | a valid message that serialises and cannot be parsed back: the two length limits differ |
| Ownership.ConservedIsSeparate | PacketLibrary/Protocol.pb.h:5787-5842 | counting one owner for every object is the same as the owners being separate and complete |
| Ownership.StepSeparates | PacketLibrary/Protocol.pb.h:5787-5842 | every accessor, used on what the caller owns, keeps one owner per object and frees nothing twice |
| Ownership.RunConserves | PacketLibrary/Protocol.pb.cc:1474-1518 | over any sequence of creation, mutable, clear, release, set_allocated, delete and destruction every object is owned by exactly one message, or by the caller, or freed, and none is freed twice |
| Ownership.NothingLeaks | PacketLibrary/Protocol.pb.cc:1508-1518 | when the messages are gone and the caller owns nothing, every object ever made has been freed |
| Ownership.SetAllocatedExact | PacketLibrary/Protocol.pb.h:5822-5842 | set_allocated keeps single ownership if and only if the caller owned the object: not the message's own, not another's, not a freed one |
| Ownership.DeleteExact | PacketLibrary/Protocol.pb.cc:1474-1479 | deleting an object keeps single ownership if and only if the caller owned it |
| OwnershipObjects.TakeMutable | PacketLibrary/Protocol.pb.h:5809-5821 | on the objects: a message with a sub-message returns that one, an empty one a new object it then owns; every other owner and every list stays |
| OwnershipObjects.ClearOne | PacketLibrary/Protocol.pb.cc:1474-1479 | on the objects: what the message owned is freed, once; every other owner and every list stays |
| OwnershipObjects.ReleaseOne | PacketLibrary/Protocol.pb.h:5787-5802 | on the objects: what the message owned is now the caller's, alive, and was not the caller's before |
| OwnershipObjects.GiveOne | PacketLibrary/Protocol.pb.h:5822-5842 | on the objects: the old sub-message is freed, the given one passes from the caller to the message |
| OwnershipObjects.GiveNone | PacketLibrary/Protocol.pb.h:5822-5842 | on the objects: giving a null pointer frees the old sub-message and leaves the message without one |
| OwnershipObjects.AddElement | PacketLibrary/Protocol.pb.h:5870-5877 | on the objects: a new list element belongs to this message alone, and no sub-message changes hands |
| OwnershipObjects.DeleteObject | PacketLibrary/Protocol.pb.cc:1474-1479 | on the objects: the caller's own object is freed; no message is affected |
| OwnershipObjects.DestroyMessage | PacketLibrary/Protocol.pb.cc:1508-1518 | on the objects: the message's sub-message and list elements are freed, and every other message stays valid with its own |
| OwnershipObjects.ClearAll | PacketLibrary/Protocol.pb.cc:1530-1543 | on the objects: clearing a whole message frees its sub-message and empties its lists, and takes the Clear step |
| OwnershipObjects.MergeOne | PacketLibrary/Protocol.pb.cc:1691-1703 | on the objects: a merge takes the Mutable step if the source has a sub-message and none if not; the source's own stays its own |
| OwnershipObjects.CopyOne | PacketLibrary/Protocol.pb.cc:1705-1710 | on the objects: a copy from another message is a Clear and then a Mutable exactly if the source has a sub-message |
| OwnershipObjects.ParseOne | ImportLibrary/Include/google/protobuf/message_lite.cc:139-151 | on the objects: parsing, accepted or not, is a Clear and at most one Mutable; the new elements are this message's alone |
| OwnershipObjects.MakeCopy | PacketLibrary/Protocol.pb.cc:1491-1502 | on the objects: the copy constructor is a new message and a Mutable exactly if the source has a sub-message |
| OwnershipObjects.AllowedExact | PacketLibrary/Protocol.pb.h:5822-5842 | the rule for callers is exact: a call on messages that exist is forbidden only if it merges a message into itself, or gives away or deletes an object and thereby breaks single ownership |
| OwnershipObjects.AnyCall | PacketLibrary/Protocol.pb.cc:1474-1543 | any one call, of any accessor, list append, whole-message clear, merge, copy or parse, on any variables: the events are exactly those the call stands for, they extend the legal run, and the heap is where the run ends |
| OwnershipObjects.AnyProgram | PacketLibrary/Protocol.pb.cc:1474-1710 | a whole program given as the script of its calls: it plays every call, in order, up to the first that is not allowed, each with its own events, and then every object has one owner and nothing was freed twice |
| AnyUrl.LastSlash | ImportLibrary/Include/google/protobuf/any_lite.cc:82-82 | the position found holds a slash and no slash follows it; none is found only if there is none |
| AnyUrl.SuffixTestIsSplit | ImportLibrary/Include/google/protobuf/any_lite.cc:73-91 | the suffix test and the last-slash split agree on every URL if and only if the name is non-empty and slash-free |
| AnyUrl.ParseBuilt | ImportLibrary/Include/google/protobuf/any_lite.cc:42-50 | splitting a built URL gives back the name and the prefix with one separator guaranteed |
| AnyUrl.OptionalSlash | ImportLibrary/Include/google/protobuf/any_lite.cc:42-50 | prefixes p and p + "/" give the same URL if and only if p does not end in a slash |
| AnyUrl.BuiltIs | ImportLibrary/Include/google/protobuf/any_lite.cc:73-78 | a URL built for one name passes the test for another only if the names are equal |
| AnyUrl.PackThenUnpack | ImportLibrary/Include/google/protobuf/any.cc:48-62 | pack then unpack gives the message back into its own type, for any prefix, if and only if the message is readable |
| AnyUrl.UnpackOther | ImportLibrary/Include/google/protobuf/any.cc:57-62 | a packed message is accepted by the type test of its own type alone, and unpacking it into any other of the four fails |
| AnyUrl.UnpackedExact | ImportLibrary/Include/google/protobuf/any.cc:57-62 | for any URL and bytes, unpacking succeeds if and only if the URL ends in a slash and the type's name and the bytes parse, and gives what they parse to |
| AnyUrl.PackedUrl | ImportLibrary/Include/google/protobuf/any_lite.cc:42-50 | the URL of each of the four types, name written out, under any prefix with or without its slash |
| AnyUrl.PackedValue | ImportLibrary/Include/google/protobuf/any.cc:48-55 | the payload is the serialisation up to 2,147,483,647 bytes and empty above |
| AnyUrl.AnyMetadata.PackFrom | ImportLibrary/Include/google/protobuf/any.cc:48-55 | URL and payload are set as specified, the URL even when serialising is refused |
| AnyUrl.AnyMetadata.UnpackTo | ImportLibrary/Include/google/protobuf/any.cc:57-62 | for a target of type S2C_LoginResponse: a type mismatch returns false and leaves it untouched; otherwise the payload is parsed from scratch into it |
| BindMask.FullBitsExact | IOCPServerLibrary/DBBind.h:6-13 | the recursive constant is 2^C - 1 |
| BindMask.MaskBit | IOCPServerLibrary/DBBind.h:55-55 | bit i of a mask is set exactly when i was bound |
| BindMask.OrBitMask | IOCPServerLibrary/DBBind.h:55-55 | or-ing in one bit adds one index to the bound set and nothing else |
| BindMask.MaskFull | IOCPServerLibrary/DBBind.h:32-37 | a mask equals 2^n - 1 exactly when every index below n is in the set |
| BindMask.BindRun | IOCPServerLibrary/DBBind.h:51-103 | after any sequence of in-range binds, in any order and with repetitions, the mask is full exactly when every index was bound at least once |
| BindMask.DBBind.constructor | IOCPServerLibrary/DBBind.h:22-30 | nothing is bound |
| BindMask.DBBind.BindParam | IOCPServerLibrary/DBBind.h:51-56 | one more parameter is bound; columns are untouched |
| BindMask.DBBind.BindCol | IOCPServerLibrary/DBBind.h:78-83 | one more column is bound; parameters are untouched |
| BindMask.DBBind.Validata | IOCPServerLibrary/DBBind.h:32-37 | true exactly when every parameter and every column was bound at least once |
| GameRooms.StepExact | OutgameServer/GameRoom.cpp:7-58 | an event keeps both directions between member maps and back pointers, 1 to 4 members, the host's entry and one hosted room per user if and only if it is legal |
| GameRooms.RunExact | OutgameServer/GameRoom.cpp:7-58 | over any run of possible events, on any number of rooms, the invariant holds throughout if and only if every event is legal |
| GameRooms.RunKeepsInv | OutgameServer/GameRoom.cpp:7-58 | every legal run ends in a state with member maps and back pointers consistent, 1 to 4 members, the host listed, one hosted room per user |
| GameRooms.NoRoomsInv | OutgameServer/GameRoom.cpp:7-19 | users in no room, with distinct names, are a legal start |
| GameRooms.DestructResets | OutgameServer/GameRoom.cpp:21-29 | the destructor's loop over members resets exactly the users whose back pointer names the room: nobody in another room is touched |
| GameRooms.RoomHistory | OutgameServer/GameRoom.cpp:44-58 | over any run a room keeps its host, and is DESTROYING exactly if it was or the host has quit it |
| GameRooms.EnterEffect | OutgameServer/GameRoom.cpp:31-42 | a refused Enter changes nothing; an accepted one adds this user to this room and touches no other room or user |
| GameRooms.QuitEffect | OutgameServer/GameRoom.cpp:44-58 | a guest who quits is the one member that goes, a host stays listed, and no other room or user changes |
| GameRooms.EnterExact | OutgameServer/GameRoom.cpp:31-42 | Enter keeps the two sides consistent if and only if the room is full or the user is in no other room and hosts no other room |
| GameRooms.QuitExact | OutgameServer/GameRoom.cpp:44-58 | Quit keeps the two sides consistent if and only if the user is the host, is in no other room, or is in a room of its own; the source checks none of this |
| GameRooms.ConstructExact | OutgameServer/GameRoom.cpp:7-19 | making a room keeps them consistent if and only if the host is in no room and hosts none |
| GameRooms.StepOutcome | OutgameServer/GameRoom.cpp:7-58 | in any state, in order or not, and with the number four: what a constructor, an Enter, a Quit and a destructor change, namesakes included, and that nothing else changes |
| RoomManager.AnswerExact | OutgameServer/GameRoomManager.h:26-26 | in any state: INVALID_ROOM exactly without a room or for one that is going away, OVER_PLAYER exactly for four members or more in one that is not |
| RoomManager.LoginOutcome | OutgameServer/GameRoomManager.h:12-17 | a new user is known under its name and in no room, nothing else changes, and a logout undoes it (UserManager.cpp, lines 419-456) |
| RoomManager.LogoutOutcome | OutgameServer/GameRoomManager.h:12-17 | a user who logs out is gone, its name is nobody's, and every other user, room and code is as before (UserManager.cpp, lines 432-456) |
| RoomManager.DropOutcome | OutgameServer/GameRoomManager.h:12-17 | a dropped user is gone from users and rooms; the room it hosted goes with its code and the back pointers to it, another's room loses that entry only, and the rest stays (UserManager.cpp, lines 78-101) |
| RoomManager.MembersExactly | OutgameServer/GameRoom.h:35-42 | between requests the members of a room, host included, are exactly the users whose back pointer names it |
| RoomManager.CreateOutcome | OutgameServer/GameRoomManager.h:25-25 | the new room is found under its code, holds its host and nobody else, and every other room is as it was (GameRoomManager.cpp, lines 146-169) |
| RoomManager.JoinOutcome | OutgameServer/GameRoomManager.h:26-26 | for any user, in a room or not: INVALID_ROOM exactly for a code nobody registered, OVER_PLAYER exactly for four members, both without effect; SUCCESS adds this user to that room and changes nothing else (GameRoomManager.cpp, lines 171-205) |
| RoomManager.HostQuitOutcome | OutgameServer/GameRoomManager.h:27-27 | when the host quits, the room, its code and the back pointers of all its members go, and no other room, code or user is touched (GameRoomManager.cpp, lines 207-224) |
| RoomManager.GuestQuitOutcome | OutgameServer/GameRoomManager.h:27-27 | when a guest quits, exactly that member and that back pointer go |
| RoomManager.DropKeepsInv | OutgameServer/GameRoomManager.h:12-17 | dropping a dead session at any time (UserManager.cpp, lines 78-101) leaves no room with an entry for that user and no user with a pointer to a destroyed room |
| RoomManager.JoinExact | OutgameServer/GameRoomManager.h:26-26 | joining keeps the invariant if and only if it is refused or the user is in no other room; the source does not check this |
| RoomManager.CreateExact | OutgameServer/GameRoomManager.h:25-25 | creating keeps the invariant if and only if the user is in no room; the source does not check this |
| RoomManager.LogoutExact | OutgameServer/GameRoom.cpp:21-29 | logging out (UserManager.cpp, lines 432-456) keeps the invariant if and only if the user is in no room; otherwise the room's map keeps an entry for nobody |
| RoomRuns.ServeKeeps | OutgameServer/GameRoomManager.h:25-31 | whatever requests come, safe or not, until the server fails: codes and rooms correspond, and a back pointer names a room that exists and has an entry under that name |
| RoomRuns.FaultExact | OutgameServer/GameRoom.cpp:21-58 | while the invariant holds, exactly one request brings the server down: a quit from a user in no room |
| RoomRuns.ServeExact | OutgameServer/GameRoomManager.h:25-31 | a request keeps the server running and its invariant if and only if it is safe: created and logged out from no room, joined from no other room or refused, quit from a room |
| RoomRuns.RunExact | OutgameServer/GameRoomManager.h:25-31 | over any run of requests the server stays up with its invariant throughout if and only if every request is safe in the state it meets |
| RoomRuns.ServerRun | OutgameServer/GameRoomManager.h:25-31 | from an empty server, after any run of safe requests: members are exactly the users that point to the room, one to four of them with the host, and codes and rooms correspond one to one |
| RoomRuns.HostQuitExact | OutgameServer/GameRoom.cpp:21-29 | in any state, however it came about, a host's quit brings the server down if and only if the room has an entry for a user that is gone |
| RoomRuns.HostDropExact | OutgameServer/GameRoom.cpp:21-29 | so does dropping the host, under the same condition |
| RoomRuns.ServedAs | OutgameServer/GameRoomManager.h:25-31 | while the invariant holds every request is served by its own operation, and only a quit from no room is not |
| RoomRuns.LogoutFreesName | OutgameServer/GameRoomManager.h:12-17 | after a logout a login under the same name can arrive, from the same user or a new one |
| RoomRuns.LogoutThenHostQuits | OutgameServer/GameRoom.cpp:21-29 | after a logout, the quit of a room's host brings the server down if and only if the user had been in that room |
| RoomRuns.DropStrands | OutgameServer/GameRoom.cpp:31-58 | when a guest whose back pointer names another room is dropped, the room keeps an entry for that guest, who is gone, and nothing fails yet |
| RoomRuns.SecondJoinThenHostQuits | OutgameServer/GameRoom.cpp:21-42 | a guest joins a second room and is dropped, both served, and then the quit of the first room's host brings the server down |
| RoomRuns.SecondRoomThenHostQuits | OutgameServer/GameRoom.cpp:7-29 | a guest creates a room and is dropped, both served, and then the quit of the first room's host brings the server down |
| RoomFailures.OneRoomReached | OutgameServer/GameRoomManager.h:25-27 | safe requests from a new server lead to a room with a host and a guest |
| RoomFailures.NameFreed | OutgameServer/GameRoomManager.h:12-17 | from a new server: a login, a logout and a login under the same name are served, and only the second user is left |
| RoomFailures.FifthRefused | OutgameServer/GameRoomManager.h:25-26 | from a new server: a host and three guests are served, the room then holds exactly these four, and the fifth user is answered OVER_PLAYER and changes nothing |
| RoomFailures.QuitFromNoRoom | OutgameServer/GameRoomManager.h:27-27 | from a new server: a login and a quit bring it down (GameRoomManager.cpp, lines 213-214) |
| RoomFailures.LogoutFromRoom | OutgameServer/GameRoom.cpp:21-29 | from a new server: a guest logs out, the host quits, and the destructor fails on the guest's entry |
| RoomFailures.SecondRoomOfHost | OutgameServer/GameRoomManager.h:25-25 | from a new server: a host creates a second room and the invariant is lost |
| RoomFailures.JoinFromRoom | OutgameServer/GameRoom.cpp:21-29 | from a new server: a guest joins a second room and is dropped, the first host quits, and the destructor fails |
| RoomFailures.CreateFromRoom | OutgameServer/GameRoom.cpp:7-29 | from a new server: a guest creates a room and is dropped, the host of the first room quits, and the destructor fails |
| GameRoomObjects.GameRoom.constructor | OutgameServer/GameRoom.cpp:7-19 | a new room with its host as only member and a code of four digits; the host's back pointer is left alone |
| GameRoomObjects.GameRoom.GenerateRoomCode | OutgameServer/GameRoom.cpp:65-77 | four digits are appended to the code already there |
| GameRoomObjects.GameRoom.Enter | OutgameServer/GameRoom.cpp:31-42 | on the objects: the user is entered on both sides or, when it answers false, on neither, and every other room and user is untouched |
| GameRoomObjects.GameRoom.Quit | OutgameServer/GameRoom.cpp:44-58 | on the objects: the back pointer is reset and either the entry goes or, for the host, the room starts dying; nothing else changes |
| GameRoomObjects.GameRoom.Destroy | OutgameServer/GameRoom.cpp:21-29 | on the objects: it fails exactly if some entry leads to a user that is gone; otherwise, in whatever order, the members' back pointers are reset and no other user or room changes |
| GameRoomObjects.GameRoomManager.constructor | OutgameServer/GameRoomManager.h:29-32 | a new manager has no rooms and stands for the server with nobody on it |
| GameRoomObjects.GameRoomManager.ChooseCode | OutgameServer/GameRoom.cpp:60-77 | regenerating until the code is new (GameRoomManager.cpp, lines 154-161) ends, because codes only grow, with digits only |
| GameRoomObjects.GameRoomManager.CreateGameRoom | OutgameServer/GameRoomManager.h:25-25 | on the objects: registry, room and host end in the state of the value model; null is never returned (GameRoomManager.cpp, lines 146-169) |
| GameRoomObjects.GameRoomManager.JoinGameRoom | OutgameServer/GameRoomManager.h:26-26 | on the objects: the answer and the new state are those of the value model, for unknown codes, full rooms and success alike (GameRoomManager.cpp, lines 171-205) |
| GameRoomObjects.GameRoomManager.QuitGameRoom | OutgameServer/GameRoomManager.h:27-27 | on the objects, for any logged-in user: it fails exactly where the value model does, a null back pointer included, and otherwise ends in its state, the room destroyed and unregistered when its host leaves (GameRoomManager.cpp, lines 207-224) |

## Left out

- Buffer seams: the parser is modelled on one contiguous byte range. A read that would cross the limit fails at once, where the source reads into the slop region and fails at the next check. `DataAvailable` may answer no at any point.
- RecordParsing.ParseStream: speaks of inputs of any length, where the source keeps offsets in an `int`; for inputs over INT_MAX bytes the parsing theorems say nothing about the code.
- The state of a message after a failed parse, which callers must not use.
- Arenas, cached sizes, default instances, descriptors and reflection, and the `Swap` functions.
- The reuse of cleared elements by `RepeatedPtrField`: clearing a list drops its elements, and a new element is always a new object.
- `release` and `set_allocated` of S2C_FindFriendResponse, which repeat those of S2C_LoginResponse.
- OwnershipObjects.AnyProgram: follows the sub-messages of S2C_LoginResponse; those of S2C_FindFriendResponse, and the list elements as objects of the history, are not in it. List elements are proved to stay alive and unshared as long as a message lists them.
- The log line for a name that is not UTF-8 on serialising; the source writes the name all the same.
- A group's end tag or a zero tag outside a group, with which the source's loops return early: every caller refuses it, so it is a failure here.
- Fixed-width unknown values are kept as the bytes that are copied, not as numbers; sizes do not wrap at 2^64.
- AnyUrl.AnyMetadata.UnpackTo: takes targets of type S2C_LoginResponse only, because one method has one parameter type; the other three messages are covered on values by AnyUrl.PackThenUnpack.
- The other messages of the protocol, and the generated code for `Any` and `Api` themselves.
- Threads, locks and the time between the manager's snapshot and its insert; the order in which a dying room and a dropped user are freed; requests from sessions without a user, and creating a user object that was there before.
- User names that are not distinct, and room codes in use when a code is chosen from an outdated snapshot.
- Random digits are arbitrary digits. A regenerated code is longer than four digits, and nothing is claimed about its length beyond that.
- IP addresses, friend lists and user states; packets, sockets, the database connection and the length buffers of `DBBind`.
- BindMask.DBBind.Validata: does not cover counts above 31, where the shift leaves the range of a signed integer.
