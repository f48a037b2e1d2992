# nanopb, verified

nanopb 0.3.9.8 encodes C structs as Protocol Buffers messages and decodes them again, directed by
tables of field descriptors. This project models the library as it is built for the pod
(PB_FIELD_32BIT, PB_ENABLE_MALLOC, PB_NO_PACKED_STRUCTS on a 64-bit target: `pb_size_t` has 32 bits,
`size_t` and pointers have 64) and proves what its interface promises.

## How it is put together

Each part exists twice, and the two are proved equal:

- **Step by step.** `InputStream` and `OutputStream` hold the stream objects and their loops,
  `FieldIterator` the cursor over a table, `Encoder`, `Decoder`, `Releaser` and `RequiredFields` the
  functions of `pb_encode.c` and `pb_decode.c` with their loops, counters, substreams, early returns
  and in-place updates.
- **As a whole.** `Varint`, `Scalars`, `EncodeSpec`, `DecodeSpec`, `Defaults`, `Release` and
  `Allocator` say what each function returns, stores, allocates and leaves unread, for every input,
  also after an error. The theorems are about these functions, and hold of the methods through
  their contracts.

A descriptor table is a sequence of `Field`s (`Descriptor`). A message struct maps the offsets the
iterator computes to typed slots; a `Block` slot is the only pointer to its heap block, and the
`Heap` accounts for the live blocks. `WfSchema` is what the macros of `pb.h` guarantee about a table:
unique tags, members that do not overlap, counters before the data, statically nested messages that
are not recursive. Messages may be recursive through pointers. Whether a request for memory is
granted is up to the environment and may differ from call to call.

## The results

1. Decoding the output of the encoder gives the struct back, for every descriptor, also with pointers
   and recursion, and with the exact condition on proto3 defaults and null strings (`RoundTrip`,
   `Received`, `Settling`, `EndToEnd`). What is sent is fixed byte by byte (`WireFormat`), and what is
   left out is exactly what is absent or zero (`ZeroValues`). The other way round, what the decoder
   accepts can be encoded again, but for what it does not check (`Reencoding`).
2. Concatenation is merge, exactly when no fixed-count array ends one part and begins the next
   (`Concatenation`); unknown records are invisible, in particular all fields a newer sender may add;
   neighbouring records of different fields may be swapped, up to the names of the blocks when both
   allocate, and those of two fixed-count arrays exactly when all runs stay complete (`Merge`,
   `Skipping`, `FieldOrder`, `Interleaving`, `UpToBlocks`, on top of `Locality`: a decoder that
   succeeds does not look at what follows). A singular field that is sent again takes its last value,
   and submessages are merged where the library merges them (`LastOneWins`).
3. Packed blocks and single elements may be mixed, in static arrays (`Arrays`) and on the heap
   (`HeapArrays`); on malformed input, exactly the elements before the error are stored.
4. For every table and every input, after every step, successful or failing, the live blocks are those
   the struct stores, each once, and those that were lost, and nothing is freed twice (`Ownership`,
   `ReleaseOwnership`, `DefaultOwnership`, `UnionOwnership`, `Losses`, `DecodeOwnership`). Nothing is
   lost when no array entry that owns blocks is filled again, which holds of every table without
   fixed-count arrays of submessages with pointers, and of the output of the encoder (`Restarts`,
   `EncodedOnce`). Every block has been granted the bytes of what is in it (`BlockRoom`).
5. The two passes over a submessage agree; a message fits a buffer iff its size does; a failed encode
   leaves a prefix (`Encoder`).
6. Varints: round trip, minimality, the 32-bit decoder refines the 64-bit one, the 32-bit encoder of
   negative numbers emits the 64-bit form (`Varint`, `OutputStream`).
7. The shared counter of fixed-count arrays and the bitmap of required fields are exact (`Trace`,
   `RequiredFields`).
8. What is accepted is exact, from a single string to a whole message (`Acceptance`), and so is what
   a struct holds once it is initialised (`Initialising`). Decoding terminates on every input and every
   table, and length-delimited fields take exactly the bytes they announce (`Decoder`, `Delimiting`).
9. Where these laws stop, `Boundaries`, `Leaking`, `Received` and the last lemmas of `Merge` give inputs
   that break them, and the exact condition under which they hold.

Where code and comments differ, the model follows the code. The comment on fixed-count fields
(`pb_decode.c:935-938`) says that only one such field can be handled among other fields; the code
handles any number of them, as long as each run is complete before the next one starts, which is what
`Trace.FixedCountExact` states.

## Model

| member | source | states |
|---|---|---|
| `RoundTrip.EncodeDecode` | AOUN/Pods/nanopb/pb_decode.c:1078-1090 | for every descriptor, with pointers and recursive ones included, and every valid struct, with memory to spare, `pb_decode` of the output of `pb_encode` into any laid out struct succeeds and consumes every byte; apart from absent members, inactive union members and array slots past the count, and up to the names of heap blocks, the result is equal exactly when no value in use is hidden by a proto3 default that differs from it and no string in use is a null pointer |
| `EncodedOnce.EncodeDecodeOwn` | AOUN/Pods/nanopb/pb_decode.c:1078-1090 | into a struct whose array entries own nothing, the decoded struct owns exactly the blocks allocated for it, and a release reaches all of them |
| `EncodedOnce.MessageOnce` | AOUN/Pods/nanopb/pb_encode.c:528-550 | the encoder sends every array in one run and every struct in one record, at any depth, so that decoding its output can lose no block |
| `Reencoding.DecodeEncodeDecode` | AOUN/Pods/nanopb/pb_decode.c:1078-1090 | of everything `pb_decode` accepts into zeroed memory: the result may be encoded again exactly when no string in use has a NUL inside, no required pointer is null and every submessage and packed block takes less than 2^32 bytes; encoding it and decoding that then succeeds, and gives the same struct exactly when no proto3 default hides a value |
| `Reencoding.DecodeTyped` | AOUN/Pods/nanopb/pb_decode.c:1328-1541 | whatever the bytes, a successful decode leaves a value of its type in every member, at any depth: numbers in range, strings and bytes within their arrays, counts within theirs, which_ members that name a member of their union |
| `Reencoding.ValidExactly` | AOUN/Pods/nanopb/pb_encode.c:341-426 | these values are what the encoder asks for, up to the things a decoder does not check |
| `RoundTrip.EncodeDecodeStatic` | AOUN/Pods/nanopb/pb_decode.c:1078-1090 | without pointers the same holds on any heap, which is left as it was |
| `Received.SurvivesExactly` | AOUN/Pods/nanopb/pb_encode.c:240-326 | what arrives is equal to what was sent if and only if nothing in use, at any depth, is hidden by an explicit proto3 default or is a null string |
| `WireFormat.TaggedBytes` | AOUN/Pods/nanopb/pb_encode.c:675-707 | in plain numbers, whatever the constants are called: a field is the varint of eight times its tag plus 0, 1, 2 or 5 by its type, and its value |
| `WireFormat.KeyBytes` | AOUN/Pods/nanopb/pb_decode.c:298-319 | such a key reads back as its tag and wire type; a zero byte ends the message |
| `WireFormat.NumberBytes` | AOUN/Pods/nanopb/pb_encode.c:769-850 | a bool is the byte 1, or 0 when all its bits are zero, a signed integer the varint of its 64-bit two's complement, an unsigned one its varint, a zigzag one the varint of 2n or -2n - 1, a fixed-width one four or eight bytes from the least significant one |
| `Varint.EncVarintByte` | AOUN/Pods/nanopb/pb_encode.c:608-628 | byte k of a varint holds bits 7k to 7k + 6, and its top bit says whether more bytes follow |
| `WireFormat.StringBytes` | AOUN/Pods/nanopb/pb_encode.c:875-899 | a string goes out behind its length, up to its first NUL or the end of its array |
| `WireFormat.BytesBytes` | AOUN/Pods/nanopb/pb_encode.c:852-873 | a bytes array goes out behind its length; in the struct it is an error exactly when it and the four bytes of its size do not fit |
| `WireFormat.FixedBytesBytes` | AOUN/Pods/nanopb/pb_encode.c:909-912 | the same for bytes of fixed length |
| `WireFormat.SubmessageBytes` | AOUN/Pods/nanopb/pb_encode.c:717-759 | a submessage goes out behind its length, and fails exactly when its encoding does |
| `WireFormat.NullPointerBytes` | AOUN/Pods/nanopb/pb_encode.c:852-899 | a null pointer to a string or bytes array is sent as an empty one, any other is an error |
| `WireFormat.PackedBytes` | AOUN/Pods/nanopb/pb_encode.c:147-208 | an array of numbers is one record of wire type 2 with all of them back to back, and no record when it is empty |
| `WireFormat.EntriesBytes` | AOUN/Pods/nanopb/pb_encode.c:147-235 | any other array is its entries, each behind its own key; it is an error exactly when an entry is, or when the count is beyond the array |
| `WireFormat.MessageBytes` | AOUN/Pods/nanopb/pb_encode.c:528-550 | a message is its fields in the order of the table, and is encoded exactly when each of them is |
| `WireFormat.BrokenMessage` | AOUN/Pods/nanopb/pb_encode.c:378-380 | a null pointer in a required field, a count beyond a static array and an oversized bytes member in use make the encoding fail |
| `ZeroValues.ZeroIsLeftOut` | AOUN/Pods/nanopb/pb_encode.c:298-335 | a proto3 field without presence is left out if and only if its value is the zero of its type: 0, no bytes, a string that ends where it starts, a submessage with nothing in it |
| `ZeroValues.SilentExactly` | AOUN/Pods/nanopb/pb_encode.c:343-426 | of any field nothing is sent exactly when it is absent: has_ false, which_ on another member, no entries, a null pointer, or that zero |
| `ZeroValues.BlankIsEmpty` | AOUN/Pods/nanopb/pb_encode.c:316-334 | a valid message is encoded as nothing exactly when all its members are zero, null, absent or empty, at any depth |
| `ZeroValues.DefaultIsBlank` | AOUN/Pods/nanopb/pb_encode.c:240-337 | `pb_check_proto3_default_value` is that test |
| `ZeroValues.ZeroedIsZero` | AOUN/Pods/nanopb/pb_decode.c:890-906 | the value a static member is initialised to without a default is the zero of its type |
| `RoundTrip.MessageRoundTrip` | AOUN/Pods/nanopb/pb_decode.c:928-1076 | the round trip for `pb_decode_noinit` on top of any struct at its defaults, such as a new array entry, a new heap block or a zeroed union member |
| `EndToEnd.EncodeThenDecode` | AOUN/Pods/nanopb/pb_encode.c:528-550 | the round trip on the imperative encoder and decoder through one byte buffer, with no byte left over; without pointers nothing is allocated |
| `Concatenation.ConcatenationIsMerge` | AOUN/Pods/nanopb/pb_decode.h:74-75 | one decode of b1 + b2 leaves the struct, the heap and the unread bytes that decoding b1 and then b2 on top of it leaves, and succeeds whenever they do, provided that the last fixed-count array in b1 is not the first one in b2; where both parts decode, the whole decodes, with the same result, if and only if that holds |
| `Concatenation.DecodeThenMerge` | AOUN/Pods/nanopb/pb_decode.c:1078-1090 | the same, both directions, when the first part goes through `pb_decode` |
| `Concatenation.LastCounted` | AOUN/Pods/nanopb/pb_decode.c:991-1010 | after a decode the shared counter belongs to the last fixed-count array among the records, read off the bytes |
| `Merge.ZeroKeyHidesTheRest` | AOUN/Pods/nanopb/pb_decode.c:310-314 | the other condition of the merge is exact too: after a zero key in b1 nothing of b2 is looked at |
| `Merge.ZeroByteStops` | AOUN/Pods/nanopb/pb_decode.c:952-958 | one zero byte ends a message successfully |
| `Merge.RecordsConcat` | AOUN/Pods/nanopb/pb_decode.c:946-1024 | a prefix that decodes hands its whole state over to the decoder of the rest |
| `Merge.UnknownIsInvisible` | AOUN/Pods/nanopb/pb_decode.c:960-989 | a skippable record of an unknown field, inserted at any field boundary, changes neither success nor anything in memory |
| `Merge.UnknownInMessage` | AOUN/Pods/nanopb/pb_decode.c:985-988 | the same for a whole `pb_decode` |
| `Merge.ZeroTagInEmptyMessage` | AOUN/Pods/nanopb/pb_common.c:24-29 | the exception is real: in an empty message a well-formed record with tag 0 is not skipped but decoded as a bool, and can fail |
| `LastOneWins.LastRecordWins` | AOUN/Pods/nanopb/pb_decode.c:946-1024 | of two records of a singular number, string or bytes field the last one wins: decoding both does what decoding the second alone does, to everything |
| `LastOneWins.StaticValueWins` | AOUN/Pods/nanopb/pb_decode.c:406-423 | whatever was in the cell, an encoded value of a required, optional or oneof field leaves exactly that value there, and has_ or which_ says so |
| `LastOneWins.PointerValueWins` | AOUN/Pods/nanopb/pb_decode.c:568-595 | the same behind a pointer |
| `LastOneWins.NumberWins` | AOUN/Pods/nanopb/pb_decode.c:466-479 | any accepted form of a number wins likewise, also in a union that holds one already |
| `LastOneWins.SubmessageMerges` | AOUN/Pods/nanopb/pb_decode.c:466-479 | a submessage is merged into the one of the same member that is there; when another member of the union was current it starts from its defaults |
| `LastOneWins.TwoSubmessages` | AOUN/Pods/nanopb/pb_decode.c:1519-1541 | two records of a submessage do what one with the bytes of both does, unless a fixed-count array ends the first and begins the second |
| `LastOneWins.PointerSubmessageReplaced` | AOUN/Pods/nanopb/pb_decode.c:568-595 | behind a pointer nothing is merged: the old submessage is released and the new one starts from its defaults |
| `Skipping.EncodedIsSkipped` | AOUN/Pods/nanopb/pb_decode.c:321-331 | skipping by the wire type alone takes exactly the bytes of an encoded value, of whatever type |
| `WireFormat.SkipBytes` | AOUN/Pods/nanopb/pb_decode.c:321-331 | wire type 1 is skipped as eight bytes, 5 as four, 2 as a length and that many; every other one but 0 is an error |
| `WireFormat.SkipVarintBytes` | AOUN/Pods/nanopb/pb_decode.c:278-287 | wire type 0 is skipped up to the first byte below 128 |
| `Skipping.NewerFieldIsInvisible` | AOUN/Pods/nanopb/pb_decode.c:985-988 | a field that only the sender's table has, encoded at any field boundary, is invisible to the receiver |
| `FieldOrder.OrderDoesNotMatter` | AOUN/Pods/nanopb/pb_decode.c:946-1024 | two neighbouring records of fields outside one another's union, not both fixed-count arrays and not both touching the heap, may be swapped without changing anything a decode does |
| `FieldOrder.OrderUpToBlocks` | AOUN/Pods/nanopb/pb_decode.c:946-1024 | pointers or not: where requests are granted by their size, either order has the same outcome, leaves the same bytes and the same locals, and structs that are equal up to the names of heap blocks |
| `FieldOrder.OrderInMessage` | AOUN/Pods/nanopb/pb_decode.c:1078-1090 | the same for a whole `pb_decode`, with its initialisation and its release after a failure |
| `Interleaving.FixedOrderExactly` | AOUN/Pods/nanopb/pb_decode.c:991-1031 | two neighbouring records of different fixed-count arrays: when one order decodes, the other one does, with the same result up to the names of the blocks, if and only if all runs in it are complete, as read off its bytes |
| `Interleaving.BothComplete` | AOUN/Pods/nanopb/pb_decode.c:991-1013 | when the runs of both orders are complete, each of the two records fills its array, or is an empty block of an array that was full before |
| `UpToBlocks.DecodeAlike` | AOUN/Pods/nanopb/pb_decode.c:1078-1090 | no decoder can tell apart two structs that differ in the names of their heap blocks only: same outcome, same bytes left, alike structs |
| `Arrays.AnyMixture` | AOUN/Pods/nanopb/pb_decode.c:424-464 | any mixture of packed blocks and single elements of a static scalar array, with keys, lengths and values in any form the decoder accepts, stores its elements one after the other, and fails exactly when the total exceeds the array |
| `Arrays.FormDoesNotMatter` | AOUN/Pods/nanopb/pb_decode.c:424-464 | two mixtures that carry the same elements, one packed block for instance, decode to the same state |
| `HeapArrays.HeapMixture` | AOUN/Pods/nanopb/pb_decode.c:597-672 | with enough memory, any mixture of packed blocks and single elements, in any accepted form, is appended to a heap array element by element, and refused exactly when there are more than PB_SIZE_MAX |
| `Arrays.PackedStops` | AOUN/Pods/nanopb/pb_decode.c:434-443 | on any bytes, the loop into a static array has stored and counted exactly the elements before the place where it stops: the end, the end of the array, or something that is no element |
| `Arrays.BlockStops` | AOUN/Pods/nanopb/pb_decode.c:424-451 | a packed record of any bytes is accepted exactly when its bytes are there and its elements, which fit, reach to its end; accepted or not, the entries beyond the stop are as they were |
| `HeapArrays.GrowNums` | AOUN/Pods/nanopb/pb_decode.c:602-650 | the growing loop keeps the elements it had and appends those of the block, whatever form they come in |
| `HeapArrays.GrowStops` | AOUN/Pods/nanopb/pb_decode.c:602-643 | on any heap and any bytes, the growing loop has appended exactly the elements before the place where it stops; it stops early only at something that is no element, at a counter that cannot grow, or at a refused request |
| `HeapArrays.HeapBlockStops` | AOUN/Pods/nanopb/pb_decode.c:592-650 | a packed record of any bytes is accepted exactly when its bytes are there and all of them are read as elements; accepted or not, those before the stop have been appended and counted |
| `HeapArrays.HeapString` | AOUN/Pods/nanopb/pb_decode.c:1457-1478 | a heap string or bytes array receives a block with exactly the bytes sent |
| `DecodeOwnership.NoInitOwn` | AOUN/Pods/nanopb/pb_decode.c:928-1076 | for every table, `pb_decode_noinit`, successful or failing, leaves the live heap blocks exactly those whose pointers the struct stores, each once, and those it lost (`Losses.LostNoInit`); every pointer is null or owns its block, and nothing is freed twice |
| `DecodeOwnership.DecodeOwn` | AOUN/Pods/nanopb/pb_decode.c:1078-1090 | the same for `pb_decode` into any laid out struct, which keeps what the entries of its static arrays owned; after a failure a release reaches no block and pointers are null |
| `DecodeOwnership.OwnedExactly` | AOUN/Pods/nanopb/pb_decode.c:1078-1090 | the live blocks are those of the struct alone if and only if nothing was lost |
| `Restarts.DecodeOnce` | AOUN/Pods/nanopb/pb_decode.c:1078-1090 | when every fixed-count array of submessages with pointers comes in one run and every struct that holds one in one record, into a struct whose array entries own nothing: a success owns exactly what was allocated, a failure leaves nothing allocated, and a release brings back the heap of before |
| `Restarts.NoInitKeeps` | AOUN/Pods/nanopb/pb_decode.c:928-1076 | merging such a message into a struct loses nothing, provided that the entries it fills own nothing yet |
| `Restarts.AnyBytes` | AOUN/Pods/nanopb/pb_decode.c:928-1076 | for tables without fixed-count arrays of submessages with pointers, every input is sent in this way |
| `DecodeOwnership.DecodeThenRelease` | AOUN/Pods/nanopb/pb_decode.c:1255-1269 | after a decode and a release no block was freed twice, and the live blocks are those of before if and only if the decode lost none and none was past the count of its array |
| `DecodeOwnership.RecordsOwn` | AOUN/Pods/nanopb/pb_decode.c:946-1024 | every turn of the message loop keeps that account |
| `DecodeOwnership.FieldOwn` | AOUN/Pods/nanopb/pb_decode.c:734-760 | every field decoder, static or pointer, keeps it for the cell it works on |
| `DecodeOwnership.UnionReleased` | AOUN/Pods/nanopb/pb_decode.c:1131-1162 | `pb_release_union_field` on a sound struct never fails; it frees exactly the blocks a release reaches in another current member and keeps those of the same one |
| `DecodeOwnership.OneOwn` | AOUN/Pods/nanopb/pb_decode.c:568-595 | a pointer field that is decoded again releases what it held before, or keeps it, and owns exactly what it holds afterwards, also when the allocation fails |
| `DecodeOwnership.ArrayOwn` | AOUN/Pods/nanopb/pb_decode.c:451-464 | an element of a static array of submessages with pointers, counted or not: the other entries keep their blocks, and what the entry owned before is lost |
| `DecodeOwnership.SingleOwn` | AOUN/Pods/nanopb/pb_decode.c:656-672 | an element appended to a heap array keeps the account of the array and of what its entries own |
| `DecodeOwnership.GrowOwn` | AOUN/Pods/nanopb/pb_decode.c:602-650 | the packed loop keeps the account, and what it has stored lies within the block |
| `DecodeOwnership.GrownRoom` | AOUN/Pods/nanopb/pb_decode.c:622-631 | the guessed room holds the next element and never exceeds PB_SIZE_MAX |
| `ReleaseOwnership.ReleaseStructOwn` | AOUN/Pods/nanopb/pb_decode.c:1255-1269 | `pb_release` frees exactly the blocks it reaches: what it leaves is in order if and only if each of them was live, once |
| `ReleaseOwnership.ReleaseStructEmpty` | AOUN/Pods/nanopb/pb_decode.c:1227-1252 | afterwards a release reaches nothing more, reachable pointers are null, and what the struct still stores was past the count of its array before |
| `ReleaseOwnership.ReleaseTwice` | AOUN/Pods/nanopb/pb_decode.c:1249-1251 | a second release frees nothing more and is no double free |
| `ReleaseOwnership.ReleaseCellOwn` | AOUN/Pods/nanopb/pb_decode.c:1164-1253 | the same for `pb_release_single_field` and its field |
| `Initialising.InitialisedExactly` | AOUN/Pods/nanopb/pb_decode.c:839-922 | whatever a struct held, afterwards pointers are null, counters, has_ and which_ are zero, array entries and unions without pointers are as they were, submessages are initialised in place, and other members hold their default, or zero |
| `DefaultOwnership.FreshIsEmpty` | AOUN/Pods/nanopb/pb_decode.c:536-550 | a zeroed and initialised item owns nothing |
| `DefaultOwnership.DefaultsSound` | AOUN/Pods/nanopb/pb_decode.c:911-922 | a struct set to its defaults is sound and owns exactly what the entries of its static arrays held before, which are not initialised |
| `Trace.FixedCountExact` | AOUN/Pods/nanopb/pb_decode.c:991-1031 | although all fixed-count arrays share one local counter, the end check passes exactly when every longest run of records of one such field, with any other fields in between, carries as many items as its array has, as read off the bytes; so every successful decode has only complete runs |
| `Trace.RequiredExact` | AOUN/Pods/nanopb/pb_decode.c:1033-1073 | records that are all decoded pass the required-field check exactly when each of the first 64 required fields has one among them |
| `Acceptance.AcceptedExactly` | AOUN/Pods/nanopb/pb_decode.c:928-1076 | `pb_decode_noinit` accepts exactly the inputs whose records all decode, in which every run of a fixed-count array fills it, and in which each of the first 64 required fields occurs, the last two read off the bytes |
| `Acceptance.DecodeAccepts` | AOUN/Pods/nanopb/pb_decode.c:1078-1090 | `pb_decode` accepts what that accepts on top of the defaults |
| `Acceptance.RecordOutcome` | AOUN/Pods/nanopb/pb_decode.c:946-989 | a key that is cut off is an error, a zero key the end; an unknown field is skipped, or an error when it cannot be; none of these touches the struct |
| `Acceptance.RunCutShort` | AOUN/Pods/nanopb/pb_decode.c:992-1013 | a record of a fixed-count array, while the run of another one is not complete, is an error and changes nothing |
| `Acceptance.SubmessageAccepted` | AOUN/Pods/nanopb/pb_decode.c:1519-1541 | a submessage is accepted exactly when its bytes are all there and its decoder accepts them |
| `Acceptance.ElementAccepted` | AOUN/Pods/nanopb/pb_decode.c:454-464 | an element of a static array of any type is accepted exactly when there is room and its decoder accepts it; it is stored behind the others, which stay; it is counted whether accepted or not, even when the array is full |
| `Acceptance.HeapElementAccepted` | AOUN/Pods/nanopb/pb_decode.c:656-672 | an element of a heap array is accepted exactly when a counter can express the new length, the bytes for one more entry are granted and its decoder accepts it; the others stay, and it is counted once it has an entry |
| `Acceptance.RefusedItem` | AOUN/Pods/nanopb/pb_decode.c:585-590 | a pointer field whose bytes are not granted is an error; what it pointed at stays and which_ names it |
| `Acceptance.StaticBuffer` | AOUN/Pods/nanopb/pb_decode.c:1457-1512 | a string or bytes array in the struct is accepted exactly when its bytes are all there and fit with the terminator, or with the four bytes of the size |
| `Acceptance.HeapBuffer` | AOUN/Pods/nanopb/pb_decode.c:1457-1512 | on the heap, exactly when its bytes are all there and as many, with those extra ones, are granted; a string of 2^32 - 1 bytes is refused; nothing is asked for bytes that are not there, and a refusal keeps the old block |
| `Acceptance.FixedBytes` | AOUN/Pods/nanopb/pb_decode.c:1543-1564 | bytes of fixed length, exactly when that many are there, or none, which stands for zeros |
| `Acceptance.NumberRead` | AOUN/Pods/nanopb/pb_decode.c:1328-1393 | any varint read as a bool, an unsigned or a zigzag number: what is stored, and when it is an error |
| `Acceptance.SignedRead` | AOUN/Pods/nanopb/pb_decode.c:1339-1366 | the same for a signed member, in two's complement of 64 bits, or of 32 for fewer than eight bytes |
| `Acceptance.RefusedNumber` | AOUN/Pods/nanopb/pb_decode.c:1339-1422 | a number that does not fit is stored cut to the width of the member before it is reported; without a varint the member stays |
| `Acceptance.UnionRefused` | AOUN/Pods/nanopb/pb_decode.c:1131-1162 | a record of a union member is refused exactly when which_ names no member of its union, and then nothing changes |
| `RequiredFields.RequiredPresent` | AOUN/Pods/nanopb/pb_decode.c:1033-1073 | the two-word mask test decides this, for any number of required fields and wherever the iterator was left |
| `RequiredFields.MarkSeen` | AOUN/Pods/nanopb/pb_decode.c:1015-1020 | the shifted bit goes to the word and place of the field and leaves all other bits alone |
| `RequiredFields.AllSeen` | AOUN/Pods/nanopb/pb_decode.c:1054-1072 | whole words against all ones and the last one against a shifted mask: true iff each of the first `count` bits is set |
| `RequiredFields.CountRequired` | AOUN/Pods/nanopb/pb_decode.c:1039-1052 | running to the end of the table counts the required fields, at most 64, from any starting position |
| `Delimiting.ParentAdvances` | AOUN/Pods/nanopb/pb_decode.c:1519-1541 | every length-delimited field that is decoded, static or pointer, leaves the parent exactly its announced length further on, whatever the decoder inside read |
| `Delimiting.EarlyStop` | AOUN/Pods/nanopb/pb_decode.c:387-394 | a submessage that stops at a zero key does so without disturbing its parent, whatever bytes follow the zero |
| `Delimiting.RecordAdvances` | AOUN/Pods/nanopb/pb_decode.c:946-1024 | where a decoded record ends depends on its bytes and on the table alone, not on the struct, the heap or what was decoded before |
| `Delimiting.NullTerminated` | AOUN/Pods/nanopb/pb_encode.c:557-567 | what `pb_encode_nullterminated` sends decodes as the message does, and decoding stops behind the zero byte |
| `Delimiting.DelimitedMessage` | AOUN/Pods/nanopb/pb_encode.c:552-555 | what `pb_encode_delimited` sends is split off again |
| `Varint.RoundTrip64` | AOUN/Pods/nanopb/pb_decode.c:255-275 | decoding an encoded uint64 followed by any suffix gives it back and leaves the suffix; the encoding has at most ten bytes |
| `Varint.EncodingIsMinimal` | AOUN/Pods/nanopb/pb_encode.c:608-628 | no byte string that decodes to the value is shorter than its encoding |
| `Varint.Varint32RefinesVarint64` | AOUN/Pods/nanopb/pb_decode.c:187-247 | where both decoders accept, they stop at the same byte, the 32-bit result is the 64-bit one modulo 2^32, and equal to it for at most five bytes |
| `Varint.RoundTrip32` | AOUN/Pods/nanopb/pb_decode.c:187-247 | the 32-bit decoder accepts every encoded value below 2^32, with any suffix |
| `Varint.NegativeAccepted32` | AOUN/Pods/nanopb/pb_decode.c:221-230 | it reads every negative int32 back from its ten-byte sign extension |
| `Varint.LongVarintExactly` | AOUN/Pods/nanopb/pb_decode.c:216-242 | a varint of six bytes or more is accepted exactly when every byte from the sixth on carries no bits, or repeats the sign of a word with its top bit set; the word is that of the first five bytes |
| `WireFormat.LongKeysAndLengths` | AOUN/Pods/nanopb/pb_decode.c:298-331 | so no overlong number is taken for another key or length |
| `Acceptance.TenBytes` | AOUN/Pods/nanopb/pb_decode.c:255-275 | the 64-bit decoder accepts exactly the inputs with a byte below 128 among the first ten |
| `Varint.Word32Value` | AOUN/Pods/nanopb/pb_decode.c:216-242 | a varint of at most ten bytes gives the low half of its value, one of at most five is accepted exactly when the value fits |
| `Varint.Varint32Bound` | AOUN/Pods/nanopb/pb_decode.c:187-247 | however long the varint, the result is a 32-bit word |
| `Varint.VarintLocal` | AOUN/Pods/nanopb/pb_decode.c:187-275 | neither decoder looks past the varint it accepts |
| `Scalars.ScalarRoundTrip` | AOUN/Pods/nanopb/pb_decode.c:1328-1439 | every value of every scalar type and width comes back from its encoding, whatever follows and whatever was stored before |
| `Scalars.NarrowingExact` | AOUN/Pods/nanopb/pb_decode.c:1339-1422 | unsigned and zigzag fields accept a varint iff the member can hold its value; a VARINT field cuts to int32 or int64 first and never fails at 4 or 8 bytes |
| `Scalars.ZigZagBijection` | AOUN/Pods/nanopb/pb_decode.c:1279-1291 | zigzag is a bijection between int64 and uint64 |
| `Boundaries.UnterminatedString` | AOUN/Pods/nanopb/pb_decode.c:1489-1512 | a static string without a NUL is encoded whole, and its encoding decodes exactly when it is shorter than its array |
| `Boundaries.DefaultHidesZero` | AOUN/Pods/nanopb/pb_encode.c:355-359 | in any field of any valid struct that is not sent because it looks like the default, an explicit default takes the place of its value, which survives exactly when it is that default |
| `Boundaries.FixedCountDoesNotMerge` | AOUN/Pods/nanopb/pb_decode.c:997-1010 | the failing inputs exist: two messages that each fill the same fixed-count array decode one after the other, and their concatenation does not decode |
| `Boundaries.TruncatedEntryCounts` | AOUN/Pods/nanopb/pb_decode.c:451-464 | a truncated element of a counted static array is counted although its entry was not touched, so a release that follows frees the right blocks if and only if it reaches none through the unused entry |
| `Boundaries.RestartedEntry` | AOUN/Pods/nanopb/pb_decode.c:1528-1538 | an entry of a static array that is decoded into again, at any index, with any element and whether it decodes or not, is initialised without being released: the account stays right if and only if it owned nothing or the bytes of the element are not all there |
| `Boundaries.ElementLoses` | AOUN/Pods/nanopb/pb_decode.c:451-464 | in general, nested arrays included, it stays right if and only if the element loses nothing |
| `Boundaries.EntriesAreReleased` | AOUN/Pods/nanopb/pb_decode.c:1192-1195 | a release visits the entries of a fixed-count array that were never initialised: as long as the input changes nothing, the heap is that of before if and only if no pointer is reached through them |
| `Leaking.SecondRunLeaks` | AOUN/Pods/nanopb/pb_decode.c:991-1013 | a message that loses a block: `pb_decode` of nine bytes into zeroed memory succeeds, and the block of a string stays allocated without a pointer to it, because its array has a second run |
| `Descriptor.DisjointStorage` | AOUN/Pods/nanopb/pb_common.c:39-74 | fields outside one another's union have no address in common |
| `Descriptor.SameUnion` | AOUN/Pods/nanopb/pb_common.c:44-50 | the members of a union have one address for the data and one for which_ |
| `FieldIterator.FindsMembers` | AOUN/Pods/nanopb/pb.h:401-405 | adding sizes and relative offsets, the iterator arrives at the address the compiler gave to every member |
| `FieldIterator.NextAddress` | AOUN/Pods/nanopb/pb_common.c:39-74 | the next member lies behind the array, the pointer of eight bytes or the value before it, or in the same place in a union |
| `FieldIterator.FieldIter.Begin` | AOUN/Pods/nanopb/pb_common.c:8-18 | stands at the first entry, its pointers and index those of the table |
| `FieldIterator.FieldIter.Restart` | AOUN/Pods/nanopb/pb_common.c:33-38 | wraps round to the first entry |
| `FieldIterator.FieldIter.Next` | AOUN/Pods/nanopb/pb_common.c:20-76 | moves to the next entry, cyclically, and keeps pData, pSize and the required-field index those of the table |
| `FieldIterator.FieldIter.Find` | AOUN/Pods/nanopb/pb_common.c:78-95 | ends within one cycle at the first match from where it stood, iff there is one, and otherwise where it started |
| `FieldIterator.FieldIter.FindExtension` | AOUN/Pods/nanopb/pb_decode.c:825-836 | ends at an extension entry, or where it started when there is none |
| `FieldIterator.MatchIsUnique` | AOUN/Pods/nanopb/pb_common.c:82-88 | unique tags make the search independent of its starting position |
| `Allocator.RejectsExactlyOverflow` | AOUN/Pods/nanopb/pb_decode.c:507-522 | the half-width shortcut rejects a non-zero product iff it does not fit in a size_t |
| `Allocator.AllocateExactly` | AOUN/Pods/nanopb/pb_decode.c:485-534 | a request succeeds exactly when its product is positive, fits in a size_t and is granted; the block then has that many bytes, keeps its entries and replaces the old one; a refusal leaves everything as it was |
| `BlockRoom.DecodeRoom` | AOUN/Pods/nanopb/pb_decode.c:1078-1090 | after a successful decode every block, at any depth, was granted the bytes that what is in it takes: n times data_size for n entries, one more byte for a string, four more for a bytes array |
| `BlockRoom.MakeRoomRoom` | AOUN/Pods/nanopb/pb_decode.c:622-638 | when the packed loop writes an entry, the block has been granted room for it, whether it grew or not |
| `BlockRoom.GrowRoom` | AOUN/Pods/nanopb/pb_decode.c:602-650 | whatever its outcome, what that loop has stored has room |
| `BlockRoom.SingleRoom` | AOUN/Pods/nanopb/pb_decode.c:656-672 | when entry k of a heap array is decoded, the block has been granted room for k + 1 entries |
| `BlockRoom.BufferRoom` | AOUN/Pods/nanopb/pb_decode.c:1457-1512 | a string of n bytes gets n + 1 bytes, a bytes array n + 4 |
| `InputStream.IStream.FromBuffer` | AOUN/Pods/nanopb/pb_decode.c:159-181 | a stream on the first bytes of a buffer |
| `InputStream.IStream.Read` | AOUN/Pods/nanopb/pb_decode.c:102-137 | succeeds iff that many bytes are left, hands over exactly those, and never moves the end of the stream |
| `InputStream.IStream.BufRead` | AOUN/Pods/nanopb/pb_decode.c:87-100 | copies the bytes at the cursor and advances it |
| `InputStream.IStream.ReadByte` | AOUN/Pods/nanopb/pb_decode.c:141-157 | the next byte, or failure at the end |
| `InputStream.IStream.DecodeVarint32Eof` | AOUN/Pods/nanopb/pb_decode.c:187-247 | reads what the 32-bit decoder is specified to, on every input, and tells an empty stream apart |
| `InputStream.IStream.Multibyte32` | AOUN/Pods/nanopb/pb_decode.c:210-243 | the do-while loop, with its eight-bit bit position, sign extension and five-byte check |
| `InputStream.IStream.DecodeVarint` | AOUN/Pods/nanopb/pb_decode.c:255-275 | reads the 64-bit value of a varint of at most ten bytes, and fails on every other input |
| `InputStream.IStream.SkipVarint` | AOUN/Pods/nanopb/pb_decode.c:278-287 | skips a varint of any length |
| `InputStream.IStream.SkipString` | AOUN/Pods/nanopb/pb_decode.c:289-296 | skips a length and that many bytes |
| `InputStream.IStream.DecodeTag` | AOUN/Pods/nanopb/pb_decode.c:298-319 | splits a key into tag and wire type; a zero key reads as the end |
| `InputStream.IStream.SkipField` | AOUN/Pods/nanopb/pb_decode.c:321-331 | skips one payload of the given wire type, and fails for the unknown ones |
| `InputStream.IStream.MakeSubstream` | AOUN/Pods/nanopb/pb_decode.c:372-385 | succeeds iff the announced bytes are there; they go to the substream, the parent keeps what follows them |
| `InputStream.IStream.CloseSubstream` | AOUN/Pods/nanopb/pb_decode.c:387-400 | the parent continues right after the substream, whatever was left unread in it |
| `OutputStream.OStream.Write` | AOUN/Pods/nanopb/pb_encode.c:103-124 | a buffer stream takes the bytes iff they fit within its limit, a sizing stream counts them; a refusal changes nothing |
| `OutputStream.OStream.BufWrite` | AOUN/Pods/nanopb/pb_encode.c:74-84 | copies the bytes to the cursor, changes nothing else and advances it |
| `OutputStream.OStream.EncodeVarint` | AOUN/Pods/nanopb/pb_encode.c:608-628 | emits the canonical varint of the value |
| `OutputStream.OStream.EncodeNegativeVarint` | AOUN/Pods/nanopb/pb_encode.c:583-605 | emits, from 32-bit words alone, exactly the ten bytes of the 64-bit sign extension |
| `OutputStream.FillNegativeVarint` | AOUN/Pods/nanopb/pb_encode.c:589-602 | the sliding window with its compensation bits produces the bytes of the 64-bit value |
| `OutputStream.WindowStep` | AOUN/Pods/nanopb/pb_encode.c:591-599 | shifting the low half and setting the bits that enter from above is the shift of the 64-bit value |
| `OutputStream.OStream.Resume` | AOUN/Pods/nanopb/pb_encode.c:755-756 | the parent goes on where the substream has stopped |
| `OutputStream.OStream.FromBuffer` | AOUN/Pods/nanopb/pb_encode.c:86-101 | a stream that sends at most the size of the buffer |
| `OutputStream.OStream.Sizing` | AOUN/Pods/nanopb/pb_encode.h:107-109 | a stream that only counts |
| `OutputStream.OStream.Limited` | AOUN/Pods/nanopb/pb_encode.c:745-748 | the rest of a buffer stream under a limit of its own |
| `InputStream.IStream.Limited` | AOUN/Pods/nanopb/pb_decode.c:378-384 | a copy of a stream under a limit of its own |
| `Encoder.EncodeTag` | AOUN/Pods/nanopb/pb_encode.c:669-673 | the key of a field |
| `Encoder.EncodeTagForField` | AOUN/Pods/nanopb/pb_encode.c:675-707 | the key with the wire type of the field's type |
| `Encoder.EncodeString` | AOUN/Pods/nanopb/pb_encode.c:709-715 | a length and the bytes |
| `Encoder.EncodeSVarint` | AOUN/Pods/nanopb/pb_encode.c:630-639 | the varint of the zigzag value |
| `Encoder.EncodeFixed32` | AOUN/Pods/nanopb/pb_encode.c:641-650 | four little-endian bytes |
| `Encoder.EncodeFixed64` | AOUN/Pods/nanopb/pb_encode.c:653-666 | eight little-endian bytes |
| `Encoder.EncodeScalar` | AOUN/Pods/nanopb/pb_encode.c:769-850 | the specified bytes of a scalar item, or failure at an impossible width |
| `Encoder.EncodeScalars` | AOUN/Pods/nanopb/pb_encode.c:197-204 | the items of a packed block in order; a failure leaves a prefix of them |
| `Encoder.PackedSize` | AOUN/Pods/nanopb/pb_encode.c:169-189 | the size of a packed block, by multiplication or by a sizing pass, is the number of bytes sending it takes |
| `Encoder.EncodeBlock` | AOUN/Pods/nanopb/pb_encode.c:191-204 | the length and the items, the same on a sizing stream and on a buffer |
| `Encoder.EncodeEntries` | AOUN/Pods/nanopb/pb_encode.c:209-232 | the items of an unpacked array, each behind its key |
| `Encoder.EncodeArray` | AOUN/Pods/nanopb/pb_encode.c:147-236 | the array as the specification has it; too large a count is refused |
| `Encoder.StringLength` | AOUN/Pods/nanopb/pb_encode.c:889-896 | the length of the string up to its NUL, at most the size of its array |
| `Encoder.EncodeValue` | AOUN/Pods/nanopb/pb_encode.c:769-912 | dispatches to the encoder of the field's type |
| `Encoder.CheckProto3Default` | AOUN/Pods/nanopb/pb_encode.c:240-337 | the test for a proto3 zero |
| `Encoder.CheckMembers` | AOUN/Pods/nanopb/pb_encode.c:316-334 | its loop over the members of a submessage: true iff none of them is non-zero |
| `Encoder.CheckPresence` | AOUN/Pods/nanopb/pb_encode.c:341-424 | whether a field that is not repeated is sent |
| `Encoder.EncodeSubmessage` | AOUN/Pods/nanopb/pb_encode.c:717-765 | both passes agree: the announced length is the number of bytes sent, on every stream; success iff the body encodes and all of it fits |
| `Encoder.SendSubmessage` | AOUN/Pods/nanopb/pb_encode.c:740-764 | the second pass emits exactly the counted bytes, so "submsg size changed" is unreachable at every nesting level |
| `Encoder.EncodeBasicField` | AOUN/Pods/nanopb/pb_encode.c:341-426 | emits a field iff it is present, by has_, count, which_, null pointer or default value |
| `Encoder.EncodeMessage` | AOUN/Pods/nanopb/pb_encode.c:528-550 | walks the table and emits the fields in order; on a limited stream success iff the whole encoding fits, and a failure leaves a prefix of it |
| `Encoder.GetEncodedSize` | AOUN/Pods/nanopb/pb_encode.c:567-576 | the number of bytes the encoding has |
| `Encoder.EncodeIntoBuffer` | AOUN/Pods/nanopb/pb_encode.c:86-101 | encoding into n bytes succeeds iff the message encodes and its size is at most n; a failure leaves a prefix of the full encoding |
| `Encoder.EncodeDelimited` | AOUN/Pods/nanopb/pb_encode.c:552-555 | the message behind its length |
| `Encoder.EncodeNullTerminated` | AOUN/Pods/nanopb/pb_encode.c:557-565 | the message and a zero byte |
| `Releaser.Memory.AllocateField` | AOUN/Pods/nanopb/pb_decode.c:490-533 | allocates or grows iff the size is not zero, does not overflow and is granted; otherwise the old block stays |
| `Releaser.FreeEntries` | AOUN/Pods/nanopb/pb_decode.c:1229-1241 | frees and nulls the entries of an array of strings |
| `Releaser.ReleaseEach` | AOUN/Pods/nanopb/pb_decode.c:1217-1224 | releases the submessages of an array one after the other |
| `Releaser.ReleaseSingleField` | AOUN/Pods/nanopb/pb_decode.c:1164-1253 | the release of one field, as the ownership theorems describe it |
| `Releaser.ReleaseMessage` | AOUN/Pods/nanopb/pb_decode.c:1255-1269 | releasing the fields in place, one after the other, is the release of the struct as a whole, because no release disturbs what the later ones read |
| `Releaser.StillWaiting` | AOUN/Pods/nanopb/pb_decode.c:1169-1173 | releasing the current member of a union leaves its siblings inactive, and all other cells as they were |
| `Decoder.FieldSetToDefault` | AOUN/Pods/nanopb/pb_decode.c:839-909 | sets one field, and nothing else, to its default |
| `Decoder.MessageSetToDefaults` | AOUN/Pods/nanopb/pb_decode.c:911-922 | sets every field to its default, nested messages included |
| `Decoder.DecodeFixed32` | AOUN/Pods/nanopb/pb_decode.c:1293-1305 | the little-endian word |
| `Decoder.DecodeFixed64` | AOUN/Pods/nanopb/pb_decode.c:1308-1325 | the little-endian double word |
| `Decoder.DecodeSVarint` | AOUN/Pods/nanopb/pb_decode.c:1279-1291 | the zigzag value |
| `Decoder.DecodeInteger` | AOUN/Pods/nanopb/pb_decode.c:1339-1422 | stores the cast value and fails iff the cast changed it |
| `Decoder.DecodeScalar` | AOUN/Pods/nanopb/pb_decode.c:1328-1437 | does what the scalar decoder of the specification does |
| `Decoder.FillBuffer` | AOUN/Pods/nanopb/pb_decode.c:1457-1478 | room for the bytes, on the heap or in the struct, and then the bytes |
| `Decoder.DecodeBuffer` | AOUN/Pods/nanopb/pb_decode.c:1441-1517 | bytes and strings, with their size checks, terminator and allocation |
| `Decoder.DecodeFixedBytes` | AOUN/Pods/nanopb/pb_decode.c:1543-1564 | exactly data_size bytes, or zeros for an empty value |
| `Decoder.DecodeValue` | AOUN/Pods/nanopb/pb_decode.c:65-81 | dispatches to the decoder of the field's type; terminates on every input and every descriptor |
| `Decoder.DecodeSubmessage` | AOUN/Pods/nanopb/pb_decode.c:1519-1541 | decodes the announced bytes into the submessage and continues after them |
| `Decoder.PackedLoop` | AOUN/Pods/nanopb/pb_decode.c:436-445 | fills the array until the block or the array ends |
| `Decoder.DecodePackedStatic` | AOUN/Pods/nanopb/pb_decode.c:428-453 | a packed block that does not fit is an error |
| `Decoder.DecodeSingleStatic` | AOUN/Pods/nanopb/pb_decode.c:454-464 | one more element, or the array is full |
| `Decoder.DecodeStaticField` | AOUN/Pods/nanopb/pb_decode.c:406-483 | required, optional, repeated and oneof fields in the struct |
| `Decoder.InitializePointerField` | AOUN/Pods/nanopb/pb_decode.c:536-550 | null for a string, defaults for a submessage |
| `Decoder.MakeRoom` | AOUN/Pods/nanopb/pb_decode.c:622-638 | the room after growing holds the next element and stays within PB_SIZE_MAX |
| `Decoder.GrowTurn` | AOUN/Pods/nanopb/pb_decode.c:611-650 | every element of a packed block is written within the room allocated |
| `Decoder.GrowLoop` | AOUN/Pods/nanopb/pb_decode.c:611-650 | the loop as specified, with size + 1 <= allocated <= PB_SIZE_MAX at every write |
| `Decoder.DecodePackedPointer` | AOUN/Pods/nanopb/pb_decode.c:598-655 | a packed block appended to a heap array |
| `Decoder.DecodeSinglePointer` | AOUN/Pods/nanopb/pb_decode.c:656-672 | one element appended to a heap array |
| `Decoder.DecodeOnePointer` | AOUN/Pods/nanopb/pb_decode.c:568-595 | a required, optional or oneof pointer field |
| `Decoder.DecodePointerField` | AOUN/Pods/nanopb/pb_decode.c:553-678 | all pointer fields |
| `Decoder.ReleaseUnionField` | AOUN/Pods/nanopb/pb_decode.c:1131-1162 | visits the old member, releases it and brings the iterator back |
| `Decoder.DecodeField` | AOUN/Pods/nanopb/pb_decode.c:734-760 | does to its cell what the specification says, and leaves the iterator at the field |
| `Decoder.EnterFixed` | AOUN/Pods/nanopb/pb_decode.c:991-1013 | the bookkeeping of the shared counter, also while pSize still points at it |
| `Decoder.MarkRequired` | AOUN/Pods/nanopb/pb_decode.c:1015-1020 | marks a required field that has a bit |
| `Decoder.FindUnknown` | AOUN/Pods/nanopb/pb_decode.c:960-983 | the search, and the range bookkeeping for extensions that are not there |
| `Decoder.DecodeKnown` | AOUN/Pods/nanopb/pb_decode.c:991-1024 | one record of a known field |
| `Decoder.DecodeTerminator` | AOUN/Pods/nanopb/pb_common.c:78-89 | what a zero tag does in an empty message |
| `Decoder.DecodeRecord` | AOUN/Pods/nanopb/pb_decode.c:946-1024 | one turn of the loop |
| `Decoder.DecodeRecords` | AOUN/Pods/nanopb/pb_decode.c:946-1024 | the loop; it terminates on every input, because every turn takes bytes |
| `Decoder.DecodeNoInit` | AOUN/Pods/nanopb/pb_decode.c:928-1076 | returns, stores, allocates and leaves unread exactly what the specification says, whatever the input |
| `Decoder.Decode` | AOUN/Pods/nanopb/pb_decode.c:1078-1090 | the same for `pb_decode`, which releases after a failure |
| `Decoder.DecodeDelimited` | AOUN/Pods/nanopb/pb_decode.c:1092-1120 | a message behind its length, initialised first or not |
| `Decoder.DecodeFromBuffer` | AOUN/Pods/nanopb/pb_decode.c:159-181 | a message in a buffer |
| `Decoder.ReleaseInPlace` | AOUN/Pods/nanopb/pb_decode.c:1255-1269 | `pb_release` on the struct itself |

## Left out

- User callbacks, custom streams, extension chains, PB_OLD_CALLBACK_STYLE: code the library cannot see. `WfSchema` has neither callback nor extension fields, so `find_extension_field` is modelled but finds nothing.
- Error message texts, and the workaround for the AVR allocator.
- Bytes, padding and aliasing of C objects: a slot holds a typed value, not its bytes. So the proto3 zero test of a pointer to a scalar, which looks at bytes of the pointer, is a test for null: a proto3 submessage that holds nothing but such a pointer, with zeros in the bytes the code compares, is sent here and not there.
- Decoder.FieldSetToDefault: for the same reason the zero that the code writes over the first bytes of a fixed-count array is not seen.
- Struct members that hold what their C type cannot: a negative counter, a counter beyond the array on the heap, a null pointer where the C code would follow it. The model returns an error there instead of undefined behaviour.
- Decoder.ReleaseUnionField: a which_ member that names a field outside its own union is taken for an invalid one, as the code does with a tag that no field has; the code would release that field.
- Decoder.DecodeSingleStatic: a counter of 2^32 - 1 counted up once more becomes 2^32, where the code wraps it to 0; that takes a static array of 2^32 - 1 entries, or a counter set by hand.
- Varint.LongVarintExactly: up to 37 bytes; the decoder itself is modelled with its wrapping bit position for any length.
- Floating point: fixed32 and fixed64 are little-endian integers.
- Decoder.DecodeSubmessage: decodes a nested submessage in an object of its own and copies it back, where the code decodes into the enclosing struct; that nobody else looks at those bytes in between is not modelled.
- Decoder.FillBuffer: a static string or bytes array whose bytes did not all arrive is left indeterminate, where the code leaves the old bytes with the new size or terminator.
- Decoder.DecodeBuffer: the same.
- FieldOrder.OrderUpToBlocks: not for two fixed-count arrays, for which `Interleaving.FixedOrderExactly` has the condition, and, like that one, not for an environment that grants requests by anything but their size, such as the number of requests before.
- DecodeOwnership.DecodeOwn: because of that zero, a fixed-count array whose first entry owns a block when `pb_decode` starts is kept whole in the model, where the code overwrites part of its first member. With entries that own nothing, as in `Restarts.DecodeOnce`, there is no difference.
- Reencoding.DecodeEncodeDecode: a bytes member has room for its header and a default is a value of the member's type, as the declarations that come with a table guarantee.
- Encoder.EncodeMessage: a buffer stream is offered less than 2^64 bytes in all; a sizing stream counts modulo 2^64 without that condition.
- RoundTrip.EncodeDecode: a string has its terminator inside its array or its block, a submessage and a packed block are shorter than 2^32 bytes, and, if there are pointers, every request for memory is granted; `Boundaries.UnterminatedString` shows what happens without the first.
- The other pods and the app: screens, remote services, generated tables and headers.
