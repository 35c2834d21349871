# Proofs about hound and the yalanting libraries it uses

hound captures packets, gathers them into flows, encodes the flows with a model and sends the
encodings to Kafka. It vendors the yalanting libraries. This project models the parts of both
that compute something intricate, in the form the code has (methods that change a cursor, an
array or fields, next to functions that say what they must compute), and proves what they
promise.

| modules | what they model |
|---|---|
| `Bits`, `Bytes`, `Leb128` | machine operators on unbounded numbers, little-endian words, base-128 varints and zigzag as struct_pack and struct_pb share them |
| `Schema`, `FastVarint`, `Encoding`, `Versions`, `Message`, `Packer` | struct_pack: types and values, the sizer, the packer with its passes, the version list |
| `Status`, `Decoding`, `Skipping`, `Unpacker` | the unpacker in read mode and in skip mode, in every error case |
| `Restoring`, `RoundTrip`, `KeyedContainers`, `MapOrder`, `Evolution`, `Truncation`, `Rejection`, `Misreading`, `FieldAccess`, `Exchange` | what packer and unpacker promise together, and for which values |
| `Decimal`, `DragonboxToChars`, `Dragonbox` | decimal printing and the exact integer routines of dragonbox |
| `Protobuf` | varints and unknown fields of struct_pb ("Base 128 Varints" and "Signed Integers" in the Protocol Buffers Encoding specification) |
| `WeightedRoundRobin`, `RateLimiter` | the balancer and the rate limiter of coro_io |
| `FlowTable`, `DoubleBufferQueue`, `ParsedPacket`, `FlowEncode` | hound: flows and their cleaner, the hand-over queue, keys and blobs of packets, windows, batches and merge |

A struct_pack type is a `Ty`, a value a `Val`; `HasType` relates them and `WellFormed` holds what
the library asserts statically. `Encode(t, v, pass, w)` is what one pass writes: the plain
fields, or the compatible fields of one version. `Decode` is what one pass makes of an object,
its code and the cursor, also when it fails. The classes `Packer` and `Unpacker` do the same with
a cursor in a buffer and are proved equal to these functions; the round trips, the evolution of
types and the detection of cut-off buffers are proved about the functions, and `Exchange` carries
the round trips back to the classes. Sizes and positions are unbounded numbers, cut to a machine
width wherever the code relies on it.

Where the code and its documentation differ, or where a property needs a condition:

- A version number of 2^64 - 1 would collide with the plain pass; types with it are not well-formed.
- With all weights zero the balancer's `-1` becomes server 0, so the servers take turns.
- Reading a map or a set uses one object for all entries, each of which is moved into the container.
  What moving does not reset shows in the next entry where that one writes nothing: an optional
  stays engaged, an unmarked integer of a block keeps its number, an expected that holds an error
  throws when its value is asked for (`KeyedContainers.LastContentStays` is such a map). The values
  that do come back are the recoverable ones (`Restoring.Recoverable`, computed from the value and
  its type alone), and all results on round trips and evolution hold exactly for these. For a type
  in `Restoring.Safe`, where the entries of maps and sets forget what they held and which includes
  all types without maps and sets, every value is recoverable.
- Skipping a list works with one object for all elements, so skipping a value behind an error in a
  list of expecteds throws although reading does not (`FieldAccess.ErrorThenValue`).
- The version passes meet the entries of a map in the order in which each side iterates. A hash map
  that is filled again may iterate differently; then the compatible fields of the mapped values go
  to other keys (`MapOrder.ContentsKeepTheirPlace` says when this shows). The round trips take
  both sides to iterate alike.
- `get_field` starts reading at the first field and ignores the struct's tag, so with a fast-varint
  block it reads the bitmap, and with varint fields the wrong coding: whatever the first field with
  bytes is, some value of it is misread (`FieldAccess.FieldsExactly` gives the exact condition).
- An optional, expected, variant or unique_ptr drops the code of what it holds, so a cut inside
  it goes unnoticed (`Truncation.OptionalHidesTruncation`, `Truncation.ExpectedHidesTruncation`,
  `Truncation.VariantHidesTruncation`).
- An unsigned integer of a block is set to zero before the read that may fail.
- For UDP the row of a packet keeps the ports: bytes 120 to 123 are left out instead of 60 to 63
  (`FlowEncode.PortsHidden`).
- `BatchEncode` forwards the whole data for every batch; the merged result is right because only
  the first copy is indexed.
- Overlapping operations on the queue may lose the order, but need not: it is kept by runs whose
  pushes and reads are guarded (`DoubleBufferQueue.GuardedInOrder`), and any other push or read can
  lose it (`DoubleBufferQueue.OrderExactly`, an instance is `DoubleBufferQueue.OverlapReorders`).
- `acquire` keeps the upper bound on stored permits for requests of no negative number
  (`RateLimiter.NegativePermits`).

To verify: `dafny verify dfyconfig.toml`.

## Model

| member | source | states |
|---|---|---|
| `Message.SerializeRoundTrip` | include/yalanting/include/ylt/struct_pack/unpacker.hpp:100-158 | For every legal type and value and whatever surrounds the bytes: deserialising what was serialised into a fresh object succeeds, gives the value back (compatible fields included) and stops exactly behind the last byte, if the value is recoverable; if it is not, there is no success with that value. Maps with compatible fields in their mapped values are taken to iterate alike on both sides |
| `Message.SafeRoundTrip` | include/yalanting/include/ylt/struct_pack/unpacker.hpp:953-1005 | Without maps and sets whose entries remember what they held before, every value of the type comes back |
| `Restoring.SafeRecoverable` | include/yalanting/include/ylt/struct_pack/unpacker.hpp:953-1005 | The condition on the type implies the condition on the value, for all its values |
| `Restoring.SafeCovers` | include/yalanting/include/ylt/struct_pack/unpacker.hpp:953-1005 | Over an object that shows nothing a value of such a type hides everything that was there, element after element of a keyed container too |
| `KeyedContainers.LastContentStays` | include/yalanting/include/ylt/struct_pack/unpacker.hpp:956-977 | A map with two entries of which only the first has a content gives the second one the same content, while a list of pairs comes back as written: for all keys and contents |
| `MapOrder.ContentsKeepTheirPlace` | include/yalanting/include/ylt/struct_pack/unpacker.hpp:1292-1308 | If the reader's map iterates in another order, whatever it is, the version pass succeeds but gives each place of the reader's order the compatible field of the same place of the writer's: the map is the written one if and only if in every place the two fields are equal |
| `MapOrder.MapPass` | include/yalanting/include/ylt/struct_pack/packer.hpp:491-495 | The version pass of one list of entries read into another one gives the reader's keys and plain fields with the writer's compatible fields, place by place |
| `Exchange.SerializeDeserialize` | include/yalanting/include/ylt/struct_pack/unpacker.hpp:100-158 | The packer run on a value and the unpacker on the buffer it returned: Ok, the value, and the cursor at the end of the buffer, exactly if the value is recoverable, and always for safe types |
| `Exchange.SerializeGetField` | include/yalanting/include/ylt/struct_pack/unpacker.hpp:220-280 | The packer run on a struct and get_field on the buffer it returned: Ok and field i exactly if that field can be reached and restored |
| `Rejection.ForeignRefused` | include/yalanting/include/ylt/struct_pack/unpacker.hpp:575-582 | On any bytes and into any object: if the first four are not the type's hash, deserialising gives invalid_buffer behind them and leaves the object alone |
| `Rejection.ForeignFieldRefused` | include/yalanting/include/ylt/struct_pack/unpacker.hpp:575-582 | The same for get_field |
| `Rejection.WrittenHash` | include/yalanting/include/ylt/struct_pack/packer.hpp:100-110 | What was written with one hash does not have another one, whether metainfo follows or not |
| `Rejection.CollisionRefused` | include/yalanting/include/ylt/struct_pack/unpacker.hpp:515-539 | The same hash with another type literal is hash_conflict behind that literal, or no_buffer_space if the buffer ends before, and the object is left alone |
| `Rejection.BadIndexRefused` | include/yalanting/include/ylt/struct_pack/unpacker.hpp:1163-1177 | On any bytes a variant gives invalid_buffer if and only if the index is beyond the alternatives, and is left alone then |
| `Rejection.AnyFlagCounts` | include/yalanting/include/ylt/struct_pack/unpacker.hpp:1137-1162 | Every flag but 0 announces the content of an optional |
| `Rejection.AnyFlagIsValue` | include/yalanting/include/ylt/struct_pack/unpacker.hpp:1137-1162 | Every flag but 0 announces a value of an expected, which throws where the object holds an error |
| `Rejection.LongVarintRefused` | include/yalanting/include/ylt/struct_pack/varint.hpp:278-329 | Ten bytes with their top bit set are invalid_buffer and leave the integer alone |
| `Rejection.EmptyRefused` | include/yalanting/include/ylt/struct_pack/unpacker.hpp:753-1238 | At the end of the buffer every type that takes any bytes is no_buffer_space, and the object is left alone |
| `Rejection.ShortVarintRefused` | include/yalanting/include/ylt/struct_pack/varint.hpp:278-329 | A varint cut off by the end of the buffer is no_buffer_space and leaves the integer alone |
| `Rejection.WideBlockRefused` | include/yalanting/include/ylt/struct_pack/unpacker.hpp:704-751 | A block with width code 3 in a struct without 64-bit integers is invalid_buffer and touches no field |
| `Rejection.LongVectorRefused` | include/yalanting/include/ylt/struct_pack/unpacker.hpp:1010-1093 | A vector of bulk-copied elements that announces more than the buffer holds is no_buffer_space and keeps its elements |
| `Rejection.FailsAtField` | include/yalanting/include/ylt/struct_pack/unpacker.hpp:614-634 | A failing read of fields has the code and the cursor of one field, and the fields behind it are as they were |
| `Rejection.FailsAtItem` | include/yalanting/include/ylt/struct_pack/unpacker.hpp:855-875 | The same for the elements of an array and in version passes |
| `Rejection.FailsAtElement` | include/yalanting/include/ylt/struct_pack/unpacker.hpp:956-1107 | A failing read of a container has the code and the cursor of one element, which is kept as the last one, or not kept in maps and sets |
| `Rejection.FailsAtWord` | include/yalanting/include/ylt/struct_pack/unpacker.hpp:646-702 | A block whose words end too early: the integer without a word becomes 0 if unsigned and stays if signed, and all fields behind it stay |
| `Rejection.SkipErrorIgnored` | include/yalanting/include/ylt/struct_pack/unpacker.hpp:1376-1391 | get_field goes on behind a field that cannot be skipped |
| `Exchange.SerializeDeserializeAs` | include/yalanting/include/ylt/struct_pack/unpacker.hpp:100-158 | The packer run with one type and the unpacker with any other: another hash is invalid_buffer behind the hash, the same hash with another literal of the same length hash_conflict behind it, and the object is left alone |
| `Exchange.DeserializeForeign` | include/yalanting/include/ylt/struct_pack/unpacker.hpp:100-158 | The unpacker run on any bytes that do not begin with the type's hash: invalid_buffer, the object left alone, four bytes read |
| `Exchange.GetForeignField` | include/yalanting/include/ylt/struct_pack/unpacker.hpp:220-280 | The same for get_field |
| `Message.AnnouncedSizeExact` | include/yalanting/include/ylt/struct_pack/calculate_size.hpp:406-473 | The packer writes exactly as many bytes as the runtime info announces, over all passes together |
| `Message.WidthFits` | include/yalanting/include/ylt/struct_pack/calculate_size.hpp:406-473 | Every container length fits the width chosen for the buffer, and no smaller one of 1, 2, 4, 8 bytes would do |
| `Message.InfoShape` | include/yalanting/include/ylt/struct_pack/calculate_size.hpp:406-473 | The field for the total length holds that length although it counts itself; the metainfo says which parts follow |
| `Message.TotalCodeFits` | include/yalanting/include/ylt/struct_pack/calculate_size.hpp:406-473 | The width chosen before the length field is added still fits afterwards |
| `Message.TotalFieldLeast` | include/yalanting/include/ylt/struct_pack/calculate_size.hpp:450-470 | With compatible fields the length field has the least of the widths 2, 4, 8 that holds the length of everything, itself included |
| `Message.WidthHoldsLengths` | include/yalanting/include/ylt/struct_pack/calculate_size.hpp:406-473 | The width code is the least one whose width holds the length of every container in the value |
| `Message.NothingSuperfluous` | include/yalanting/include/ylt/struct_pack/calculate_size.hpp:406-473 | The whole size: hash, metainfo byte only if a compatible field, a wanted literal, a wide length or, without hash, a container calls for it, length field and literal only when needed, and the value |
| `Message.ContainerMeans` | include/yalanting/include/ylt/struct_pack/type_calculate.hpp:746-820 | A type has a container if and only if some value of it has a length to write |
| `Encoding.MaxLengthExact` | include/yalanting/include/ylt/struct_pack/calculate_size.hpp:39-182 | The greatest length that the sizer finds is that of a container in the value, and none is longer |
| `Encoding.NegativeTakesTen` | include/yalanting/include/ylt/struct_pack/varint.hpp:249-272 | A negative integer without zigzag takes ten bytes, narrow ones too |
| `Message.HeadRoundTrip` | include/yalanting/include/ylt/struct_pack/unpacker.hpp:541-612 | The head written for one type is read by every type with the same hash and literal: same width, same total length, cursor behind it |
| `Message.BodyRoundTrip` | include/yalanting/include/ylt/struct_pack/unpacker.hpp:100-158 | Plain pass and version passes one behind the other restore the whole value, exactly if it is recoverable |
| `Message.VersionsRoundTrip` | include/yalanting/include/ylt/struct_pack/unpacker.hpp:282-356 | The passes over any list of versions that are still to come add exactly those compatible fields, if what they hold is restorable, and fail to do so otherwise |
| `Message.VersionsKeep` | include/yalanting/include/ylt/struct_pack/unpacker.hpp:282-356 | On any bytes the version passes change neither plain fields nor compatible fields of other versions |
| `Evolution.OldReadsNew` | include/yalanting/include/ylt/struct_pack/compatible.hpp:51-80 | A program that knows only the type without the compatible fields of version m and later reads the newer bytes: no error, exactly the older part of the value, and the cursor exactly in front of the newer passes, if and only if that part is recoverable |
| `Evolution.NewReadsOld` | include/yalanting/include/ylt/struct_pack/compatible.hpp:51-80 | A program that knows the newer type reads the older bytes: no error, the older value with every new field null, cursor at the end, if and only if that value is recoverable |
| `Evolution.NewHeld` | include/yalanting/include/ylt/struct_pack/compatible.hpp:51-80 | Null fields add nothing to that condition: it is the one of the plain fields and of the older versions |
| `Evolution.BytesBefore` | include/yalanting/include/ylt/struct_pack/packer.hpp:241-532 | In every pass that both types have they write the same bytes, although new fields stand between the old ones |
| `Evolution.BlockBefore` | include/yalanting/include/ylt/struct_pack/packer.hpp:204-239 | New fields do not reach the fast-varint block of their struct |
| `Evolution.VersionsBefore` | include/yalanting/include/ylt/struct_pack/type_calculate.hpp:493-513 | The version passes of the newer type are those of the older type followed by new ones |
| `Evolution.CollectBefore` | include/yalanting/include/ylt/struct_pack/type_calculate.hpp:635-699 | The older type has exactly the version numbers below m, in the same order and with the same repetitions |
| `Evolution.NothingLeft` | include/yalanting/include/ylt/struct_pack/unpacker.hpp:1240-1262 | Behind the stored length a version pass changes neither object nor cursor, and its error is the one that is turned into success |
| `Evolution.InjectSound` | include/yalanting/include/ylt/struct_pack/compatible.hpp:51-80 | The older value with null fields added is a value of the newer type, projects back to the older value, has no longer container, and is what a reader knows that has seen the old versions |
| `Evolution.ProjectTyped` | include/yalanting/include/ylt/struct_pack/compatible.hpp:51-80 | Leaving out the new fields of a value gives a value of the older type |
| `Evolution.BeforeSound` | include/yalanting/include/ylt/struct_pack/compatible.hpp:51-80 | The older type satisfies the library's static assertions if the newer one does |
| `Evolution.LengthBefore` | include/yalanting/include/ylt/struct_pack/calculate_size.hpp:39-182 | No container is longer in the older value |
| `Truncation.TruncationDetected` | include/yalanting/include/ylt/struct_pack/unpacker.hpp:45-75 | For types of integers, varints, arrays, containers, maps and sets, structs and compatible fields every proper prefix of a serialised buffer that ends in front of the version passes is reported as no_buffer_space; without compatible fields these are all proper prefixes |
| `Truncation.PrefixFree` | include/yalanting/include/ylt/struct_pack/packer.hpp:69-78 | For all types without compatible fields, whether they can be read back or not: no serialised value is a proper prefix of another one, and equal bytes mean equal values |
| `Truncation.PlainInjective` | include/yalanting/include/ylt/struct_pack/packer.hpp:241-532 | The same for the plain pass alone, up to the compatible fields |
| `Truncation.CutPlain` | include/yalanting/include/ylt/struct_pack/unpacker.hpp:753-1238 | A cut anywhere inside the plain bytes of a value makes the read fail with no_buffer_space, whatever object is read into |
| `Truncation.CutBlock` | include/yalanting/include/ylt/struct_pack/unpacker.hpp:704-751 | A cut in the bitmap or in the integers of a fast-varint block is noticed |
| `Truncation.CutHead` | include/yalanting/include/ylt/struct_pack/unpacker.hpp:541-612 | A cut in the hash, the metainfo byte or the type literal is noticed |
| `Truncation.OptionalHidesTruncation` | include/yalanting/include/ylt/struct_pack/unpacker.hpp:1137-1162 | An optional or pointer cut off reports no_buffer_space exactly if not even the flag is there: the code of the content is dropped |
| `Truncation.ExpectedHidesTruncation` | include/yalanting/include/ylt/struct_pack/unpacker.hpp:1137-1162 | The same for an expected, value or error |
| `Truncation.VariantHidesTruncation` | include/yalanting/include/ylt/struct_pack/unpacker.hpp:1163-1177 | The same for a variant, whichever alternative it holds |
| `Truncation.CompatibleHidesTruncation` | include/yalanting/include/ylt/struct_pack/unpacker.hpp:1240-1262 | A compatible field cut off in its version pass reports no_buffer_space exactly if not even the flag is there |
| `FieldAccess.SkipEqualsRead` | include/yalanting/include/ylt/struct_pack/unpacker.hpp:753-1238 | On arbitrary bytes skipping ends where reading ends whenever reading succeeds, and for types without bulk-skipped maps and sets code and cursor agree in the error cases too |
| `FieldAccess.OptionalSetSkipped` | include/yalanting/include/ylt/struct_pack/unpacker.hpp:983-1003 | With an optional set of bulk-copied elements, where reading cannot fail, skipping goes equally far if and only if all announced elements are there or not even one is |
| `FieldAccess.SkipSerialized` | include/yalanting/include/ylt/struct_pack/unpacker.hpp:753-1238 | Over a serialised value of any type skipping goes exactly to its end, if and only if no value of an expected is asked for where an error was skipped |
| `FieldAccess.ErrorThenValue` | include/yalanting/include/ylt/struct_pack/unpacker.hpp:1108-1119 | A list of expecteds with a value behind an error can be read back but not skipped: skipping throws |
| `FieldAccess.NthOfSerialized` | include/yalanting/include/ylt/struct_pack/unpacker.hpp:1376-1391 | Field i of serialised fields is read exactly if the fields in front can be skipped and it can be restored |
| `FieldAccess.FieldOfSerialized` | include/yalanting/include/ylt/struct_pack/unpacker.hpp:220-280 | get_field number i of a serialised struct that is coded field by field is the value's field i, if and only if it can be reached and restored |
| `FieldAccess.FieldsExactly` | include/yalanting/include/ylt/struct_pack/unpacker.hpp:1376-1418 | For every struct without compatible fields: get_field is right for all values and all fields up to i if and only if, without a fast-varint block, none of these fields is a varint only because of the struct's tag, and with a block none of them takes any bytes at all |
| `Misreading.Confuses` | include/yalanting/include/ylt/struct_pack/unpacker.hpp:753-1238 | For every type that takes bytes there is a value that is never read where a block begins, whichever bytes follow |
| `Misreading.BlockStart` | include/yalanting/include/ylt/struct_pack/packer.hpp:204-239 | With at most the first integer not zero, and that one small, the block begins with 1 or 0 |
| `Misreading.NothingRead` | include/yalanting/include/ylt/struct_pack/unpacker.hpp:753-1238 | Fields that take no bytes are read without moving, anywhere |
| `Misreading.ConfusingRestorable` | include/yalanting/include/ylt/struct_pack/unpacker.hpp:435-464 | That value could be restored if it were read in its place |
| `FieldAccess.TaggedMisread` | include/yalanting/include/ylt/struct_pack/unpacker.hpp:1376-1391 | A field that only the tag makes a varint: 128 is written as two bytes that get_field, reading a plain integer, never takes for 128 |
| `FieldAccess.FastFieldMisread` | include/yalanting/include/ylt/struct_pack/unpacker.hpp:435-464 | With a block, get_field 0 never gives back an even number other than zero, whether the field is taken for a varint or for a plain integer: it is read from the bitmap |
| `RoundTrip.PlainRoundTrip` | include/yalanting/include/ylt/struct_pack/unpacker.hpp:753-1238 | Reading the plain pass into a fresh object gives the value with its compatible fields null and ends behind the bytes written, if and only if the value is restorable |
| `RoundTrip.PlainInto` | include/yalanting/include/ylt/struct_pack/unpacker.hpp:753-1238 | The same into any object whatever, exactly if the value covers what the object held: this is what the entries of maps and sets are read into |
| `RoundTrip.VersionRoundTrip` | include/yalanting/include/ylt/struct_pack/unpacker.hpp:1239-1374 | Reading the pass of version n into an object adds exactly the compatible fields of version n, through containers, optionals, expecteds and variants, if and only if what they hold is restorable |
| `RoundTrip.VersionKeeps` | include/yalanting/include/ylt/struct_pack/unpacker.hpp:1239-1374 | On any bytes the pass of version n leaves the plain fields and all other versions as they were |
| `RoundTrip.VarRoundTrip` | include/yalanting/include/ylt/struct_pack/varint.hpp:303-329 | Every variable-width integer comes back from its bytes |
| `Encoding.SizeExact` | include/yalanting/include/ylt/struct_pack/calculate_size.hpp:39-182 | One sizing pass over the value counts the bytes of the plain pass and of all version passes together |
| `Encoding.SizeSplits` | include/yalanting/include/ylt/struct_pack/calculate_size.hpp:39-182 | Sizer total plus lengths times width is the plain bytes plus the bytes of the compatible fields |
| `Encoding.PassBytes` | include/yalanting/include/ylt/struct_pack/calculate_size.hpp:39-182 | What the sizer counts for one more version is what the pass of that version writes |
| `Schema.WireRoundTrip` | include/yalanting/include/ylt/struct_pack/varint.hpp:249-329 | Widening to 64 bits, zigzag and narrowing back give the integer again, for all six integer kinds |
| `Schema.CollectFindsVersions` | include/yalanting/include/ylt/struct_pack/type_calculate.hpp:395-467 | A version is collected if and only if the type has a compatible field of that version |
| `Schema.KnownAll` | include/yalanting/include/ylt/struct_pack/unpacker.hpp:282-356 | Once all versions of the type have been passed nothing is unknown any more |
| `FastVarint.BlockRoundTrip` | include/yalanting/include/ylt/struct_pack/unpacker.hpp:704-751 | Reading a block into any object writes every non-zero integer with its sign, leaves the target of a zero and all other fields as they were, and ends behind the block |
| `FastVarint.LeastWidth` | include/yalanting/include/ylt/struct_pack/calculate_size.hpp:313-358 | The width is the least of 1, 2, 4, 8 bytes that holds all fields, signed and unsigned |
| `FastVarint.EightNeeds64` | include/yalanting/include/ylt/struct_pack/packer.hpp:228-236 | Eight bytes are chosen only if the struct has a 64-bit integer |
| `FastVarint.BlockSizeExact` | include/yalanting/include/ylt/struct_pack/calculate_size.hpp:372-384 | The sizer's own computation of the block is the number of bytes written |
| `FastVarint.WordRoundTrip` | include/yalanting/include/ylt/struct_pack/unpacker.hpp:646-684 | An integer cut to the common width, at most its own, is restored by zero or sign extension |
| `FastVarint.BitmapBits` | include/yalanting/include/ylt/struct_pack/packer.hpp:157-180 | Bit i of the bitmap is the i-th mark |
| `FastVarint.SameBits` | include/yalanting/include/ylt/struct_pack/packer.hpp:157-180 | A byte is determined by its eight bits |
| `Bytes.LERoundTrip` | include/yalanting/include/ylt/struct_pack/endian_wrapper.hpp:201-271 | A number below 256^width comes back from its little-endian bytes |
| `Bytes.LELowBytes` | include/yalanting/include/ylt/struct_pack/endian_wrapper.hpp:172-200 | Only the low bytes of a wider number are written |
| `Leb128.ZigZagMeaning` | include/yalanting/include/ylt/struct_pack/varint.hpp:189-210 | Shift and xor fold 0, -1, 1, -2, ... onto 0, 1, 2, 3, ..., within 32 or 64 bits, and decoding undoes it |
| `Leb128.ZigZagOnto` | include/yalanting/include/ylt/struct_pack/varint.hpp:189-210 | Encoding undoes decoding on all 64-bit numbers, so zigzag is a bijection |
| `Leb128.ScanOfLeb` | include/yalanting/include/ylt/struct_pack/varint.hpp:278-295 | A base-128 number is read back whatever stands before and behind it |
| `Leb128.ScanOfCutLeb` | include/yalanting/include/ylt/struct_pack/varint.hpp:278-295 | A base-128 number cut off by the end of the buffer is noticed at every place |
| `Leb128.LebFits` | include/yalanting/include/ylt/struct_pack/varint.hpp:212-240 | The length of a base-128 number is bounded by its size |
| `Leb128.CalculateVarintSize` | include/yalanting/include/ylt/struct_pack/varint.hpp:212-240 | The loop counts the bytes of the base-128 number; struct_pb has the same loop |
| `Leb128.TenthByte` | include/yalanting/include/ylt/struct_pack/varint.hpp:278-295 | Of the tenth byte one bit is kept: the shifts and ors give the number modulo 2^64 |
| `Leb128.ShortNumber` | include/yalanting/include/ylt/struct_pack/varint.hpp:278-295 | Up to nine bytes the shifts and ors give the number itself |
| `Leb128.CutOff` | include/yalanting/include/ylt/struct_pack/varint.hpp:278-295 | At the end of the buffer inside a number the decoder fails |
| `Leb128.NoLastByte` | include/yalanting/include/ylt/struct_pack/varint.hpp:278-295 | Ten bytes with their top bit set are no number |
| `Leb128.TopBit` | include/yalanting/include/ylt/struct_pack/varint.hpp:249-272 | The or with 0x80, cut to a byte, is the low seven bits and the continuation mark |
| `Bits.OrAbove` | include/yalanting/include/ylt/struct_pack/varint.hpp:278-295 | Or of a number below 2^k and a multiple of 2^k is their sum |
| `Bits.OrBit` | include/yalanting/include/ylt/struct_pack/packer.hpp:157-180 | Setting a bit changes no other bit |
| `Bits.XorOnes` | include/yalanting/include/ylt/struct_pack/varint.hpp:189-210 | Xor with k ones is the complement in k bits |
| `Versions.CompileTimeSort` | include/yalanting/include/ylt/struct_pack/util.h:88-101 | The exchange sort leaves the array sorted and a permutation of what it was |
| `Versions.CalculateUniquedSize` | include/yalanting/include/ylt/struct_pack/util.h:103-113 | For any array, sorted or not, the count is the length left when equal neighbours are dropped |
| `Versions.CompileTimeUnique` | include/yalanting/include/ylt/struct_pack/util.h:115-126 | For any array, sorted or not, the output is filled exactly with what is left when equal neighbours are dropped |
| `Versions.DedupedOfAny` | include/yalanting/include/ylt/struct_pack/util.h:103-126 | Dropping equal neighbours loses no element and leaves no two equal neighbours |
| `Versions.DedupedOfSorted` | include/yalanting/include/ylt/struct_pack/util.h:103-126 | Leaving out equal neighbours of a sorted list gives a strictly increasing list of the same elements |
| `Versions.CompatibleVersionNumbers` | include/yalanting/include/ylt/struct_pack/type_calculate.hpp:493-513 | Collecting, sorting and making unique in place gives the increasing list of the type's versions |
| `Versions.SortedUniqueIncreasing` | include/yalanting/include/ylt/struct_pack/type_calculate.hpp:493-513 | That list is strictly increasing and has exactly the collected versions |
| `Versions.IncreasingUnique` | include/yalanting/include/ylt/struct_pack/util.h:115-126 | A strictly increasing list is determined by its elements, so the result does not depend on how it is computed |
| `Packer.CalculateOneSize` | include/yalanting/include/ylt/struct_pack/calculate_size.hpp:39-182 | The running total, count of lengths and maximal length are those of the value |
| `Packer.CalculatePayloadSize` | include/yalanting/include/ylt/struct_pack/calculate_size.hpp:184-188 | The same over the fields of a struct |
| `Packer.CalculateFastVarintSize` | include/yalanting/include/ylt/struct_pack/calculate_size.hpp:279-384 | One loop with running maxima and counts of non-zero fields gives the size of the block |
| `Packer.GetSerializeRuntimeInfo` | include/yalanting/include/ylt/struct_pack/calculate_size.hpp:406-473 | The announced length, width code and metainfo are those of the value |
| `Packer.RuntimeInfoOf` | include/yalanting/include/ylt/struct_pack/calculate_size.hpp:419-473 | The same, given what the sizer found |
| `Packer.SerializeToBuffer` | include/yalanting/include/ylt/struct_pack/packer.hpp:538-589 | A buffer of exactly the announced size is filled to its last byte with the serialised value |
| `Packer.Packer.Write` | include/yalanting/include/ylt/struct_pack/reflection.hpp:290-296 | Appends the bytes; those in front and those behind them stay as they are |
| `Packer.Packer.SerializeVarint` | include/yalanting/include/ylt/struct_pack/varint.hpp:249-272 | The loop over seven-bit groups appends the varint of the integer |
| `Packer.Packer.GetFastVarintWidth` | include/yalanting/include/ylt/struct_pack/packer.hpp:157-192 | One loop sets the mark of every non-zero integer and finds the width |
| `Packer.Packer.FillBitmap` | include/yalanting/include/ylt/struct_pack/packer.hpp:205-216 | The array then holds the marks followed by the width code, and nothing else |
| `Packer.Packer.SerializeWords` | include/yalanting/include/ylt/struct_pack/packer.hpp:194-202 | Appends the non-zero integers at the common width |
| `Packer.Packer.SerializeFastVarint` | include/yalanting/include/ylt/struct_pack/packer.hpp:204-239 | Appends the block |
| `Packer.Packer.SerializeOne` | include/yalanting/include/ylt/struct_pack/packer.hpp:241-532 | Appends the bytes of one pass over the value |
| `Packer.Packer.SerializeOptional` | include/yalanting/include/ylt/struct_pack/packer.hpp:388-393 | Appends the flag, in the plain pass, and the content |
| `Packer.Packer.SerializeElems` | include/yalanting/include/ylt/struct_pack/packer.hpp:296-380 | Appends the elements one after the other |
| `Packer.Packer.SerializeMany` | include/yalanting/include/ylt/struct_pack/packer.hpp:142-150 | Appends the fields, leaving out the integers of the block |
| `Packer.Packer.SerializeMetainfo` | include/yalanting/include/ylt/struct_pack/packer.hpp:100-139 | Appends the head |
| `Packer.Packer.SerializeMoreMetainfo` | include/yalanting/include/ylt/struct_pack/packer.hpp:110-139 | Appends the metainfo byte, the total length and the type literal |
| `Packer.Packer.SerializeVersion` | include/yalanting/include/ylt/struct_pack/packer.hpp:59-67 | Appends the pass of the next version |
| `Packer.Packer.SerializeVersions` | include/yalanting/include/ylt/struct_pack/packer.hpp:59-67 | Appends one pass a version, in increasing order |
| `Packer.Packer.Serialize` | include/yalanting/include/ylt/struct_pack/packer.hpp:69-78 | Appends head, plain pass and version passes |
| `Packer.MarkMore` | include/yalanting/include/ylt/struct_pack/packer.hpp:157-180 | Setting the bit of the next field adds its mark and keeps the others |
| `Packer.MarkedIsBitmap` | include/yalanting/include/ylt/struct_pack/packer.hpp:205-216 | A bitmap is determined by its bits |
| `Unpacker.Unpacker.Read` | include/yalanting/include/ylt/struct_pack/unpacker.hpp:45-75 | Succeeds exactly if enough bytes are left, and moves the cursor only then |
| `Unpacker.Unpacker.DeserializeVarintImpl` | include/yalanting/include/ylt/struct_pack/varint.hpp:278-295 | The loop gives the base-128 number modulo 2^64, or no_buffer_space at the end of the buffer, or invalid_buffer behind ten bytes |
| `Unpacker.Unpacker.DeserializeVarint` | include/yalanting/include/ylt/struct_pack/varint.hpp:303-329 | The integer is stored only if the number was read; a failed read leaves it alone |
| `Unpacker.Unpacker.DeserializeFastVarintHelper` | include/yalanting/include/ylt/struct_pack/unpacker.hpp:684-702 | The fields up to the first missing word are filled; an unsigned field whose word is missing becomes 0, all others are as before |
| `Unpacker.Unpacker.DeserializeFastVarint` | include/yalanting/include/ylt/struct_pack/unpacker.hpp:704-751 | Width 8 without a 64-bit field is invalid_buffer; else bitmap and words are read |
| `Unpacker.Unpacker.DeserializeOne` | include/yalanting/include/ylt/struct_pack/unpacker.hpp:753-1374 | Code, object and cursor of one pass are those of the reference reader, in every error case |
| `Unpacker.Unpacker.DeserializeOptional` | include/yalanting/include/ylt/struct_pack/unpacker.hpp:1137-1162 | An absent content leaves the object alone; of a present one the code is dropped and only an exception goes through |
| `Unpacker.Unpacker.DeserializeExpected` | include/yalanting/include/ylt/struct_pack/unpacker.hpp:1137-1162 | The same for value or error; reading a value where the object holds an error throws |
| `Unpacker.Unpacker.DeserializeVariant` | include/yalanting/include/ylt/struct_pack/unpacker.hpp:1163-1177 | An index out of range is invalid_buffer; else that alternative is built and its code dropped |
| `Unpacker.Unpacker.DeserializeStruct` | include/yalanting/include/ylt/struct_pack/unpacker.hpp:1213-1236 | The block first, then the other fields |
| `Unpacker.Unpacker.DeserializeContainer` | include/yalanting/include/ylt/struct_pack/unpacker.hpp:876-1124 | A length of 0 leaves the object alone; contiguous trivial elements are checked against the room before any is read |
| `Unpacker.Unpacker.DeserializeElems` | include/yalanting/include/ylt/struct_pack/unpacker.hpp:1284-1331 | The elements that are there, up to the first error |
| `Unpacker.Unpacker.DeserializeNew` | include/yalanting/include/ylt/struct_pack/unpacker.hpp:956-1107 | New elements up to the first error: in their places, the failing one kept, or for maps and sets in one object that is moved from after each, the failing one not added |
| `Unpacker.Unpacker.DeserializeBody` | include/yalanting/include/ylt/struct_pack/unpacker.hpp:100-158 | Plain pass and, if there are compatible fields and no error, the version passes |
| `Unpacker.Unpacker.DeserializeMany` | include/yalanting/include/ylt/struct_pack/unpacker.hpp:614-634 | The fields up to the first error |
| `Unpacker.Unpacker.SkipOne` | include/yalanting/include/ylt/struct_pack/unpacker.hpp:753-1238 | Code, cursor and what is left in the object are those of the reference skipper, about which the field-access theorems are stated |
| `Unpacker.Unpacker.SkipOptional` | include/yalanting/include/ylt/struct_pack/unpacker.hpp:1137-1162 | The content is skipped and its code dropped |
| `Unpacker.Unpacker.SkipExpected` | include/yalanting/include/ylt/struct_pack/unpacker.hpp:1137-1162 | An error leaves an error in the object, and a value where the object holds an error throws |
| `Unpacker.Unpacker.SkipVariant` | include/yalanting/include/ylt/struct_pack/unpacker.hpp:1163-1177 | An index out of range is invalid_buffer; else that alternative is skipped |
| `Unpacker.Unpacker.SkipStruct` | include/yalanting/include/ylt/struct_pack/unpacker.hpp:1213-1236 | The block by its marks, then the other fields |
| `Unpacker.Unpacker.SkipContainer` | include/yalanting/include/ylt/struct_pack/unpacker.hpp:876-1119 | Bulk-copied elements are skipped in one step, except those of a list; others one by one |
| `Unpacker.Unpacker.SkipRun` | include/yalanting/include/ylt/struct_pack/unpacker.hpp:1108-1119 | Elements are skipped into one object up to the first error |
| `Unpacker.Unpacker.SkipItems` | include/yalanting/include/ylt/struct_pack/unpacker.hpp:855-875 | The elements of an array are skipped each into its own object |
| `Unpacker.Unpacker.SkipMany` | include/yalanting/include/ylt/struct_pack/unpacker.hpp:614-634 | Fields are skipped up to the first error |
| `Unpacker.Unpacker.SkipFastVarint` | include/yalanting/include/ylt/struct_pack/unpacker.hpp:704-751 | The block is skipped by its marks |
| `Unpacker.Unpacker.ForEach` | include/yalanting/include/ylt/struct_pack/unpacker.hpp:1376-1391 | The fields in front are skipped with their codes dropped, then field i is read; an exception ends it |
| `Unpacker.Unpacker.GetField` | include/yalanting/include/ylt/struct_pack/unpacker.hpp:220-280 | Head, the fields in front skipped with their codes dropped, then field i is read |
| `Unpacker.Unpacker.DeserializeMetainfo` | include/yalanting/include/ylt/struct_pack/unpacker.hpp:541-612 | A wrong hash is invalid_buffer; the width of container lengths is set only on success |
| `Unpacker.Unpacker.DeserializeMoreMetainfo` | include/yalanting/include/ylt/struct_pack/unpacker.hpp:483-539 | A wrong type literal is hash_conflict; the total length is that of the reference reader |
| `Unpacker.Unpacker.DeserializeCompatibles` | include/yalanting/include/ylt/struct_pack/unpacker.hpp:282-356 | The passes stop at the first error; missing fields at the end are no error |
| `Unpacker.Unpacker.Deserialize` | include/yalanting/include/ylt/struct_pack/unpacker.hpp:100-158 | The whole object, code and cursor, also in the error cases |
| `Unpacker.PlainNotMissing` | include/yalanting/include/ylt/struct_pack/unpacker.hpp:1240-1262 | The plain pass never sets the tag for missing compatible fields |
| `WeightedRoundRobin.Fairness` | include/yalanting/include/ylt/coro_io/channel.hpp:97-115 | For weights that are not all zero, whatever came before: any sum/gcd consecutive calls pick server i exactly weight/gcd times, and the state afterwards is the one they started from |
| `WeightedRoundRobin.Balancer.Select` | include/yalanting/include/ylt/coro_io/channel.hpp:97-115 | The next state of the cycle, within as many loop passes as there are servers; plain turns when all weights are zero |
| `WeightedRoundRobin.Balancer.Call` | include/yalanting/include/ylt/coro_io/channel.hpp:86-95 | The pool is the server selected, the -1 of all-zero weights included |
| `WeightedRoundRobin.Balancer.MaxWeightGcd` | include/yalanting/include/ylt/coro_io/channel.hpp:117-126 | The loop finds the common divisor of all weights |
| `WeightedRoundRobin.Balancer.MaxWeight` | include/yalanting/include/ylt/coro_io/channel.hpp:128-130 | The maximum of the weights |
| `WeightedRoundRobin.GcdOfDivisors` | include/yalanting/include/ylt/coro_io/channel.hpp:117-126 | Exactly the common divisors of all weights divide it |
| `WeightedRoundRobin.TickProgress` | include/yalanting/include/ylt/coro_io/channel.hpp:97-115 | A loop pass that meets a heavy enough server makes the next pick of the cycle; any other one changes nothing about the picks to come |
| `WeightedRoundRobin.NextReachable` | include/yalanting/include/ylt/coro_io/channel.hpp:97-115 | Every call leads to a reachable state and takes the first of the upcoming picks |
| `WeightedRoundRobin.RunIsCyclic` | include/yalanting/include/ylt/coro_io/channel.hpp:97-115 | From the first call on the states go round one fixed cycle |
| `WeightedRoundRobin.WindowOfCycle` | include/yalanting/include/ylt/coro_io/channel.hpp:97-115 | Consecutive calls are a stretch of the cycle, perhaps round its end |
| `WeightedRoundRobin.CycleIsFair` | include/yalanting/include/ylt/coro_io/channel.hpp:97-115 | The cycle is sum/gcd long and holds server i weight/gcd times |
| `DragonboxToChars.ToChars` | include/yalanting/include/ylt/util/dragonbox_to_chars.h:333-557 | For every significand below 10^17 the characters written, read as scientific notation, denote exactly significand * 10^exponent; up to 16 digits no superfluous zero is written in front of E, of 17 digits either all or, if the last eight are zeros, nine; behind E stand a minus only for negative exponents and digits without a leading zero |
| `DragonboxToChars.DenotesOne` | include/yalanting/include/ylt/util/dragonbox_to_chars.h:333-557 | A text denotes one number only, so the characters cannot stand for another significand |
| `DragonboxToChars.Print9Digits` | include/yalanting/include/ylt/util/dragonbox_to_chars.h:110-302 | 1 to 9 digits: the characters and the shift of the exponent give the number, zeros trimmed below 9 digits |
| `DragonboxToChars.PrintSignificand` | include/yalanting/include/ylt/util/dragonbox_to_chars.h:333-523 | All branches for one or two blocks: the text times 10^shift is the significand |
| `DragonboxToChars.PrintBlock` | include/yalanting/include/ylt/util/dragonbox_to_chars.h:138-287 | 3 to 8 digits with trailing zeros left out |
| `DragonboxToChars.PrintRest` | include/yalanting/include/ylt/util/dragonbox_to_chars.h:164-204 | The nested tests for remaining zeros leave out exactly the trailing zeros |
| `DragonboxToChars.PrintAll` | include/yalanting/include/ylt/util/dragonbox_to_chars.h:126-134 | Two digits a step from the fixed-point product are the digits of the number |
| `DragonboxToChars.PrintFullBlock` | include/yalanting/include/ylt/util/dragonbox_to_chars.h:400-468 | The first of two blocks, no digit left out |
| `DragonboxToChars.PrintNine` | include/yalanting/include/ylt/util/dragonbox_to_chars.h:119-137 | Nine digits, no digit left out |
| `DragonboxToChars.PrintFirstBlock` | include/yalanting/include/ylt/util/dragonbox_to_chars.h:400-477 | A first block of 1 to 8 digits, no digit left out |
| `DragonboxToChars.PrintSecondBlock` | include/yalanting/include/ylt/util/dragonbox_to_chars.h:478-522 | Eight digits behind a first block, trailing zeros left out |
| `DragonboxToChars.PrintFullSecondBlock` | include/yalanting/include/ylt/util/dragonbox_to_chars.h:380-394 | Eight digits behind a block of nine |
| `DragonboxToChars.PrintExponent` | include/yalanting/include/ylt/util/dragonbox_to_chars.h:525-557 | Sign and digits after E read back as the exponent, without a superfluous zero or minus |
| `DragonboxToChars.PrintSmall` | include/yalanting/include/ylt/util/dragonbox_to_chars.h:535-554 | 1 to 3 digits, the first one no zero unless it is the only one |
| `DragonboxToChars.WriteHead` | include/yalanting/include/ylt/util/dragonbox_to_chars.h:150-152 | First digit, point and second digit from the head table |
| `DragonboxToChars.TensLookup` | include/yalanting/include/ylt/util/dragonbox_to_chars.h:55-76 | Entry i of the digit table is the two digits of i |
| `DragonboxToChars.HeadLookup` | include/yalanting/include/ylt/util/dragonbox_to_chars.h:77-98 | Entry i of the head table is the first digit of i and a point |
| `DragonboxToChars.TracksSplit` | include/yalanting/include/ylt/util/dragonbox_to_chars.h:110-302 | The upper word of the product holds exactly the leading digits, the lower word tracks the others |
| `DragonboxToChars.TracksNext` | include/yalanting/include/ylt/util/dragonbox_to_chars.h:110-302 | Multiplying the lower word by 100 brings up the next two digits |
| `DragonboxToChars.TracksZero` | include/yalanting/include/ylt/util/dragonbox_to_chars.h:155-204 | The comparison of the lower word with 2^32/10^m holds exactly if the digits left are all zero |
| `DragonboxToChars.Start9` | include/yalanting/include/ylt/util/dragonbox_to_chars.h:119-124 | The magic product for nine digits is close enough |
| `DragonboxToChars.Start8` | include/yalanting/include/ylt/util/dragonbox_to_chars.h:138-146 | The magic product for seven or eight digits is close enough |
| `DragonboxToChars.Start6` | include/yalanting/include/ylt/util/dragonbox_to_chars.h:205-214 | The magic product for five or six digits is close enough |
| `DragonboxToChars.Start4` | include/yalanting/include/ylt/util/dragonbox_to_chars.h:253-262 | The magic product for three or four digits is close enough |
| `DragonboxToChars.StartSecond` | include/yalanting/include/ylt/util/dragonbox_to_chars.h:380-386 | The magic product for a second block is close enough, zero included |
| `DragonboxToChars.TenthOf` | include/yalanting/include/ylt/util/dragonbox_to_chars.h:535-544 | Multiplication by 6554 and shifts give quotient and remainder by ten up to 999 |
| `DragonboxToChars.LowerBlock` | include/yalanting/include/ylt/util/dragonbox_to_chars.h:341-344 | The wrapping 32-bit subtraction leaves the last eight digits |
| `Dragonbox.RemoveTrailingZeros32` | include/yalanting/include/ylt/util/dragonbox.h:2531-2556 | n is m * 10^s and m ends in no zero, for all 32-bit n other than 0 |
| `Dragonbox.RemoveTrailingZeros64` | include/yalanting/include/ylt/util/dragonbox.h:2557-2621 | The same through the test for 10^8, for all 64-bit n whose quotient by 10^8, when it divides, fits 32 bits |
| `Dragonbox.QuotientKept` | include/yalanting/include/ylt/util/dragonbox.h:2566-2572 | The cut to 32 bits keeps the quotient if and only if n < 2^32 * 10^8, so up to 17 digits |
| `Dragonbox.MagicTest` | include/yalanting/include/ylt/util/dragonbox.h:2560-2572 | For all 64-bit n the test on the 128-bit product holds if and only if 10^8 divides n, and then the upper bits are the quotient |
| `Dragonbox.Hundreds32` | include/yalanting/include/ylt/util/dragonbox.h:2535-2543 | Rotated product with the inverse of 25: small if and only if 100 divides n, and then the quotient |
| `Dragonbox.Tens32` | include/yalanting/include/ylt/util/dragonbox.h:2549-2553 | Rotated product with the inverse of 5: small if and only if 10 divides n, and then the quotient |
| `Dragonbox.Hundreds64` | include/yalanting/include/ylt/util/dragonbox.h:2599-2607 | The same on 64 bits |
| `Dragonbox.Tens64` | include/yalanting/include/ylt/util/dragonbox.h:2613-2617 | The same on 64 bits |
| `Dragonbox.StripZeros32` | include/yalanting/include/ylt/util/dragonbox.h:2574-2595 | The 32-bit loop, from eight zeros that are known already |
| `Dragonbox.StripZeros64` | include/yalanting/include/ylt/util/dragonbox.h:2598-2619 | The 64-bit loop |
| `Dragonbox.StrippedOnce` | include/yalanting/include/ylt/util/dragonbox.h:2530-2621 | There is only one way to strip all trailing zeros |
| `Dragonbox.UMul128Exact` | include/yalanting/include/ylt/util/dragonbox.h:444-469 | The four 32-bit products with carries give exactly x * y |
| `Dragonbox.AddExact` | include/yalanting/include/ylt/util/dragonbox.h:412-432 | 128-bit plus 64-bit with carry |
| `Dragonbox.UMul192Upper128Exact` | include/yalanting/include/ylt/util/dragonbox.h:497-502 | The upper 128 bits of the 192-bit product |
| `Dragonbox.DivideBy100Exact` | include/yalanting/include/ylt/util/dragonbox.h:699-722 | Multiplication and shift divide every 32-bit number by 100 |
| `Dragonbox.DivideBy1000Exact` | include/yalanting/include/ylt/util/dragonbox.h:699-722 | Multiplication and shift divide by 1000 up to the bound the library asserts, and fail one above it |
| `Dragonbox.CheckAndDivideBy10` | include/yalanting/include/ylt/util/dragonbox.h:667-683 | Divisibility and quotient from one product, for all n <= 100 |
| `Dragonbox.CheckAndDivideBy100` | include/yalanting/include/ylt/util/dragonbox.h:667-683 | Divisibility and quotient from one product, for all n <= 1000 |
| `Protobuf.DecodeVarint` | include/yalanting/include/ylt/struct_pb/struct_pb_impl.hpp:58-103 | One-byte path, unrolled path and loop path give the base-128 number modulo 2^64, on every buffer and position |
| `Protobuf.DecodeUnrolled` | include/yalanting/include/ylt/struct_pb/struct_pb_impl.hpp:72-89 | The ten unrolled steps agree with the mathematical decoder |
| `Protobuf.DecodeLoop` | include/yalanting/include/ylt/struct_pb/struct_pb_impl.hpp:90-102 | The loop over the last bytes agrees with the mathematical decoder |
| `Protobuf.SerializeVarint` | include/yalanting/include/ylt/struct_pb/struct_pb_impl.hpp:104-112 | Writes the varint and nothing else |
| `Protobuf.VarintRoundTrip` | include/yalanting/include/ylt/struct_pb/struct_pb_impl.hpp:58-112 | The one result a decoder can have on a written 64-bit number is that number, ending behind its bytes |
| `Protobuf.DeserializeUnknown` | include/yalanting/include/ylt/struct_pb/struct_pb_impl.hpp:125-181 | The four wire types: end of the payload, what is kept, and exactly when it fails; other wire types succeed where they stand |
| `Protobuf.CutPayload` | include/yalanting/include/ylt/struct_pb/struct_pb_impl.hpp:125-181 | A well-formed field of any wire type whose payload is cut off anywhere has no end |
| `Protobuf.RefuseCut` | include/yalanting/include/ylt/struct_pb/struct_pb_impl.hpp:125-181 | Reading a field whose payload is cut off is refused and keeps nothing |
| `Protobuf.LengthTest` | include/yalanting/include/ylt/struct_pb/struct_pb_impl.hpp:154-166 | The length test of wire type 2 is exact unless position plus length overflows |
| `Protobuf.KeepOne` | include/yalanting/include/ylt/struct_pb/struct_pb_impl.hpp:119-181 | One well-formed unknown field is kept byte for byte |
| `Protobuf.KeepUnknown` | include/yalanting/include/ylt/struct_pb/struct_pb_impl.hpp:119-181 | For every sequence of well-formed unknown fields: reading consumes the whole buffer and writing gives the same bytes back, with total_size the length |
| `Protobuf.UnknownFields.AddField` | include/yalanting/include/ylt/struct_pb.hpp:46-48 | Appends the stretch of the buffer |
| `Protobuf.UnknownFields.TotalSize` | include/yalanting/include/ylt/struct_pb.hpp:32-38 | The loop sums the lengths of what will be written |
| `Protobuf.UnknownFields.SerializeTo` | include/yalanting/include/ylt/struct_pb.hpp:39-45 | Writes the kept bytes in order, nothing else |
| `RateLimiter.RunBudget` | include/yalanting/include/ylt/coro_io/rate_limiter.hpp:103-120 | Over any run at a fixed rate: permits granted times interval plus what is stored is at most what was stored, plus the advance of the next-free time, plus one millisecond a request; the bounds hold and the next-free time never goes back |
| `RateLimiter.ReserveExact` | include/yalanting/include/ylt/coro_io/rate_limiter.hpp:103-120 | A request that the stored permits cover takes them and costs no time; any other takes them all and moves the next-free time by the whole milliseconds of the price of the rest |
| `RateLimiter.RunUses` | include/yalanting/include/ylt/coro_io/rate_limiter.hpp:103-120 | The other side of the budget, over any run at a fixed rate: nothing is lost but what a full bucket lets go and one millisecond a request |
| `RateLimiter.ReserveUses` | include/yalanting/include/ylt/coro_io/rate_limiter.hpp:103-120 | The same for one request |
| `RateLimiter.GrantedBy` | include/yalanting/include/ylt/coro_io/rate_limiter.hpp:103-120 | The permits of requests whose tickets are due by some time cost at most a full bucket, the time that passes until then and one millisecond a request |
| `RateLimiter.ReserveNoSlower` | include/yalanting/include/ylt/coro_io/rate_limiter.hpp:103-120 | A request moves the next-free time by its price at most |
| `RateLimiter.ReserveBudget` | include/yalanting/include/ylt/coro_io/rate_limiter.hpp:103-120 | The same for one request |
| `RateLimiter.ReserveSound` | include/yalanting/include/ylt/coro_io/rate_limiter.hpp:103-120 | 0 <= stored <= max is kept and the next-free time does not go back |
| `RateLimiter.NegativePermits` | include/yalanting/include/ylt/coro_io/rate_limiter.hpp:103-120 | With a negative request the upper bound is kept if and only if the added permits still fit |
| `RateLimiter.ResyncSound` | include/yalanting/include/ylt/coro_io/rate_limiter.hpp:76-95 | Resync keeps the bounds, never lowers stored permits and never moves back in time |
| `RateLimiter.ResyncExact` | include/yalanting/include/ylt/coro_io/rate_limiter.hpp:76-95 | A next-free time in the past becomes now, and stored permits grow by the whole milliseconds divided by the interval, up to the maximum; otherwise nothing changes |
| `RateLimiter.SetRateSound` | include/yalanting/include/ylt/coro_io/rate_limiter.hpp:151-160 | A new rate keeps the bounds and the filled share of the bucket; maximum and interval are those of the rate |
| `RateLimiter.Limiter.constructor` | include/yalanting/include/ylt/coro_io/rate_limiter.hpp:143-148 | An empty bucket of one second's permits |
| `RateLimiter.Limiter.Resync` | include/yalanting/include/ylt/coro_io/rate_limiter.hpp:76-95 | The fields afterwards |
| `RateLimiter.Limiter.SetRate` | include/yalanting/include/ylt/coro_io/rate_limiter.hpp:96-102 | The fields afterwards |
| `RateLimiter.Limiter.ReserveEarliestAvailable` | include/yalanting/include/ylt/coro_io/rate_limiter.hpp:103-120 | The ticket is the next-free time before the cost is added |
| `RateLimiter.Limiter.Acquire` | include/yalanting/include/ylt/coro_io/rate_limiter.hpp:31-64 | Sleeps the whole milliseconds until the ticket, never a negative time |
| `DoubleBufferQueue.NothingLost` | include/hound/double_buffered_queue.hpp:17-42 | In every interleaving of any number of writers and readers the enqueued items are, as a multiset, those in the two buffers and in the returned batches |
| `DoubleBufferQueue.StepConserves` | include/hound/double_buffered_queue.hpp:17-42 | Every atomic step keeps that |
| `DoubleBufferQueue.EnqueueInOrder` | include/hound/double_buffered_queue.hpp:17-28 | A whole enqueue between operations keeps the order |
| `DoubleBufferQueue.ReadInOrder` | include/hound/double_buffered_queue.hpp:31-42 | A whole read between operations returns the active buffer, so the batches are in the order of enqueueing |
| `DoubleBufferQueue.GuardedInOrder` | include/hound/double_buffered_queue.hpp:17-42 | Over every run of any number of overlapping writers and readers whose steps are guarded, the batches returned, the inactive and the active buffer are the enqueued items in their order |
| `DoubleBufferQueue.OrderExactly` | include/hound/double_buffered_queue.hpp:17-42 | For every step possible in an orderly state: no guarded steps behind it can put the batches out of order if and only if the step is guarded, that is, if a push goes to the active buffer, or to the inactive one while a read will fetch it and the active one holds nothing else, and a read begins while no other one has switched the buffers and not fetched |
| `DoubleBufferQueue.StepOrderly` | include/hound/double_buffered_queue.hpp:17-42 | A guarded step leads from orderly states to orderly states |
| `DoubleBufferQueue.OverlapReorders` | include/hound/double_buffered_queue.hpp:17-42 | One run in which an unguarded push makes a later item come out first |
| `DoubleBufferQueue.Queue.Enqueue` | include/hound/double_buffered_queue.hpp:17-28 | Appends to the active buffer |
| `DoubleBufferQueue.Queue.Read` | include/hound/double_buffered_queue.hpp:31-42 | Used by one thread: the batches so far are exactly the enqueued items in their order, and the new active buffer is empty |
| `DoubleBufferQueue.Queue.Size` | include/hound/double_buffered_queue.hpp:44-49 | What has been enqueued and not returned |
| `FlowTable.RunAll` | source/kafka_sink.cpp:93-110 | For every sequence of merges and cleaner passes and every key: the segments that left, in order of time, followed by the rest are the packets that arrived; every queued flow has exactly min_packets packets of its key; every dropped list had been silent for the timeout; the assertion on max_packets holds when min <= max |
| `FlowTable.FlowLeaves` | source/kafka_sink.cpp:97-106 | A list that leaves the table as a flow keeps that, and no stored list is empty |
| `FlowTable.PacketJoins` | source/_kafka_impl.cpp:29-39 | A packet that joins its list keeps that |
| `FlowTable.Sink.MergeOne` | source/_kafka_impl.cpp:29-40 | A list of min_packets is queued and the packet starts a new one, else it joins; whether the assertion holds |
| `FlowTable.Sink.Merge` | source/_kafka_impl.cpp:26-41 | The loop over the packets keeps the invariant |
| `FlowTable.Sink.Clean` | source/kafka_sink.cpp:97-107 | Every key is visited once, in any order; what leaves goes to the log, the short lists that are not timed out stay |
| `FlowTable.DepartsExactly` | source/kafka_sink.cpp:97-106 | In a pass a list is queued if and only if it has min_packets, and dropped if and only if it has fewer and its last packet is at least the timeout old; what leaves is the whole list |
| `FlowTable.Sink.CleanOne` | source/kafka_sink.cpp:98-106 | One key |
| `FlowTable.AssertionFails` | source/_kafka_impl.cpp:38-39 | With min > max the assertion on max_packets fails |
| `ParsedPacket.KeyExact` | source/parsed_packet.cpp:32-64 | Two TCP or UDP packets have the same key if and only if their address pairs, their port pairs (each in either order) and their protocols agree |
| `ParsedPacket.AddressesUnordered` | source/parsed_packet.cpp:38-43 | Ordering by machine word makes the pair independent of direction, and loses nothing |
| `ParsedPacket.PortsUnordered` | include/hound/type/parsed_packet.hpp:62-67 | The same for the ports, compared before and printed after byte swapping |
| `ParsedPacket.DottedInjective` | source/parsed_packet.cpp:43 | Dotted-decimal notation determines the address |
| `ParsedPacket.Packet.ProcessIPv4Packet` | source/parsed_packet.cpp:32-64 | Key and blob, byte for byte: IP header and zeros to byte 60, transport header and zeros to byte 128, then what the packet holds behind its headers up to its total length, and zeros; other protocols leave the object empty |
| `ParsedPacket.Packet.CopyPayloadToBlob` | include/hound/type/parsed_packet.hpp:58-76 | Ports and suffix to the key; to the blob, byte for byte, what the packet holds behind its headers up to its total length, and zeros |
| `ParsedPacket.BlobLaid` | source/parsed_packet.cpp:44-60 | Every byte of the blob by its place in the packet |
| `ParsedPacket.AddressesOrdered` | source/parsed_packet.cpp:38-43 | The address that is the smaller machine word comes first |
| `ParsedPacket.PortsOrdered` | include/hound/type/parsed_packet.hpp:62-67 | The port that is larger before byte swapping comes first |
| `ParsedPacket.KeySample` | source/parsed_packet.cpp:43 | The key of a packet, TCP or UDP, letter for letter |
| `Decimal.NumberOfBoth` | include/yalanting/include/ylt/util/dragonbox_to_chars.h:333-557 | Digits behind digits: the first number times a power of ten plus the second |
| `Decimal.ToStringInjective` | include/hound/type/parsed_packet.hpp:67 | Different numbers are printed differently |
| `Decimal.ToStringShort` | include/hound/type/parsed_packet.hpp:67 | Numbers are printed without a leading zero |
| `FlowEncode.Encoder.EncodeFlowList` | source/kafka_sink.cpp:81-91 | At once or in batches: row i is the element-wise maximum over exactly flow i's windows, and every flow is taken off the count of waiting ones |
| `FlowEncode.Encoder.EncodeFlowConcurrently` | source/_kafka_impl.cpp:127-149 | The batches' results in their order are the result of the whole list |
| `FlowEncode.EncodeFlowTensors` | source/_kafka_impl.cpp:44-72 | The operations on tensors fail exactly if there is no flow or a flow has no window; otherwise there is one row a flow |
| `FlowEncode.BuildSlideWindow` | source/flow-encode.cpp:100-129 | All windows in order, with the stretch that belongs to each flow; the reshape of a flow without a window fails, and so does the concatenation of no windows |
| `FlowEncode.FlowToTensor` | source/flow-encode.cpp:26-39 | One row a packet, the last incomplete group left out |
| `FlowEncode.ViewWindows` | source/flow-encode.cpp:120 | Reshape and slice: the first four packets of every group of five; without a group the reshape fails |
| `FlowEncode.BatchEncode` | source/flow-encode.cpp:169-181 | Whatever the batch size the first copy of the output is the model on every row; the output is as many copies as there are batches; without rows it fails |
| `FlowEncode.MergeFlow` | source/flow-encode.cpp:131-143 | Row i is the maximum over the windows of flow i, whatever follows them; over no windows there is no maximum |
| `FlowEncode.RowMaxMeaning` | source/flow-encode.cpp:139 | In every place the greatest of the rows' numbers, and one of them |
| `FlowEncode.RowExact` | source/flow-encode.cpp:42-55 | Two blobs give the same row if and only if they agree on every byte that is not masked |
| `FlowEncode.RowBytes` | source/flow-encode.cpp:42-55 | Every byte of the row by its place in the blob: the order is kept |
| `FlowEncode.WindowBytes` | source/flow-encode.cpp:120 | Every byte of a window by packet and place: the first four packets of each five |
| `FlowEncode.EncodingMeaning` | source/flow-encode.cpp:131-143 | In every place the greatest of what the model makes of the flow's windows, and one of them |
| `FlowEncode.PortsHidden` | source/flow-encode.cpp:42-55 | Addresses never reach the row; the ports are hidden if and only if the protocol is TCP |
| `FlowEncode.SendAll` | source/_kafka_impl.cpp:74-98 | Every row is sent once, with its own id, in order, in full messages and one for the rest |

## Left out

struct_pack:

- Big-endian machines, 128-bit integers, alignment and padding of trivial structs, trivial views, derived classes, user-defined serialisers and the optimised width selection at compile time.
- Serialising several arguments at once: the packer looks at the first one only when it decides on metainfo.
- Trivially copyable structs and arrays are blobs of fixed size; copying the elements of a container in bulk is modelled element by element, with the same bytes and the same check of the room.
- Maps and sets are the sequence of their entries in iteration order; ordering, hashing and duplicate keys, which a container would drop, are not modelled.
- Message.SerializeRoundTrip: maps whose mapped values have compatible fields are taken to iterate over their entries in the writer's order after reading, as ordered maps do; for a hash map that does not, `MapOrder.ContentsKeepTheirPlace` gives the result for mapped structs of a plain part and one compatible field. The same holds for the other round trips and for evolution.
- A moved-from container is taken to be empty and a moved-from optional, expected or variant to keep its place filled, as in the usual standard libraries.
- Deserialising a whole message into an object that is not fresh: `RoundTrip.PlainInto` gives the exact condition for the plain pass, the reader every error case, but `Message.SerializeRoundTrip` is stated for fresh objects.
- What an exception out of the unpacker unwinds: it is the code `BadAccess`, and nothing is read behind it.
- Compatible fields inside compatible fields, which the library does not allow; in sets and map keys, where it does not allow them either, the model admits them.
- The type hash is any even constant below 2^32 and the type literal any bytes; how they are computed, and hash collisions, are not modelled.
- Readers other than the memory reader, and reading in blocks of limited size.
- get_field for structs with compatible fields.
- FieldAccess.SkipEqualsRead: for types with a bulk-skipped map or set inside an optional, expected or variant the condition on arbitrary bytes is given exactly only for the optional set itself (`FieldAccess.OptionalSetSkipped`), and containers whose elements are expecteds are left out; on serialised bytes all types are covered (`FieldAccess.SkipSerialized`).
- Truncation.TruncationDetected: optionals, variants, expecteds and unique_ptrs are not included because the library drops their inner codes (what is noticed of them is stated by `Truncation.OptionalHidesTruncation` and its companions); of cuts in the version passes only the single field is covered (`Truncation.CompatibleHidesTruncation`), because what the fields behind it read is left to chance.

dragonbox:

- The algorithm that finds the shortest decimal, its tables of powers of ten, and printing of float.
- DragonboxToChars.ToChars: requires the exponent, after the digits are counted, to have at most three digits, as it has for every double; the lookup for larger ones would leave the digit table.
- Infinities, NaN, zero and the sign, which are printed elsewhere.

coro_io:

- Negative weights; client pools, coroutines and sockets.
- RateLimiter.Limiter.Acquire: permits are real numbers instead of doubles, and times are unbounded; locks and the sleep itself are not modelled. The clock is a parameter.

struct_pb:

- Generated message code, and assertions: with them off the library reports success for wire types 3, 4, 6 and 7 without moving on, as `Protobuf.DeserializeUnknown` states.
- Protobuf.DecodeVarint: a start behind the end of the buffer, where the library's subtraction wraps.
- Protobuf.KeepUnknown: buffers of 2^63 bytes and more, and malformed fields; single malformed fields are covered by `Protobuf.DeserializeUnknown` and `Protobuf.RefuseCut`.

hound:

- Capture, logging, options, threads and shutdown: that every queued task is executed is not claimed. The table's operations hold one mutex and interleave as wholes; the cleaner visits the keys in any order.
- DoubleBufferQueue.NothingLost: pushing to a buffer and swapping it are atomic steps.
- The torch model with its normalisation is an arbitrary function on rows, as both work row by row; floating-point rounding is not modelled.
- FlowEncode.Encoder.EncodeFlowConcurrently: the threads run one after the other; each writes only its own place of the result.
- When encoding fails the caller gets random numbers; the model reports the failure instead.
- ParsedPacket.Packet.ProcessIPv4Packet: the bytes that the header lengths name are assumed to be present.
- Choosing a Kafka partition, and the wire format of the messages.
