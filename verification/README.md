# Verified model of the optimizing protobuf codec

This project models, in Dafny 4.11, the Protocol Buffers wire codec of the repository: the C++
that `MessageGenerator` emits and the hand-written runtime it calls. It proves that the pieces
agree with the wire format, with each other, and with the simple objects they stand for.

| module | what it models |
|---|---|
| `Bits`, `Varint`, `VarintCode` | shifts and masks on unsigned words; the base-128 varint; the five readers and skippers, the writers and sizers, as loops and unrolled steps over registers and an output array |
| `Wire`, `SkipperCode` | the wire grammar with nested groups; `SkipFieldInline`/`SkipGroupInline` on a buffer and `SkipField`/`SkipGroup` on a stream |
| `Schema`, `Codec` | field descriptors, message storage, scalar casts; `ByteSizeLong`, `_InternalSerialize`, `_InternalParse`, `MergeImpl`, `CopyFrom` and the getters as functions |
| `Meaning`, `Records`, `Failures` | a byte string as a sequence of records applied in order; the parser recognises exactly those; last one wins, unknown fields, order; what a failing parse leaves |
| `WireForm`, `Versions` | messages for those who know the wire format but not the schema, or another version of it; messages as bytes |
| `RoundTrip`, `Views`, `Merging`, `MergedMembers` | serialising and parsing back, copying, concatenation against merging; when two messages agree on every getter; merged, copied, cleared and new messages member by member |
| `Laziness`, `Reads`, `CanonicalBytes`, `Framing`, `LazyFlags` | reading through lazy members: what a message can become by it, what it changes in the bytes and in the size, and when; schemas that differ in lazy flags |
| `GeneratedMessage` | the emitted class at work: loops over fields, buffer writes, member updates |
| `LazyFields`, `LazyValues`, `LazyOwnership`, `Walks`, `ConcurrentReaders`, `Answers`, `Schedules`, `SerializeRace` | the UNPARSED/PARSED/DIRTY state machine as functions and as an object; what it holds, byte for byte; who frees its message; its double-checked locking under every interleaving, with readers going on into the message while it is sized and written; what each thread's calls come to |
| `ArenaStrings` | the tagged pointer, its ownership, and the history of `new` and `delete` |

How it is set up:

- A pointer is an index into a byte buffer. Reading or advancing outside the buffer is the
  outcome `Overrun`/`Outside`, never a value; `ctx->Done` is "index at the end". `a | b` is
  `BitOr`, `& mask` on low bits is `%`, shifts are multiplication and division by powers of two
  cut to the width of the register.
- A schema (`Env`) lists message types by id. Eager submessages are stored by value, so their
  types come earlier in the list; lazy ones may refer to any type, also recursively.
- Getters are compared by path: `See(E, t, m, path)` follows one member after the other, parsing
  lazy members as `Get` does. Two messages agree on every getter at every depth when they agree
  on every path. Strings are compared by `Get()`, floating values as C++ compares them.
- `ParseFromArray` is the library's "clear, then `_InternalParse` on exactly that slice, true
  when the result is not null". Sizes go through `int`, so buffers and payloads are shorter than
  2^31 bytes; a size that turns negative is an overrun.
- `PRecords` in the wire grammar shows a length-delimited body as the records a message parser
  finds in it plus a tail it stops at: `_InternalParse` ends without failing at a tag that reads
  as 0 and at a tag of more than ten bytes.
- Builds with and without PROTOOPT_HAS_PROTOBUF_ARENA are both modelled where the difference
  shows: a message created on an arena has non-default empty strings, and the field does not delete it.
- In `ConcurrentReaders` everything a `LazyField` does itself is split into its atomic steps, and a
  walk over its message (`ByteSizeLong`, `_InternalSerialize`) takes one step for each lazy member it
  looks at, at any depth, which it does under that member's own mutex. A member found parsed stays
  parsed, so the walk goes on inside it; one found unparsed is copied there and then. A walk is
  given by the snapshots of the message at these looks (`Walks`).
- The assignment of messages by which `MergeImpl` fills a lazy member (message_generator.py:335) is
  taken as a copy of the value.
- Streams (`CodedInputStream`), the allocator and the mutex are small stand-ins with the behaviour
  the code relies on; atomics are sequentially consistent.
- `sint32`/`sint64` are plain sign-extended varints: the generator does not ZigZag them.

Where tests or documentation and code disagree, the model follows the code: an empty `Set` leaves
an `ArenaString` default (tests/arena_string_test.cc:37) and its arena constructor does not
(tests/arena_string_test.cc:22); an unset `LazyField` answers `IsInitialized()` with true
(tests/lazy_field_test.cc:34).

What turned out not to hold, each with an input that shows it and the exact condition:

- Concatenating serialisations is not always merging: eager submessages are replaced by the parser
  but descended into by `MergeImpl`, and a lazy member unset in the source still overwrites the
  target's (`Merging.ReplacedSubmessage`, `Merging.UnsetLazyOverwrites`).
  `Merging.ConcatenationIsMerge` gives the condition, `Covered`.
- A copy need not be as long as its original: every lazy member of the copy is set, also one unset in
  the source, so a message written as no bytes may have a copy of two (`MergedMembers.CopySetsLazy`).
  `MergedMembers.CopiedExactly` says what each member holds.
- A message that shows only defaults may be written as something: its strings are not default
  strings when it is new on an arena (`MergedMembers.FreshStringBytes`).
  `MergedMembers.EmptyExactly` says when a message is written as nothing.
- Marking a field lazy can make a parse fail: its length prefix is read by a five-byte reader
  (`LazyFlags.PaddedPrefixRefused`). `LazyFlags.LazyRefinesEager` gives the condition, `ShortFields`.
- Where the parse succeeds, getters may still differ, for two reasons. Such a prefix inside a stored
  payload makes the whole payload read as the default (`LazyFlags.NestedPaddedPrefixReadsDefault`).
  And a malformed submessage inside a stored payload spoils the payload where it is parsed eagerly,
  but only itself where it is lazy (`LazyFlags.MalformedSubmessageHidden`).
  `LazyFlags.GettersAgreeExactly` gives the condition, `Agreeing`, on the records of the input.
- Forwarding after an access may emit other bytes than were received
  (`Laziness.AccessMayChangeBytes`), with the same meaning (`Laziness.ForwardAfterAccess`). The bytes
  are kept exactly when they are canonical (`CanonicalBytes.AccessKeepsBytesExactly`).
- A lazy field serialised while other threads read through its message may get a length prefix that
  does not match the body, since sizes are taken in one walk and bytes written in another
  (`SerializeRace.PrefixOfFiveBodyOfTwo`). `SerializeRace.PrefixesRightExactly` says when every
  prefix, those inside the body too, is right: when no payload still unparsed in the message changes
  its length by re-encoding.
- Even then the body need not be the message's encoding at any one moment: each lazy member is
  written as it is when the walk comes to it (`SerializeRace.BodyOfNoMoment`). Where the prefixes are
  right it is the encoding after some reads, and receivers see the same (`SerializeRace.BodiesMean`).
- The bits of a floating value do not survive when it is a negative zero, and only then
  (`RoundTrip.NegativeZeroIsLost`, `RoundTrip.FixedBitsSurvive`).
- The stream skipper accepts tags and lengths the inline one refuses (`Wire.StreamAcceptsMore`);
  `Wire.InlineAgainstStream` says which.
- A `LazyField` on an arena leaks the messages it creates unless the build supports arenas
  (`LazyOwnership.AccessOnArenaLeaks`): `LazyOwnership.FreedExactlyWhen` says exactly when every
  message is freed.
- A pointer survives tagging only if it is 4-aligned (`ArenaStrings.TagRoundTrips`).

## Model

| member | source | states |
|---|---|---|
| Varint.EncodeInverse | compiler/generator/message_generator.py:687-737 | decoding the varint written for any value gives the value back |
| Varint.EncodeLength | compiler/generator/message_generator.py:730-750 | a 64-bit value takes at most 10 bytes, a 32-bit one at most 5, a value below 128 exactly one |
| Varint.EncodeMinimal | compiler/generator/message_generator.py:730-737 | no varint of the same value is shorter than the one written |
| Varint.CanonicalUnique | compiler/generator/message_generator.py:730-737 | a varint is the one written for its value exactly when it is one byte or its last byte is not zero |
| Varint.PrefixFree | compiler/generator/message_generator.py:730-737 | no varint is a proper prefix of another |
| Varint.ScanRecognises | runtime/include/protoopt/unknown_field_skipper.h:150-160 | a reader of at most n bytes stops at a place exactly when the bytes up to it are one varint of at most n bytes |
| Varint.ReadersAgree | runtime/include/protoopt/lazy_field.h:244-269 | the five-byte reader accepts exactly what the ten-byte ones accept within five bytes, and stops at the same place |
| Varint.TruncateTwice | runtime/include/protoopt/lazy_field.h:244-269 | the value of the five-byte reader is that of the ten-byte ones reduced modulo 2^32 |
| VarintCode.ReadVarint | compiler/generator/message_generator.py:687-718 | the ten unrolled steps stop where the reference scan stops and return the value modulo 2^64, or null, or run out of the buffer, in the same cases |
| VarintCode.ReadVarint32 | runtime/include/protoopt/lazy_field.h:244-269 | the five unrolled steps stop where the reference scan stops and return the value modulo 2^32 |
| VarintCode.ReadTag | compiler/generator/message_generator.py:720-728 | an over-long tag reads as 0 and does not move the pointer; any other tag is cut to 32 bits |
| VarintCode.ReadVarint64Inline | runtime/include/protoopt/unknown_field_skipper.h:204-218 | the loop accepts, stops and returns exactly as the unrolled reader |
| VarintCode.ReadVarint32Inline | runtime/include/protoopt/unknown_field_skipper.h:193-202 | refuses values of 2^32 and more instead of truncating them |
| VarintCode.SkipVarintInline | runtime/include/protoopt/unknown_field_skipper.h:150-160 | stops exactly where the readers stop |
| VarintCode.WriteVarint | compiler/generator/message_generator.py:730-741 | writes the minimal encoding at the target, returns the end, leaves every other byte of the buffer unchanged |
| VarintCode.WriteLengthDelimitedBytes | runtime/include/protoopt/lazy_field.h:289-297 | writes length and bytes at the target and nothing else |
| VarintCode.VarintSize | compiler/generator/message_generator.py:743-750 | counts exactly the bytes that writing the value takes |
| VarintCode.GeneratorVarintSize | compiler/generator/message_generator.py:674-679 | the generator's own size computation counts the same bytes |
| Schema.TagParts | compiler/generator/message_generator.py:110-134 | the or-ed tag is a non-zero 32-bit number from which number and wire type come back, also through its varint; the wire type is 0, 1, 2 or 5 as the type asks |
| Schema.ScalarSurvives | compiler/generator/message_generator.py:536-539 | for every varint-coded type and value: widen, write, read, narrow is the identity, whatever follows in the buffer; negatives take ten bytes |
| Schema.NarrowExactly | compiler/generator/message_generator.py:604-614 | for every 64-bit number read: of an integer type the narrowed value is the only one of the type congruent to it modulo 2^32 or 2^64, and a bool is true of everything but zero |
| Wire.SkipRecognises | runtime/include/protoopt/unknown_field_skipper.h:170-256 | each skipper returns an in-buffer end exactly when the bytes up to it are one payload of that wire type, groups balanced with matching numbers |
| Wire.InlineAgainstStream | runtime/include/protoopt/unknown_field_skipper.h:67-148 | on every payload the stream skipper accepts, the inline one stops at the same place if no tag or length was truncated and returns null otherwise |
| Wire.StreamFollowsInline | runtime/include/protoopt/unknown_field_skipper.h:67-148 | in buffers below 2^31 bytes the stream skipper accepts whatever the inline one accepts, at the same end |
| Wire.StreamAcceptsMore | runtime/include/protoopt/unknown_field_skipper.h:117-121 | a length of 2^32 is skipped as 0 by the stream skipper and refused inline |
| SkipperCode.SkipFieldInline | runtime/include/protoopt/unknown_field_skipper.h:170-190 | returns what the recogniser of the wire grammar returns |
| SkipperCode.SkipGroupInline | runtime/include/protoopt/unknown_field_skipper.h:233-256 | the loop over a group's records returns what the recogniser returns, and terminates |
| SkipperCode.SkipField | runtime/include/protoopt/unknown_field_skipper.h:67-87 | succeeds exactly when the stream's recogniser does, and leaves the stream at its end |
| SkipperCode.SkipGroup | runtime/include/protoopt/unknown_field_skipper.h:129-148 | the same for the records of a group |
| Codec.SizeIsLength | compiler/generator/message_generator.py:432-541 | `ByteSizeLong` equals the number of bytes `_InternalSerialize` writes, for every message tree and every state of its lazy members |
| Meaning.ParseAccepts | compiler/generator/message_generator.py:257-283 | on the encoding of any well-formed records, from any starting content, the parser succeeds, consumes them all and applies them in order |
| Meaning.ParseSound | compiler/generator/message_generator.py:543-615 | whatever the parser accepts is a sequence of well-formed records followed by bytes at which it stops |
| Records.ParserRecognises | compiler/generator/message_generator.py:257-283 | the parser accepts exactly the byte strings made of well-formed records and a stopping tail, and computes their meaning |
| Records.LastWins | compiler/generator/message_generator.py:543-615 | each member ends up at the value of its last record with that number and wire type, or keeps its previous value; submessages are replaced |
| Records.LastRecordRead | compiler/generator/message_generator.py:543-615 | what the last record of a member carries decides it: the only value of the type congruent to its varint, whether that is not zero, the eight or four bytes, the body, the body unparsed, or what parsing the body into a cleared message gives |
| Records.SameFieldsParseAlike | compiler/generator/message_generator.py:267-280 | two inputs with the same records field by field parse to the same message, each consumed to its end |
| Records.InsertUnknown | compiler/generator/message_generator.py:543-553 | inserting any run of unknown or wrong-wire-type records at any record boundary leaves the parsed message unchanged |
| Records.SwapRecords | compiler/generator/message_generator.py:267-280 | swapping adjacent records of different members leaves the parsed message unchanged |
| Failures.FailsExactly | compiler/generator/message_generator.py:257-283 | a parse ends in `nullptr` exactly where well-formed records are followed by one that cannot be read; it leaves the meaning of those before, and of the failing one nothing, except that a submessage holds what its own parse got to |
| WireForm.WrittenIsGrammar | compiler/generator/message_generator.py:475-541 | every message below 2^31 bytes is written as records of the wire grammar in both readings; a skipper that knows no field of it gets past all of it |
| WireForm.AcceptedIsGrammar | compiler/generator/message_generator.py:257-283 | whatever a parser accepts is made of records of the wire grammar, known fields included |
| WireForm.ScalarGrammar | compiler/generator/message_generator.py:543-615 | a record for a scalar field is accepted exactly when it is one of the wire grammar |
| WireForm.TagByte | compiler/generator/message_generator.py:110-134 | the tag byte of each type for field numbers below 16 |
| WireForm.WrittenBytes | compiler/generator/message_generator.py:475-541 | a message with a member of every kind, byte for byte |
| WireForm.NegativeBytes | compiler/generator/message_generator.py:536-539 | minus one of any signed type is nine bytes of ones and a one, `sint32` and `sint64` included |
| WireForm.SkippedBytes | runtime/include/protoopt/unknown_field_skipper.h:170-190 | unknown fields of each wire type, byte for byte; wire types 4, 6 and 7 are refused |
| WireForm.SkippedGroup | runtime/include/protoopt/unknown_field_skipper.h:233-256 | a group is skipped to its own end tag and refused at another's |
| Versions.VersionsAgree | compiler/generator/message_generator.py:257-283 | a reader whose schema has fewer fields, more, or some of each, reads every message of the writer to its end and shows, at every depth, the writer's value of the fields both have and the default of its own |
| Versions.ConveyedIsSeen | compiler/generator/message_generator.py:257-283 | between equal versions what is conveyed is what the writer's getters show |
| RoundTrip.RoundTrips | compiler/generator/message_generator.py:475-615 | parsing a serialised message tree into a new message succeeds, consumes exactly its size, and every getter at every depth agrees |
| RoundTrip.PresenceSurvives | runtime/include/protoopt/lazy_field.h:113-136 | after the round trip a lazy member reached through eager ones is set exactly if it was, and unparsed bytes are the same bytes |
| RoundTrip.FixedBitsSurvive | compiler/generator/message_generator.py:520-535 | the bits of a fixed-size member survive exactly when it is not a floating negative zero |
| RoundTrip.NegativeZeroIsLost | compiler/generator/message_generator.py:520-535 | a message holding a negative zero is written as nothing and read back as zero |
| RoundTrip.ZeroSizeSeen | compiler/generator/message_generator.py:432-473 | a message of size 0 shows a default at every getter |
| RoundTrip.CopyAgrees | compiler/generator/message_generator.py:299-350 | after `CopyFrom` every getter at every depth returns what the source's returns |
| RoundTrip.MergeSourceSeen | compiler/generator/message_generator.py:320-349 | merging parses lazy members of the source, which changes none of the source's getters |
| Merging.ParseConcat | compiler/generator/message_generator.py:257-283 | the parser accepts two serialisations one after the other and applies both |
| Merging.ConcatenationIsMerge | compiler/generator/message_generator.py:313-350 | concatenation shows what `MergeFrom` shows exactly when eager submessages set again what was set and unset lazy members meet only defaults |
| Merging.ReplacedSubmessage | compiler/generator/message_generator.py:313-350 | a submessage with one member set in each message: the first value is gone after concatenating and kept by merging |
| Merging.UnsetLazyOverwrites | compiler/generator/message_generator.py:328-333 | a lazy member set only in the first message is kept by concatenating and defaulted by merging |
| Merging.FlatConcatenationIsMerge | compiler/generator/message_generator.py:313-350 | without submessage fields concatenation is merge for all messages |
| Merging.MergeShowsSource | compiler/generator/message_generator.py:320-349 | merging shows the source at every getter exactly when the source sets everything the target had set |
| MergedMembers.MergedExactly | compiler/generator/message_generator.py:320-349 | where the merge gets, at every depth, set scalars and strings of the source replace the target's and every lazy member of the target is set and holds exactly the message the source's `Get` returns, also if unset there; elsewhere the target keeps what it had |
| MergedMembers.CopiedExactly | compiler/generator/message_generator.py:299-305 | the same for a copy; every lazy member reached is set in it, so that it is never written as nothing |
| MergedMembers.LiveWritten | runtime/include/protoopt/lazy_field.h:113-155 | a set lazy member holding a message is written as tag, length and that message's encoding, two bytes at least |
| MergedMembers.SourceExactly | compiler/generator/message_generator.py:326-335 | of the source exactly the payloads the merge got to have been parsed, nothing else has changed |
| MergedMembers.CopySetsLazy | compiler/generator/message_generator.py:326-335 | a message written as no bytes whose copy is written as two |
| MergedMembers.EmptyExactly | compiler/generator/message_generator.py:432-473 | a message is written as no bytes exactly when no member is set in it or in a submessage at any depth |
| MergedMembers.LeafWritten | compiler/generator/message_generator.py:432-473 | number, string or lazy member is written exactly when it is set: not zero, not a default string, not a negative zero, holding a value |
| MergedMembers.FreshStrings | compiler/generator/message_generator.py:420-425 | every string of a new message, at any depth, is as the constructor of `ArenaString` leaves it; no other member is set |
| MergedMembers.ClearedStrings | compiler/generator/message_generator.py:427-430 | every string of a cleared message is as `ArenaString::Clear` leaves it; no member is set |
| MergedMembers.FreshWritten | compiler/generator/message_generator.py:420-425 | a message new on an arena that has a string is not written as nothing, though every getter shows a default |
| MergedMembers.FreshStringBytes | runtime/src/protoopt/arena_string.cc:39-44 | such a message, byte for byte, and its counterpart without an arena |
| Laziness.ParseWf | compiler/generator/message_generator.py:607-614 | every parse, failed ones included, leaves in each member a value of its declared type |
| Laziness.TouchSeen | runtime/include/protoopt/lazy_field.h:95-98 | calling getters along any path changes no getter anywhere |
| Laziness.ForwardAfterAccess | runtime/include/protoopt/lazy_field.h:113-136 | serialising with or without any sequence of previous accesses gives receivers the same value at every getter |
| Laziness.UntouchedIsVerbatim | runtime/include/protoopt/lazy_field.h:125-127 | a lazy member not accessed is forwarded as length plus exactly the bytes it was parsed from |
| Laziness.AccessMayChangeBytes | runtime/include/protoopt/lazy_field.h:133-135 | a concrete payload whose bytes differ after an access |
| CanonicalBytes.AccessKeepsBytesExactly | runtime/include/protoopt/lazy_field.h:113-136 | forwarding after an access emits the bytes received exactly when they are the canonical encoding of some records: known fields in schema order, each once, minimal and not default |
| CanonicalBytes.ReencodesExactly | compiler/generator/message_generator.py:475-615 | parsing and serialising again gives the same bytes exactly for canonical encodings |
| CanonicalBytes.CanonicalKept | compiler/generator/message_generator.py:475-541 | the message that canonical records mean serialises to those records |
| Framing.SizeStableExactly | runtime/include/protoopt/lazy_field.h:138-155 | no sequence of reads changes the size of a message exactly when every payload still unparsed in it, at any depth, re-encodes to as many bytes as it has |
| LazyFlags.RecsStayOk | runtime/include/protoopt/lazy_field.h:56-93 | records a schema accepts are accepted by one with more lazy flags when the prefixes its lazy fields read have at most five bytes |
| LazyFlags.LazyRefinesEager | compiler/generator/message_generator.py:567-588 | on input a schema parses, marking more fields lazy succeeds exactly when the prefixes lazy fields read have at most five bytes, then at the same end, and all getters agree exactly when `Agreeing` holds of the records |
| LazyFlags.GettersAgreeExactly | runtime/include/protoopt/lazy_field.h:208-233 | all getters agree at every depth exactly when, for the last record of each member, payloads both schemas parse agree inside and the records of payloads only one of them parses are blank |
| LazyFlags.EveryInputOpened | compiler/generator/message_generator.py:257-283 | every accepted byte string is a sequence of records in which each stored payload that parses is given as its records, which is the form the two rows above speak of |
| LazyFlags.BlankExactly | compiler/generator/message_generator.py:543-615 | records leave every getter at every depth at its default exactly when the last record of each member carries zero, an empty string, or a submessage of which the same holds |
| LazyFlags.BlankBytesExactly | runtime/include/protoopt/lazy_field.h:208-233 | a stored payload reads as the default at every getter exactly when it does not parse or its records are blank |
| LazyFlags.ShortPrefixesAgree | runtime/include/protoopt/lazy_field.h:244-269 | getters agree in particular when all stored payloads parse and no lazy prefix at any depth is longer than five bytes |
| LazyFlags.PaddedPrefixRefused | runtime/include/protoopt/lazy_field.h:244-269 | an empty submessage behind a six-byte length is parsed eagerly and refused lazily |
| LazyFlags.NestedPaddedPrefixReadsDefault | runtime/include/protoopt/lazy_field.h:208-233 | the same length inside a stored payload: both parses succeed, one getter shows 1 and the other 0 |
| LazyFlags.MalformedSubmessageHidden | runtime/include/protoopt/lazy_field.h:208-233 | a stored payload with a malformed submessage in it: both parses succeed, the getter of another member shows 0 where the submessage is eager and 1 where it is lazy |
| GeneratedMessage.ByteSizeLong | compiler/generator/message_generator.py:238-243 | the loop over the fields computes the size |
| GeneratedMessage.InternalSerialize | compiler/generator/message_generator.py:246-254 | writes exactly `ByteSizeLong()` bytes, the encoding, at the target, and changes no other byte |
| GeneratedMessage.Message.Clear | compiler/generator/message_generator.py:232-235 | every member, submessages included, is at its default afterwards |
| GeneratedMessage.Message.InternalParse | compiler/generator/message_generator.py:257-283 | pointer and members after the loop are those of the parse function, also after a failure |
| GeneratedMessage.Message.MergeFrom | compiler/generator/message_generator.py:307-350 | members after the call are those of the merge function, given member by member by `MergedMembers.MergedExactly`, and the source's are those of `MergedMembers.SourceExactly`; merging into itself changes nothing |
| GeneratedMessage.Message.CopyFrom | compiler/generator/message_generator.py:299-305 | members after the call are those of merging into a cleared message, given member by member by `MergedMembers.CopiedExactly`, and the source's are those of `MergedMembers.SourceExactly`; copying from itself changes nothing |
| LazyFields.RunRefines | runtime/include/protoopt/lazy_field.h:56-233 | after every sequence of operations, on an arena or not, in either build, the field shows what a plain optional message shows at every getter, presence agrees, and the state invariant holds |
| LazyFields.StepRefines | runtime/include/protoopt/lazy_field.h:56-233 | each operation keeps the invariant and the agreement with the plain cell |
| LazyFields.AbsShowsSeen | runtime/include/protoopt/lazy_field.h:208-233 | what the codec reads from a lazy member is what the state machine shows |
| LazyFields.CreatedIsDefault | runtime/include/protoopt/lazy_field.h:235-242 | the message created on demand shows only defaults, also where its strings are not default strings |
| LazyValues.LivesExactly | runtime/include/protoopt/lazy_field.h:56-233 | over every life each operation takes the value held to the one it should hold: the payload as it came, the message parsed from it and read further, the assigned message, nothing |
| LazyValues.WritesPayload | runtime/include/protoopt/lazy_field.h:113-136 | a field given a payload and then only read writes the payload as it came if nobody read it, else the message parsed from it as the reads have left it |
| LazyValues.TouchedExactly | runtime/include/protoopt/lazy_field.h:95-98 | a chain of getters parses the set lazy members it goes through and changes no other member, at any depth; none becomes set |
| LazyValues.KeepsArena | runtime/include/protoopt/lazy_field.h:62-83 | without `SetAllocated` a field keeps its arena, or takes the first one a payload comes with and keeps that |
| LazyValues.DropsMessage | runtime/include/protoopt/lazy_field.h:62-83 | `ParseFrom` drops the retained message exactly when it comes with another arena than the field has |
| LazyValues.StringOnArenaIsWritten | runtime/include/protoopt/lazy_field.h:235-242 | a message made by `Mutable` on an arena writes its untouched strings, in a build with arenas only |
| LazyFields.LazyField.ParseFrom | runtime/include/protoopt/lazy_field.h:56-93 | stores exactly the payload, drops a message tied to another arena, parses nothing, and changes nothing on failure |
| LazyFields.LazyField.Get | runtime/include/protoopt/lazy_field.h:95-98 | the message is not null and shows what the field held |
| LazyFields.LazyField.Mutable | runtime/include/protoopt/lazy_field.h:100-103 | the message is what `Get` would show, and the field is set and DIRTY |
| LazyFields.LazyField.EnsureParsedLocked | runtime/include/protoopt/lazy_field.h:208-242 | the object's new state is that of the transition: the message is created on the arena in a build with arenas, and a payload that does not parse leaves a cleared message |
| LazyFields.LazyField.IsInitialized | runtime/include/protoopt/lazy_field.h:105-111 | true of an unset field without parsing it, and of a set one after parsing it |
| LazyFields.LazyField.Serialize | runtime/include/protoopt/lazy_field.h:113-136 | writes length and payload of the current state and no other byte |
| LazyFields.LazyField.ByteSizeLong | runtime/include/protoopt/lazy_field.h:138-155 | the three branches on the fields count exactly what `Serialize` writes in the same state, prefix included |
| LazyFields.LazyField.Clear | runtime/include/protoopt/lazy_field.h:157-166 | unset, no bytes, a retained message cleared |
| LazyFields.LazyField.SetAllocated | runtime/include/protoopt/lazy_field.h:168-180 | the given message, DIRTY if there is one |
| ConcurrentReaders.ReadersAreSafe | runtime/include/protoopt/lazy_field.h:95-155 | in every interleaving of any number of const calls and of reads through the message: no null message, every `Get` shows what a single-threaded one would, every getter at any time the expected value, at most one message created and one parse; sizes and bodies are those of the unparsed field, or of walks that find each lazy member as it is at one moment, the moments in the order of the walk; state and message end up as one thread alone would leave them |
| ConcurrentReaders.PublishedIsFinal | runtime/include/protoopt/lazy_field.h:185-191 | once a non-UNPARSED state is published the state stays, nothing is created or parsed, and the message changes only by the reads made through it, which no getter shows |
| ConcurrentReaders.StepOk | runtime/include/protoopt/lazy_field.h:208-233 | every atomic step of every thread keeps the locking invariant |
| ConcurrentReaders.NoDeadlock | runtime/include/protoopt/lazy_field.h:138-155 | whenever a thread waits, another one holds the mutex and can move |
| ConcurrentReaders.NeverStuck | runtime/include/protoopt/lazy_field.h:95-155 | a thread that does not wait for the mutex moves on, wherever it is |
| Answers.EveryCallAnswered | runtime/include/protoopt/lazy_field.h:95-155 | in every interleaving each thread's calls and answers match one to one: `Serialize` writes once, `ByteSizeLong` counts once, `IsInitialized` and `Get` return once and the getters after `Get` are read once; a thread in the middle of a call has no answer for it yet, a thread between calls owes none |
| Answers.OnlyNeededParses | runtime/include/protoopt/lazy_field.h:113-155 | as long as nobody has called `Get`, or `IsInitialized` of a set field, state and message are what they were |
| Answers.AnsweredIsParsed | runtime/include/protoopt/lazy_field.h:95-111 | once such a call has returned, the message is there and the state is the one a single thread would have published |
| Walks.SizeMeans | compiler/generator/message_generator.py:432-473 | a size walk interrupted by any reads computes the size of what it saw, which is the message with some payloads parsed |
| Walks.WriteMeans | compiler/generator/message_generator.py:475-541 | a write walk interrupted by any reads, if the prefixes it writes are right, writes the encoding of what it saw |
| Walks.WriteStill | compiler/generator/message_generator.py:475-541 | uninterrupted it writes the encoding of the message, all prefixes right |
| Reads.ReadByTouches | runtime/include/protoopt/lazy_field.h:95-98 | what a walk can see is exactly what chains of getters can make of the message |
| SerializeRace.BodiesMean | runtime/include/protoopt/lazy_field.h:113-136 | in every interleaving each size is that of the message after some reads; a body with right prefixes is its encoding after some reads, parses to its end, and shows receivers what a single-threaded `Get` shows |
| SerializeRace.SizesMean | runtime/include/protoopt/lazy_field.h:138-155 | in every interleaving what `ByteSizeLong` returns of a parsed field is the number of bytes `Serialize` would write after some reads, prefix included |
| SerializeRace.PrefixesRightExactly | runtime/include/protoopt/lazy_field.h:113-136 | in all interleavings each length prefix, those inside bodies included, is that of the body after it, exactly when the field is unset, one thread runs, or every payload still unparsed in the message re-encodes to as many bytes as it has |
| Schedules.EveryWalkHappens | runtime/include/protoopt/lazy_field.h:113-136 | for any reads and any ordered moments at which the two walks look, there is a schedule of two threads that makes them look just then |
| SerializeRace.Race | runtime/include/protoopt/lazy_field.h:133-135 | any reads can fall between the two walks: the size of before is followed by the bytes of after |
| SerializeRace.PrefixOfFiveBodyOfTwo | runtime/include/protoopt/lazy_field.h:133-135 | a concrete field and schedule: a prefix of 5 before a body of 2 bytes |
| SerializeRace.BodyOfNoMoment | compiler/generator/message_generator.py:493-503 | a concrete field and schedule: two lazy members are read while the write walk is between them, and the body is the encoding at none of the three moments |
| LazyOwnership.FreedExactlyWhen | runtime/include/protoopt/lazy_field.h:50-180 | over every life of a field only live messages are deleted and none of others; all its own are freed exactly when each heap message left under an arena, by an access in a build without arenas or by a client, was later handed back without one |
| LazyOwnership.ArenaBuildsNeverLeak | runtime/include/protoopt/lazy_field.h:235-242 | in a build with arenas everything is freed, as long as no client hands the held message back with an arena |
| LazyOwnership.AccessOnArenaLeaks | runtime/include/protoopt/lazy_field.h:235-242 | one access on an arena in a build without arenas leaves a heap message behind |
| LazyOwnership.RunMatches | runtime/include/protoopt/lazy_field.h:50-233 | over every life the pointers of this model are those of the state machine: a message is there exactly when it holds one, and the arenas are the same |
| LazyOwnership.HeapFieldsNeverLeak | runtime/include/protoopt/lazy_field.h:168-242 | a field that never sees an arena frees everything, in every build |
| LazyOwnership.RunOwns | runtime/include/protoopt/lazy_field.h:50-180 | at every moment the live heap messages are the older ones, the strays, and the field's own if it has no arena |
| ArenaStrings.TagRoundTrips | runtime/src/protoopt/arena_string.cc:107-124 | pointer and type come back from the tag exactly when the pointer is 4-aligned |
| ArenaStrings.SetTaggedExactly | runtime/src/protoopt/arena_string.cc:130-140 | the same pointer and type are left alone; otherwise both are replaced and exactly an owned string is freed |
| ArenaStrings.WholeLives | runtime/src/protoopt/arena_string.cc:37-149 | for any number of strings and any interleaving: each holds what was last stored in it, its type is the one of its own history of calls with and without an arena, the heap holds one string for each of type kAllocated, and after destruction each heap string was deleted exactly once |
| ArenaStrings.TypesOfLives | runtime/src/protoopt/arena_string.cc:21-79 | where no call is given an arena, or in a build without arenas, no string is ever of type kMutableArena; where every call is, none is ever on the heap; kFixedSizeArena never arises |
| ArenaStrings.SetOk | runtime/src/protoopt/arena_string.cc:50-57 | keeps the string sound, touches no other string, acts on the content as the codec's string member does, and is stored as by `Mutable`, or left alone if empty and default |
| ArenaStrings.MutableOk | runtime/src/protoopt/arena_string.cc:59-79 | the string keeps its content and stops being default; an allocated one keeps pointer and type; any other gets exactly one new string, of type kMutableArena with the heap's history unchanged if there is an arena to use, else of type kAllocated and new on the heap |
| ArenaStrings.DestroyOk | runtime/src/protoopt/arena_string.cc:142-149 | the destructor gives back its own heap string and nothing else |
| ArenaStrings.DefaultFlag | runtime/src/protoopt/arena_string.cc:37-57 | an empty `Set` keeps the default flag and an arena constructor clears it |
| ArenaStrings.ArenaString.constructor | runtime/src/protoopt/arena_string.cc:37-44 | from either constructor the object is sound and in the state of the constructing function |
| ArenaStrings.ArenaString.SetTag | runtime/src/protoopt/arena_string.cc:130-140 | frees an owned string before replacing it, does nothing when pointer and type are the same |
| ArenaStrings.ArenaString.MutablePtr | runtime/src/protoopt/arena_string.cc:59-79 | returns a live string other than the shared default, in the state of the transition, stored where the arena argument and the build say |
| ArenaStrings.ArenaString.SetValue | runtime/src/protoopt/arena_string.cc:50-57 | the object's new state and content, stored where the arena argument and the build say |
| ArenaStrings.ArenaString.ClearValue | runtime/src/protoopt/arena_string.cc:81-96 | default and empty, own heap string freed |
| ArenaStrings.ArenaString.Destruct | runtime/src/protoopt/arena_string.cc:142-147 | owns nothing afterwards and has changed nothing else |

## Left out

- Repeated fields, maps, oneofs and proto2 defaults: the generator emits nothing for them that differs from singular fields.
- Required fields: `IsInitialized` of a message is taken as true, which is what its body comes to, since it only asks submessages and none answers false by itself. Asking a required lazy submessage parses it, as a getter would; `ConcurrentReaders` covers that as `CallGet` along the path.
- Arenas freeing their own messages. A new message given to `SetAllocated` is taken to lie where its arena argument says, and one handed back without an arena to be on the heap.
- Locks of nested members: looking at one, with copying its bytes if it is unparsed, is one step, and so is parsing it. Threads that serialise or size the message `Get` returned, instead of reading it, are not modelled. Non-const methods are not run concurrently.
- Arenas of nested members: a nested lazy member creates its message as on the heap. Getters cannot tell the difference.
- Overruns: what a read outside a buffer does is not modelled; a lazy payload whose parse would overrun reads as the default, like one that does not parse.
- Fixed-size numbers: carried as their four or eight bytes; a little-endian host is assumed, which matters only for telling a negative zero.
- `SkipMessage`, `GetMetadata`, `New`, reflection, and the text of the emitted C++ (`cpp_generator.py`, `field_generator.py`, `helpers.py`, `plugin.py`).
- LazyFields.LazyField.IsInitialized: states only the case of messages without required fields; with required lazy submessages the call also parses those.
- GeneratedMessage.Message.MergeFrom: the source is not held inside the target. Merging the message of one of the target's own lazy members (its type being recursive) passes the test for self-merging and then deletes the source being read.
- GeneratedMessage.Message.CopyFrom: the same.
