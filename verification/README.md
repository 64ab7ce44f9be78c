# A verified model of typeway's wire formats and protocols

typeway describes HTTP and gRPC APIs as Rust types. This project models the parts of it where bytes,
schemas and protocol state have to agree, and proves that they do:

- the two protobuf codecs: the one `#[derive(TypewayCodec)]` generates, as an interpreter over the
  macro's field shapes, and the one driven by a field table between JSON and binary;
- `.proto` text: the printer, the two parsers, the import resolver, and the breaking-change differ,
  whose verdict is tied back to what the codec does with real bytes;
- gRPC framing, the incremental frame reader, and response bodies as poll-driven state machines;
- session types, duality, and the run-time safety of two dual peers over FIFO queues;
- the circuit breaker and the retry loop around it;
- typed paths: the client's URL building against the server's extraction.

Each component is a module of the same name as its file. Where the source changes things step by
step there is a method with the source's loop, proved equal to a specification function; the laws
are lemmas about those functions. `dafny verify dfyconfig.toml` checks everything. Lemmas carry
`{:induction false}`: every inductive step is written out.

## Where a promise fails, and exactly when it holds

- A plain `bool` field always writes one tag byte (typeway-macros/src/lib.rs:3004-3012). Set under a
  tag of 16 or above it never comes back where its two bytes are read in step: `tag % 32` is below 16
  and names no field, or one that takes a varint. Otherwise the bytes behind it are read out of step; it
  is still lost if the fields after it write nothing, and may come back by accident if they do. Unset
  it writes nothing and does no harm.
- A variant of an enum comes back if and only if no earlier variant has its tag.
- A field of a fieldless enum type is written behind a length, where a proto enum is a bare varint: the
  two codecs disagree on it for every variant.
- The table-driven encoder leaves out every scalar that holds its default, also one that is optional or the
  variant of a oneof: read back by the generated decoder it is absent. Everything else comes back.
- The generated length is short for tags of 2^18 and above (typeway-macros/src/lib.rs:3331-3337).
- The differ never looks at `repeated`: with no breaking entry, old bytes keep their meaning if and
  only if no readable field changed that label.
- `decode_grpc_frames` documents flag 0 as data, but takes every flag except 0x80 for data; the
  model follows the code.
- The retry loop's fall-through error is unreachable unless `max_retries` is the largest `u32`, where
  `max_retries + 1` wraps (the model follows a build without overflow checks).
- A message whose unlabelled field has a type beginning with "message" prints to text that
  `parse_proto` takes for a nested block: a generated file parses if and only if it has none. A message
  named "message" is misnamed by `parse_message_spec`.
- The import resolver does not count the root file as seen: its own definitions are merged a second
  time if and only if its path is reachable from its imports.
- A frame holds messages below 2^32 bytes; a longer one decodes to a prefix.
- From the text `build_path` returns, captured texts come back if and only if none is empty or contains a slash and, after a text
  with `{}` in it, every text is `{}` itself.

## Model

| member | source | states |
|---|---|---|
| `Varint.EncodeVarint` | typeway-grpc/src/proto_codec.rs:95-105 | appends exactly the base-128 bytes of the value |
| `Varint.DecodeVarint` | typeway-grpc/src/proto_codec.rs:111-125 | reads a varint for every input: value modulo 2^64, bytes taken, and which of the two errors |
| `Varint.ReadVarintInverts` | typeway-grpc/src/proto_codec.rs:95-125 | the bytes of any 64-bit value, at most ten of them, read back to it whatever follows |
| `Varint.ReadVarintExtends` | typeway-grpc/src/proto_codec.rs:111-125 | appending bytes never changes a varint that already reads |
| `Varint.TwEncodeVarint` | typeway-protobuf/src/codec.rs:146-166 | the primitive with one- and two-byte fast paths writes the same bytes |
| `Varint.TwDecodeVarint` | typeway-protobuf/src/codec.rs:265-297 | the decoder with one- and two-byte fast paths reads the same value, length and error |
| `Varint.TwDecodeTail` | typeway-protobuf/src/codec.rs:280-297 | the loop after the fast paths, started from two digits, agrees with the whole read |
| `Varint.VarintLenExact` | typeway-protobuf/src/codec.rs:227-232 | the closed formula over the bit length gives the exact number of varint bytes |
| `Wire.ReadTagInverts` | typeway-grpc/src/proto_codec.rs:644-662 | a written tag reads back to its field number and wire type |
| `Wire.SkipMatchesRead` | typeway-protobuf/src/codec.rs:345-377 | skipping a value and decoding it end at the same byte, and fail on the same inputs with the same error |
| `Wire.ReadWireValueExtends` | typeway-grpc/src/proto_codec.rs:220-253 | appending bytes never changes a wire value that already reads |
| `WireFormat.VarintDigits` | typeway-grpc/src/proto_codec.rs:95-105 | each byte is the next base-128 digit, lowest first, and all but the last have the top bit set |
| `WireFormat.ZigzagOrder` | typeway-grpc/src/proto_codec.rs:130-139 | zigzag counts outwards from zero: 0, -1, 1, -2, with negative numbers on the odd places |
| `WireFormat.LittleEndian` | typeway-grpc/src/proto_codec.rs:220-253 | fixed words stand lowest byte first, place by place |
| `WireFormat.ScalarsOnWire` | typeway-grpc/src/proto_codec.rs:449-568 | every scalar type: its wire type, its field number times eight plus that, and its payload, written out from the number, flag or text |
| `WireFormat.FiniteFloats` | typeway-grpc/src/proto_codec.rs:306-366 | a float word counts as finite if and only if its exponent bits are not all ones |
| `WireFormat.WrongKinds` | typeway-grpc/src/proto_codec.rs:449-568 | a number type refuses what is no number and a text type what is no text; a bool is written as set for true and unset for everything else |
| `WireFormat.EncodeFails` | typeway-grpc/src/proto_codec.rs:369-446 | an object fails to encode if and only if a listed member that is not left out fails, or an item of a listed array |
| `WireFormat.ExpandedField` | typeway-grpc/src/transcode.rs:196-221 | a field of an expanded table: name, tag, label, type, and the table of the message it names if and only if that is a known message and the field is no map |
| `WireFormat.OtherNames` | typeway-grpc/src/proto_codec.rs:182-204 | every name outside the sixteen scalar names is a message type |
| `WireFormat.DeclaredTypes` | typeway-grpc/src/mapping.rs:85-151 | the type a deriving field is declared with in the file names the table type that the codecs agree on |
| `TextCodecs.Base64Encode` | typeway-grpc/src/proto_codec.rs:794-818 | the accumulator loop yields the padded base64 text of the bytes |
| `TextCodecs.Base64Decode` | typeway-grpc/src/proto_codec.rs:819-842 | the bit-buffer loop decodes exactly the specified texts and rejects the rest |
| `TextCodecs.Base64RoundTrip` | typeway-grpc/src/tonic_compat.rs:191-239 | decoding an encoding gives the bytes back, for all byte strings (section 4 of RFC 4648); both copies in the repository are this one function |
| `TextCodecs.Base64IsText` | typeway-grpc/src/proto_codec.rs:794-818 | the encoding is always valid UTF-8 text |
| `TextCodecs.Alphabet` | typeway-grpc/src/proto_codec.rs:794-818 | the alphabet is A to Z, a to z, 0 to 9, plus and slash (table 1 of RFC 4648) |
| `TextCodecs.Vectors` | typeway-grpc/src/tonic_compat.rs:191-239 | the padding of the test vectors of section 10 of RFC 4648 |
| `TextCodecs.Base64Length` | typeway-grpc/src/proto_codec.rs:794-818 | four characters for every three bytes begun |
| `TextCodecs.Unbase64Fails` | typeway-grpc/src/proto_codec.rs:819-842 | decoding fails if and only if a character before the padding is outside the alphabet |
| `TextCodecs.EncodeGrpcMessage` | typeway-grpc/src/status.rs:322-334 | the loop writes the percent-encoded bytes |
| `TextCodecs.DecodeGrpcMessage` | typeway-grpc/src/status.rs:341-363 | the index loop decodes escapes, leaves malformed ones alone and falls back to its input on bad UTF-8 |
| `TextCodecs.PercentRoundTrip` | typeway-grpc/src/status.rs:322-363 | decoding an encoded message gives the message, for every valid text |
| `TextCodecs.PercentIsPrintable` | typeway-grpc/src/status.rs:322-334 | the encoding uses bytes 0x20 to 0x7E only (section 2.1 of RFC 3986 escapes) |
| `TextCodecs.HexDigits` | typeway-grpc/src/status.rs:322-363 | hex digits are written in upper case and read in both |
| `TextCodecs.EscapeLayout` | typeway-grpc/src/status.rs:322-334 | each byte is written as itself or as a percent sign and its two hex digits, high one first |
| `TextCodecs.NothingToUnescape` | typeway-grpc/src/status.rs:341-363 | a text without a whole escape decodes to itself, stray percent signs included |
| `TextCodecs.BadUtf8Stays` | typeway-grpc/src/status.rs:359-362 | escapes that come to no UTF-8 leave the header text as it is |
| `UnicodeText.TextIff` | typeway-grpc/src/proto_codec.rs:294-299 | a byte string is accepted as text if and only if it is the UTF-8 encoding of some characters (section 3 of RFC 3629) |
| `DerivedRoundTrip.RoundTrip` | typeway-macros/src/lib.rs:2900-2959 | without a set bool under a long tag or a shadowed variant in the value, generated decode after generated encode gives what survives, at every depth, for every type: structs, oneofs, enums, nested, optional, repeated and packed fields |
| `DerivedRoundTrip.RoundTripIffIntact` | typeway-macros/src/lib.rs:2991-3188 | for every value whose bools set under long tags, if any, are read in step: what survives comes back if and only if there is no such bool and no variant present repeats an earlier tag, and the value itself if and only if it moreover has no negative zero in a singular float and nothing in a shape without a decode arm |
| `DerivedRoundTrip.NormIdentity` | typeway-macros/src/lib.rs:3520-3735 | what survives equals the value exactly for intact values |
| `DerivedRoundTrip.EnumRoundTrip` | typeway-macros/src/lib.rs:2490-2566 | a fieldless variant round trips if and only if no earlier variant has its tag |
| `DerivedRoundTrip.CaseRoundTrip` | typeway-macros/src/lib.rs:2572-2756 | a variant with a payload round trips if and only if no earlier variant has its tag |
| `DerivedRoundTrip.FieldsBack` | typeway-macros/src/lib.rs:2915-2932 | a struct comes back field by field: each field is what its own decoder makes of its own bytes, and an error of one is the error of all |
| `DerivedRoundTrip.PackedInverts` | typeway-macros/src/lib.rs:3232-3265 | the packed read loop takes exactly the packed block and returns its items, whatever follows |
| `DerivedRoundTrip.EmptyDecodesToDefault` | typeway-macros/src/lib.rs:2915-2932 | no bytes decode to the default, which is why an omitted nested message comes back |
| `DerivedRoundTrip.BoolNeedsShortTag` | typeway-macros/src/lib.rs:3004-3012 | so the last field to write, a set bool, comes back if and only if its tag is below 16 |
| `DerivedRoundTrip.LongTagByAccident` | typeway-macros/src/lib.rs:3004-3012 | read out of step, with fields behind it, such a bool can come back by accident: a struct where it does |
| `DerivedRoundTrip.LongTagLost` | typeway-macros/src/lib.rs:3004-3012 | whatever its tag, a bool set under a tag of 16 or above is lost if the fields after it write nothing and those before it that are such bools are read in step |
| `DerivedRoundTrip.LongTagsInStep` | typeway-macros/src/lib.rs:3004-3012 | where the single tag byte is below 128 and names no field, or one that takes a varint, no such bool is ever set, whatever is written after it |
| `DerivedRoundTrip.ShortIsInStep` | typeway-macros/src/lib.rs:3004-3012 | values without a set bool under a long tag are among those read in step |
| `DerivedRoundTrip.ShadowedVariantLost` | typeway-macros/src/lib.rs:2572-2620 | a oneof variant that repeats an earlier tag never decodes to itself |
| `DerivedRoundTrip.ShadowedEnumLost` | typeway-macros/src/lib.rs:2490-2566 | an enum variant that repeats an earlier tag never decodes to itself |
| `DerivedRoundTrip.Lost` | typeway-macros/src/lib.rs:2572-2756 | a shadowed variant or an in-step bool under a long tag, at any depth: neither the value nor what survives of it comes back |
| `DerivedStreams.DecodeConcat` | typeway-macros/src/lib.rs:2915-2959 | on any bytes, decoding a concatenation goes on from where the first part ended |
| `DerivedStreams.ConcatMerges` | typeway-macros/src/lib.rs:3642-3735 | on any bytes, of two strings that decode: repeated fields hold the items of the first and then of the second, and a singular field what the second gives it, or what the first left |
| `DerivedStreams.MixedReads` | typeway-macros/src/lib.rs:3642-3735 | records of one repeated field, packed blocks, single unpacked items or both in any order, give exactly their items in order |
| `DerivedStreams.UnknownSkipped` | typeway-macros/src/lib.rs:2930-2938 | a record of a field the struct does not have is passed over, wherever it stands and whatever it holds |
| `DerivedStreams.CasesMerge` | typeway-macros/src/lib.rs:2732-2752 | on any bytes, of two strings that decode to a oneof the second decides; if it comes to the default alone, the first may stand |
| `DerivedStreams.LastVariantWins` | typeway-macros/src/lib.rs:2732-2752 | a written variant wins over whatever comes before it |
| `DerivedStreams.EnumNumbers` | typeway-macros/src/lib.rs:2490-2566 | any number, cut to 32 bits, reads as the first variant with that tag, or as the first variant of all |
| `ForeignBytes.VarintField` | typeway-macros/src/lib.rs:3520-3735 | any varint in a record of an integer or bool field, singular, optional or repeated: cut to the width of the field, and every number but zero is true |
| `ForeignBytes.TextField` | typeway-macros/src/lib.rs:3520-3735 | text that is no UTF-8 is an error, bytes take anything |
| `ForeignBytes.CutField` | typeway-macros/src/lib.rs:3520-3735 | a length beyond the end of the input is an error, for texts, messages and packed blocks |
| `ForeignBytes.CrossingReads` | typeway-macros/src/lib.rs:3232-3265 | an item that runs over the end of its packed block is read whole, and is the last |
| `DerivedLen.LenExact` | typeway-macros/src/lib.rs:3326-3484 | for every value without a set bool under a long tag: the generated length never exceeds the bytes written, and equals them exactly when, at every depth, every tag written is below 2^18 and no optional byte vector is set |
| `DerivedLen.TagLenBound` | typeway-macros/src/lib.rs:3331-3337 | the tag size table is exact below 2^18 and short above |
| `DerivedLen.BoolOverMeasured` | typeway-macros/src/lib.rs:3004-3012 | a true bool with a tag of 16 or more is measured longer than it is written |
| `DerivedMethods.WriteVarintAt` | typeway-macros/src/lib.rs:3083-3090 | the inner batch loop writes one varint in place, within ten bytes |
| `DerivedMethods.WriteVarints` | typeway-macros/src/lib.rs:3079-3093 | the batch loop fills the reserved space with the concatenated varints and stays within ten bytes per element |
| `DerivedMethods.PatchLength` | typeway-macros/src/lib.rs:3094-3102 | the placeholder is patched, or the block shifted, into the length-prefixed block |
| `DerivedMethods.WritePackedVarints` | typeway-macros/src/lib.rs:3071-3104 | after the old contents the buffer holds exactly tag, length and the concatenated varints, or nothing for an empty list |
| `DerivedMethods.PushTag` | typeway-macros/src/lib.rs:2975-2988 | pushing a tag, by one byte or as a varint, writes the tag bytes |
| `DerivedMethods.EncodeFieldTo` | typeway-macros/src/lib.rs:2991-3188 | one field: the buffer is extended by the field bytes and keeps everything before |
| `DerivedMethods.EncodeCaseTo` | typeway-macros/src/lib.rs:2630-2696 | one oneof variant: the buffer is extended by its record |
| `DerivedMethods.EncodeTo` | typeway-macros/src/lib.rs:2907-2909 | a whole value: the buffer is extended by its encoding |
| `DerivedMethods.EncodeToVec` | typeway-protobuf/src/codec.rs:54-58 | encoding into a fresh vector of the measured capacity |
| `DerivedMethods.DecodePacked` | typeway-macros/src/lib.rs:3232-3265 | the offset loop over a packed block, reading from the whole input |
| `DerivedMethods.RunArm` | typeway-macros/src/lib.rs:3520-3735 | one decode arm at an offset reads what the specification reads from the unread rest |
| `DerivedMethods.DecodeStruct` | typeway-macros/src/lib.rs:2915-2932 | the offset-driven loop over tags decodes the fields |
| `DerivedMethods.DecodeOneOf` | typeway-macros/src/lib.rs:2732-2752 | the oneof loop keeps the last recognised variant |
| `DerivedMethods.TypewayDecode` | typeway-macros/src/lib.rs:2912-2933 | the generated decoder on any bytes: the value or the error of the specification |
| `RuntimeMethods.JsonToProtoBinary` | typeway-grpc/src/proto_codec.rs:369-446 | the encoder loop over the field table writes the specified bytes or fails with the specified error |
| `RuntimeMethods.EncodeFieldTo` | typeway-grpc/src/proto_codec.rs:449-568 | one value of one field, for every proto type |
| `RuntimeMethods.UnpackScalarsAt` | typeway-grpc/src/proto_codec.rs:732-771 | the packed loop reads the items of a block |
| `RuntimeMethods.ApplyTo` | typeway-grpc/src/proto_codec.rs:665-697 | one wire value stored: packed block, repeated item or single field |
| `RuntimeMethods.ProtoBinaryToJson` | typeway-grpc/src/proto_codec.rs:644-708 | the decode loop and the final assembly of repeated fields |
| `RuntimeCodec.ZigzagInverse` | typeway-grpc/src/proto_codec.rs:130-139 | zigzag is a bijection between signed and unsigned 64-bit integers |
| `RuntimeLaws.Normalises` | typeway-grpc/src/proto_codec.rs:369-708 | whenever a value encodes, decoding its bytes gives its normal form: nulls, defaults, unlisted names and empty arrays gone, integers wrapped to the width of their type (uint32 to 64 bits, as it is written), at every depth |
| `RuntimeLaws.CanonicalRoundTrip` | typeway-grpc/src/proto_codec.rs:369-708 | in-range integers, finite floats and canonical base64 always encode and come back unchanged but for the omissions |
| `RuntimeLaws.DroppedIsZero` | typeway-grpc/src/proto_codec.rs:163-182 | a scalar of its type is left out if and only if it is 0, false, the empty text or a zero float |
| `RuntimeLaws.ReadsTheSame` | typeway-grpc/src/proto_codec.rs:369-708 | for a reader with proto3 defaults nothing changes: every listed field of a typed object reads the same after encoding and decoding, at every depth, and no scalar that comes back is itself a zero |
| `RuntimeStreams.DecodeConcat` | typeway-grpc/src/proto_codec.rs:644-708 | decoding a concatenation merges the decoded states |
| `RuntimeStreams.Homomorphism` | typeway-grpc/src/proto_codec.rs:644-708 | on JSON objects: single fields from the second part win, repeated fields append, and the keys are the union |
| `RuntimeStreams.Projection` | typeway-grpc/src/proto_codec.rs:664-700 | decoding with a smaller field table is the projection of decoding with the larger one |
| `ForeignBytes.VarintMember` | typeway-grpc/src/proto_codec.rs:260-275 | the table-driven decoder on any varint of a varint type: cut to the width of the type, uint32 apart |
| `ForeignBytes.WordMember` | typeway-grpc/src/proto_codec.rs:277-291 | on any word: integers with or without sign, and a float that is not finite is null |
| `ForeignBytes.TextMember` | typeway-grpc/src/proto_codec.rs:293-304 | text that is no UTF-8 is an error, bytes are shown in base64 |
| `ForeignBytes.OtherWireType` | typeway-grpc/src/proto_codec.rs:323-326 | a number of another wire type than the field's is refused |
| `ForeignBytes.BadRecord` | typeway-grpc/src/proto_codec.rs:220-253 | input that ends inside a value, and the four wire types that are none, are errors with or without a listed field |
| `CodecAgreement.CodecsAgree` | typeway-grpc/src/proto_codec.rs:644-708 | without a set bool under a long tag, bytes of the generated encoder, decoded by the field table of the same type, give exactly the fields that were not omitted, and of a oneof its present variant, at every depth, for structs and oneofs nested in each other |
| `CodecAgreement.OneOfAgrees` | typeway-macros/src/lib.rs:1915-1990 | a oneof, described as a message with one field per variant, reads as the object of its present variant alone, default or not |
| `CodecConverse.TableBytesRead` | typeway-grpc/src/proto_codec.rs:369-568 | the other way round: the JSON view of a value, written by the table-driven encoder, always encodes, and the generated decoder reads the value back, at every depth, with repeated fields as single unpacked records; only optional and oneof scalars that hold their default arrive as absent |
| `CodecConverse.SameOmissions` | typeway-grpc/src/proto_codec.rs:163-182 | both encoders leave out the same scalars |
| `CodecAgreement.EnumsDisagree` | typeway-macros/src/lib.rs:2819-2830 | a field of a fieldless enum type: no variant is written as the other codec writes an enum, and no number but zero that it writes alone is read |
| `CodecAgreement.PackedAgrees` | typeway-grpc/src/proto_codec.rs:732-771 | a packed block written by one codec unpacks in the other to the same items |
| `CodecAgreement.ScalarAgrees` | typeway-grpc/src/proto_codec.rs:260-366 | both codecs give every scalar the same wire type, and the JSON number, text or flag of its value |
| `Text.DecimalInverts` | typeway-grpc/src/mapping.rs:361 | a printed tag number parses back |
| `Text.Numerals` | typeway-grpc/src/proto_parse.rs:544 | a number of 2^32 or more is no tag, and a plus sign in front changes nothing |
| `Text.NoNumerals` | typeway-grpc/src/proto_parse.rs:544 | nothing but digits is read as a tag, and not nothing at all |
| `Schema.RankIrrelevant` | typeway-grpc/src/transcode.rs:196-221 | the expanded table of an acyclic message does not depend on how acyclicity is shown |
| `Differ.DiffServices` | typeway-grpc/src/diff.rs:62-135 | the nested loops append exactly the service report to the shared list |
| `Differ.DiffMessages` | typeway-grpc/src/diff.rs:137-210 | the nested loops append exactly the message report to the shared list |
| `Differ.DiffProtos` | typeway-grpc/src/diff.rs:52-60 | parse errors in order, else the whole report |
| `Differ.Verdict` | typeway-grpc/src/diff.rs:62-210 | no breaking entry if and only if every old service, RPC, message and tag is still there with its types |
| `Differ.EmptyReport` | typeway-grpc/src/diff.rs:62-210 | an empty report if and only if moreover nothing is new and no field is renamed |
| `DifferEntries.ReportExact` | typeway-grpc/src/diff.rs:62-210 | an entry is in the report if and only if the two files call for it, each kind with its severity, place and text from the old item to the new one |
| `DifferSoundness.DecodeCarries` | typeway-grpc/src/proto_codec.rs:644-708 | bytes with listed tags decode under an evolved table to the same values, keyed by the new names, and nothing else |
| `DifferSoundness.EncodedIsKnown` | typeway-grpc/src/proto_codec.rs:369-446 | the encoder writes listed tags only, at every depth |
| `DifferSoundness.EncodedCarries` | typeway-grpc/src/proto_codec.rs:369-708 | encode under the old table, decode under the evolved one: the old normal form, carried over |
| `DifferSoundness.TablesEvolve` | typeway-grpc/src/transcode.rs:196-221 | a clean report with unchanged labels makes the expanded tables evolve, at every depth |
| `DifferSoundness.DifferSound` | typeway-grpc/src/diff.rs:137-210 | for map-free acyclic files without breaking entries, old bytes keep their meaning for every message if and only if no readable field changed its repeated label |
| `DifferSoundness.LabelChangeSlips` | typeway-grpc/src/diff.rs:163-184 | a concrete label change with an empty report and a changed meaning |
| `DifferSoundness.OldValuesRead` | typeway-grpc/src/transcode.rs:111-138 | a value encoded under an old message reads under the new one as its old normal form, carried over |
| `Sessions.DualInvolution` | typeway-core/src/session.rs:96-144 | the dual of the dual is the protocol |
| `Sessions.DualUnfold` | typeway-core/src/session.rs:135-144 | the dual of an unfolding is the unfolding of the dual |
| `Sessions.StepUnfolds` | typeway-server/src/typed_ws.rs:175-198 | enter unfolds the protocol once, recurse changes nothing in it |
| `Sessions.SessionSafety` | typeway-server/src/typed_ws.rs:59-173 | in every interleaving of two dual peers nobody fails, at most one queue holds frames, and every frame in front of a receiver is the type or branch it waits for |
| `Sessions.SessionProgress` | typeway-server/src/typed_ws.rs:59-198 | nothing can move if and only if both peers have ended with empty queues |
| `Sessions.EndTogether` | typeway-server/src/typed_ws.rs:103-112 | when either peer has ended, nothing is in flight towards it, and the other ends after the frames already sent to it |
| `Sessions.SilenceEnds` | typeway-server/src/typed_ws.rs:175-198 | a guarded peer communicates or ends after a fixed number of enter and recurse steps |
| `Sessions.UnguardedSpins` | typeway-core/src/session.rs:58-76 | a peer in a loop whose body is not guarded never does |
| `Sessions.PeersFollow` | typeway-server/src/typed_ws.rs:59-198 | in every run each move of either peer is the one its own protocol calls for, loops written out: the type sent, the branch gone on with, the frame taken, and what is left of the protocol |
| `Sessions.FiniteRunsEnd` | typeway-core/src/session.rs:37-76 | every run of a protocol without loops is bounded by twice its depth, and where it stops both have ended |
| `Sessions.RightIsNotLeft` | typeway-server/src/typed_ws.rs:128-172 | the text sent for the right branch does not pass the substring test for the left one |
| `Imports.Resolver.ParseRecursive` | typeway-grpc/src/proto_parse.rs:271-311 | the recursive method over the shared seen set computes the specified merge and order, and terminates on every finite import graph |
| `Imports.Resolver.Follow` | typeway-grpc/src/proto_parse.rs:288-302 | one unseen import: marked, searched in the include directories in order, and followed |
| `Imports.ResolveExact` | typeway-grpc/src/proto_parse.rs:266-311 | resolution fails exactly when a reachable file does not parse; else it appends the messages and enums of exactly the reachable files, each once, in the order first met |
| `Imports.RootTwiceIff` | typeway-grpc/src/proto_parse.rs:266-311 | definitions of the root file alone appear twice if its own path is reachable from its imports, and once otherwise |
| `Imports.FindFirst` | typeway-grpc/src/proto_parse.rs:290-302 | the first include directory that has the file is the one that counts, and none is found if none has it |
| `Imports.JoinIs` | typeway-grpc/src/proto_parse.rs:292 | an absolute path stands alone; otherwise one slash parts directory and path |
| `Imports.LoadHandles` | typeway-grpc/src/proto_parse.rs:278-308 | when the loop ends, everything it met is handled and so are its imports |
| `Imports.LoadExplains` | typeway-grpc/src/proto_parse.rs:278-308 | everything the loop met is reachable, without repeats, and accounts for all it contributed |
| `Imports.LoadFails` | typeway-grpc/src/proto_parse.rs:271-301 | a failure points at a reachable file that does not parse, with that file's error |
| `Framing.EncodeGrpcFrame` | typeway-grpc/src/framing.rs:28-35 | flag, big-endian length and message |
| `Framing.FrameRoundTripIff` | typeway-grpc/src/framing.rs:28-69 | a frame decodes to its message if and only if the message is shorter than 2^32 bytes |
| `Framing.FrameLayout` | typeway-grpc/src/framing.rs:28-35 | a frame is a zero flag, the length in four bytes, highest first, and the message |
| `Framing.DecodeLayout` | typeway-grpc/src/framing.rs:53-69 | on any laid-out frame, whatever follows, the payload or the compression error; on a cut one, which error and with which numbers |
| `Framing.DecodeGrpcFrames` | typeway-grpc/src/framing.rs:146-174 | the offset loop splits a buffer into data frames and trailers |
| `Framing.SplitExact` | typeway-grpc/src/framing.rs:146-174 | encoded messages and a tail split into exactly the messages if and only if the tail holds no whole frame |
| `Framing.SplitTrailers` | typeway-grpc/src/framing.rs:146-174 | messages and then a frame with the trailers flag: the messages and exactly that payload, whatever follows |
| `Framing.GrpcFrameReader.TryTakeFrame` | interop/src/server.rs:594-609 | takes a whole uncompressed frame, or reports a flag without taking anything |
| `Framing.GrpcFrameReader.Next` | interop/src/server.rs:569-592 | the loop over body events until a frame, an error or the end |
| `Framing.ChunkIndependence` | interop/src/server.rs:569-609 | for every split into chunks the reader yields the frames of the concatenation up to the first non-zero flag |
| `Framing.FlagErrorSticks` | interop/src/server.rs:603-605 | after a flag error every later call gives it again |
| `Framing.ReaderAgainstSplit` | typeway-grpc/src/framing.rs:146-174 | reader and splitter agree up to the first non-zero flag; for flags other than the trailers flag the splitter goes on and takes the frame as data |
| `Framing.StreamingInputCall` | interop/src/server.rs:328-360 | the cursor loop with its three outcomes |
| `Framing.AggregateIsCappedSum` | interop/src/server.rs:351-359 | over whole frames the answer is the sum of the payload sizes capped at the largest i32 |
| `Breaker.CircuitBreaker.AllowRequest` | typeway-grpc/src/client.rs:178-192 | refuses exactly while open within the reset time, and moves to half-open otherwise |
| `Breaker.CircuitBreaker.RecordSuccess` | typeway-grpc/src/client.rs:195-199 | back to closed with no failures |
| `Breaker.CircuitBreaker.RecordFailure` | typeway-grpc/src/client.rs:202-209 | counts in 32 bits, remembers the time, opens at the threshold |
| `Breaker.History` | typeway-grpc/src/client.rs:160-210 | over every history: the counter is the failures since the last success modulo 2^32; closed exactly below the threshold (zero acting as one); half open exactly at or above it when a request was allowed since the breaker last opened; and a breaker that is not closed has a failure time |
| `Breaker.RefusalIsTimely` | typeway-grpc/src/client.rs:182-190 | a refusal implies enough failures in a row and an unexpired reset time |
| `Breaker.RefusalIff` | typeway-grpc/src/client.rs:178-192 | a reachable breaker refuses if and only if enough requests failed in a row, none was let through since, and the last failure is less than the reset time ago |
| `Breaker.NeverForever` | typeway-grpc/src/client.rs:182-190 | once the reset time has passed every request is allowed, in every reachable state |
| `Breaker.SendRequest` | typeway-grpc/src/client.rs:477-546 | the loop gives the specified answer and leaves the breaker where its own events lead |
| `Breaker.AttemptsBound` | typeway-grpc/src/client.rs:482-541 | at most max_retries + 1 requests, each recording one outcome |
| `Breaker.FallThroughIff` | typeway-grpc/src/client.rs:482-545 | the error after the loop is reached if and only if max_retries + 1 wraps to zero, and then nothing is sent |
| `Breaker.CallEnds` | typeway-grpc/src/client.rs:477-546 | every call, from the script, the retry set and the breaker: it goes on past a turn exactly when its error is a transport error or a listed status, and ends at the first refusal, with UNAVAILABLE, or at the first other turn or the last one, with that turn's own outcome |
| `Breaker.FailureBudget` | typeway-grpc/src/client.rs:491-541 | from closed with f failures at most threshold - f requests fail, unless the reset time elapses between turns |
| `Breaker.AllFailExactly` | typeway-grpc/src/client.rs:491-541 | when every request fails and is retried, the exact number sent and the exact answer |
| `Bodies.GrpcBody.PollFrame` | typeway-grpc/src/trailer_body.rs:92-112 | one poll of the unary body |
| `Bodies.UnaryEmits` | typeway-grpc/src/trailer_body.rs:88-116 | non-empty data, then the trailers, then the end for ever |
| `Bodies.UnaryOver` | typeway-grpc/src/trailer_body.rs:114-116 | the end is reported only when no frame remains |
| `Bodies.GrpcStreamBody.PollFrame` | typeway-grpc/src/trailer_body.rs:171-191 | one poll of the streaming body: the same machine with a status fixed in advance |
| `Bodies.StreamingResponseBody.PollFrame` | interop/src/server.rs:648-672 | one poll of the body whose channel carries data or a status |
| `Bodies.StreamEmits` | interop/src/server.rs:644-677 | in every interleaving of sends, a drop and polls, the frames are a front of the data before the first status and one trailers frame; the end is reported exactly when all of it is out, and then for ever |
| `Bodies.StreamWaits` | interop/src/server.rs:656-671 | a poll waits only when everything sent was taken and the sender is still there |
| `Bodies.WithExtraTrailers.PollFrame` | interop/src/server.rs:723-756 | one poll of the wrapper |
| `Bodies.ExtraOnce` | interop/src/server.rs:716-756 | for any fused inner body: the same frames, with the header in the first trailers frame or in one of its own at the end |
| `Bodies.WrappedAt` | interop/src/server.rs:723-756 | answer by answer, for any inner body: waiting is passed on, data is passed on, the header joins the first trailers or the first end, and every other end is an end |
| `Bodies.WrapperFused` | interop/src/server.rs:723-756 | over a fused body, once the wrapper has ended it answers the end for ever |
| `Bodies.ExtraKeepsShape` | interop/src/server.rs:728-740 | data then one trailers frame stays so |
| `Bodies.WrappedEnd` | interop/src/server.rs:758-760 | with an honest inner body the wrapper never reports the end while a frame remains |
| `Paths.BuildPath` | typeway-client/src/call.rs:50-56 | the result is rewritten once per capture |
| `Paths.FillInOrder` | typeway-client/src/call.rs:50-56 | if after a text with a placeholder in it every text is the placeholder, filling one after another puts each text in its own place |
| `Paths.FilledIff` | typeway-client/src/call.rs:50-56 | and only then |
| `Paths.PathRoundTripIff` | typeway-core/src/path.rs:145-189 | for every path and all values: the server extracts the client's captures if and only if each parses back from its text, no text is empty or holds a slash, and after a text with a placeholder in it every text is the placeholder; asked of the literals: non-empty, no slash, no placeholder; of the captures: that no segment is read as a value not shown as a segment |
| `Paths.SplitSlashed` | typeway-server/src/extract.rs:103-105 | the server's split returns the non-empty segments |
| `Paths.HoleMisplaces` | typeway-client/src/call.rs:50-56 | otherwise some capture keeps the placeholder in its segment, so the segments of the URL do not read as the captures |
| `Paths.ReadsSegments` | typeway-server/src/extract.rs:103-105 | from no URL does the server read values whose texts are empty or hold a slash |
| `Paths.StringsSteady` | typeway-core/src/path.rs:145-189 | string captures ask nothing more |
| `Strings.LinesJoin` | typeway-grpc/src/proto_gen.rs:383 | joined lines split back, except for a final empty one |
| `Strings.CarriageReturn` | typeway-grpc/src/proto_parse.rs:116 | of a line ending in a carriage return and a newline both go, and no more |
| `Strings.SpacesAre` | typeway-grpc/src/proto_parse.rs:120 | what is trimmed is the Unicode property White_Space, character by character |
| `SchemaPrint.ToProtoLine` | typeway-grpc/src/mapping.rs:347-376 | a field with its comment lines |
| `SchemaPrint.BuildMessage` | typeway-grpc/src/mapping.rs:392-399 | a message block |
| `SchemaPrint.GenerateProtoFile` | typeway-grpc/src/proto_gen.rs:340-384 | a whole file, definitions deduplicated by text in order |
| `SchemaExample.FilePrinted` | typeway-grpc/src/proto_gen.rs:340-384 | the file generated for two RPCs over one message with a documented, a repeated, an optional and a map field, line for line |
| `ProtoParser.ParseService` | typeway-grpc/src/proto_parse.rs:346-388 | the line loop of a service block with its pending comment |
| `ProtoParser.ParseMessageBlock` | typeway-grpc/src/proto_parse.rs:437-490 | the line loop of a message block with nested messages flattened |
| `ProtoParser.ParseEnumBlock` | typeway-grpc/src/proto_parse.rs:203-235 | the line loop of an enum block |
| `ProtoParser.ParseProto` | typeway-grpc/src/proto_parse.rs:108-185 | the top-level line loop |
| `SpecParser.ParseMessageSpec` | typeway-grpc/src/spec.rs:259-298 | the second parser's line loop with its pending description |
| `SchemaRoundTrip.FieldsAgree` | typeway-grpc/src/proto_parse.rs:496-597 | every printed field line is read back by both parsers to the same field, up to the name of a map type |
| `SchemaFiles.BlockReadsIff` | typeway-grpc/src/proto_parse.rs:437-490 | a printed message reads back if and only if no unlabelled field has a type whose name begins with "message" |
| `SchemaFiles.FileRoundTripIff` | typeway-grpc/src/proto_gen.rs:340-384 | parsing a generated file recovers package, service, RPCs with types, stream prefixes and comments, and every message and field, if and only if no definition has a field that looks like a nested message; otherwise it does not parse |
| `SchemaFiles.NestedBreaks` | typeway-grpc/src/proto_parse.rs:437-490 | a block with such a field is never closed, by whatever blocks follow |
| `SchemaFiles.DistinctExact` | typeway-grpc/src/proto_gen.rs:348-355 | the definitions printed are exactly those of the requests and responses, none twice by its text |
| `SchemaFiles.DistinctOrder` | typeway-grpc/src/proto_gen.rs:348-355 | they stand in the order first met: more RPCs only add at the end |
| `SchemaFiles.RequestFirst` | typeway-grpc/src/proto_gen.rs:348-355 | of one RPC the request comes before the response |
| `NestedFiles.FileReads` | typeway-grpc/src/proto_parse.rs:108-185 | a file of imports, services, enums and nested messages, in any order and at any indentation, with blank lines, comments and options between, reads as just these, each kind in the order of the file |
| `NestedFiles.BlockRead` | typeway-grpc/src/proto_parse.rs:437-490 | a message with messages inside, to any depth, reads as itself and then its inner ones under dotted names, each with the fields of its own lines |
| `NestedFiles.ServiceReads` | typeway-grpc/src/proto_parse.rs:346-388 | a service reads with its RPC lines in order, each with the nearest comment above it that only blank lines part from it |
| `NestedFiles.EnumReads` | typeway-grpc/src/proto_parse.rs:203-235 | an enum reads with the variants of its lines, blank lines, comments, options and reserved lines left aside |
| `NestedFiles.RpcShape` | typeway-grpc/src/proto_parse.rs:391-431 | an RPC line reads only if it has both pairs of parentheses and the keyword between, and as what they hold |
| `NestedFiles.MapLines` | typeway-grpc/src/proto_parse.rs:496-515 | lines that begin with map and its bracket, with or without a blank between, are read as map fields |
| `NestedFiles.SpacedMap` | typeway-grpc/src/proto_parse.rs:559-597 | a blank between map and its bracket changes nothing |
| `NestedFiles.NamesNotEmpty` | typeway-grpc/src/proto_parse.rs:188-201 | no declaration, import or block reads with an empty name |
| `NestedFiles.NotesIgnored` | typeway-grpc/src/proto_parse.rs:496-502 | whatever stands behind two slashes on the line of a field or a variant is no part of it |
| `EnumFiles.EnumRead` | typeway-grpc/src/proto_parse.rs:203-235 | a printed enum reads back with its name and every variant, wherever it stands in a file |
| `EnumFiles.ImportRead` | typeway-grpc/src/proto_parse.rs:188-201 | an import line gives its path, and so do public and weak ones |
| `SpecAgreement.SpecReads` | typeway-grpc/src/spec.rs:259-387 | the second parser recovers every field with its description, and the name if and only if it is not the word "message" |
| `SpecAgreement.DescriptionIff` | typeway-grpc/src/spec.rs:259-298 | the description is the last comment line itself if and only if it has no white space around it |
| `Requests.Flatten` | typeway-grpc/src/proto_gen.rs:120-150 | body fields re-tagged past the captures |
| `Requests.FlattenedTags` | typeway-grpc/src/proto_gen.rs:126-150 | the request's tags differ if and only if the body's do |
| `Requests.RequestExact` | typeway-grpc/src/proto_gen.rs:120-150 | the captures as they are, then the fields of the body with nothing but their tags moved, or one field for the whole body |
| `Requests.PatternFields` | typeway-grpc/src/proto_gen.rs:394-419 | named and unnamed captures become string fields, named so or numbered, in order; literals none |
| `Requests.CapturesMatch` | typeway-grpc/src/proto_gen.rs:394-419 | the pattern of a path gives one numbered field per capture |

## Left out

- Floats are opaque 4- or 8-byte patterns. Numeric conversion between JSON numbers and floats, and the
  generated arm that reads an unpacked float as a varint, end in the model's `Unmodelled` error.
- Map fields in both codecs: the table-driven decoder has no map branch, so laws about tables are about
  the other shapes; map fields of the schema text are modelled in full.
- The fallback of the table-driven codec that writes or reads JSON text inside a length-delimited field
  when a message type has no table: `Unmodelled`. The differ's theorem speaks of readable fields, which
  are the others.
- `typeway_decode_bytes` and `BytesStr`: zero-copy variants of the same loops; texts are byte sequences.
- `usize` overflow of `offset + length` on hostile length prefixes; buffers are assumed shorter than
  2^64 bytes, stated as `MAX_LEN`.
- `classify_type`: the mapping from Rust type syntax to field shapes. Nested deriving types are part of
  the shape, so recursive Rust types are not covered.
- The wording of the parsers' error messages: which input fails is proved, what the message says is not.
- Reading `.proto` files from disk: `Imports.Disk` maps paths to the parse result of their content.
- WebSocket ping, pong and close frames, transport errors, and serde itself: a frame carries the type it
  was serialised from.
- `Sessions.SessionSafety`: speaks of peers that follow their types; a peer that is not typed by the dual
  protocol is outside it, and so is one that calls `recurse` with another body than the one it entered,
  which the type parameter of `recurse` allows: the model returns to the recorded body.
- `Breaker.SendRequest`: the breaker is used by this call alone; other tasks that share it are not modelled.
  A call without a breaker is covered by the specification function and the lemmas about it.
- Backoff lengths (floating point and randomness): time between turns is arbitrary.
- `Bodies.ExtraOnce`: asks for a fused inner body; an inner body that yields data after its end is not covered.
- `DerivedRoundTrip.EmptyDecodesToDefault`: nested types are taken to derive `Default`; with a default written
  by hand, an omitted nested message comes back as that default.
- `DerivedRoundTrip.BoolNeedsShortTag`: a bool set under a long tag that is read out of step (`tag % 32` from
  16 on, or naming a fixed-width or length-delimited field), with fields behind it that do write: whether it
  comes back depends on all their bytes, and no condition on the fields is stated for that case.
- `CodecAgreement.CodecsAgree`: asks for distinct tags and names; oneofs that repeat a tag and fields of fieldless
  enum types are outside it (`EnumsDisagree`).
- `CodecConverse.TableBytesRead`: floats in a repeated field, which the table-driven encoder writes one record each
  and the generated decoder reads as varints, are outside it.
- `Paths.PathRoundTripIff`: what the URL library makes of the built text is not modelled: joining it to the base
  URL, which ends a path at `?` or `#` and resolves `.` and `..`, and percent-encoding. Nor is `CaptureRest`.
- `SchemaFiles.FileRoundTripIff`: names are words of letters, digits, underscores and dots, and comments hold
  no carriage return; oneof blocks and hand-written definition texts are not printed by the modelled code.
- `Framing.AggregateIsCappedSum`: payloads of 2^31 bytes and more, which the source casts to a negative size,
  are computed by the loop but not part of this law.
- The prost message decoder in the client-streaming loop, header rendering of a status, size hints, HTTP
  clients and servers, gRPC-Web, health, reflection, OpenAPI, name casing and code generation.
