# msgpck, modelled and verified

msgpck is a Go library that encodes and decodes MessagePack. This project models its wire codec in Dafny
and proves what its decoders and encoders promise, and where they differ from each other.

The model has four layers.

- **A grammar.** `Wire.dfy` turns the "Formats" section of the MessagePack specification into trees (`Wire`), the
  bytes of a tree (`Flatten`), the well-formed trees (`Legal`), the trees a decoder's limits admit (`Fits`), and a
  parser (`Parse`) in three modes: `Decode`, `DecodeAny`, and the package-level `decodeAnyValue`, which counts no depth.
  `Grammar.dfy` proves that the parser accepts exactly the trees of the grammar within the limits. Round trips,
  truncation, extension, canonical forms and the agreement of the decoders follow from that.
- **The reference.** `Reference.dfy` writes the decoders of arbitrary values a second time, from bytes to values, in plain
  numbers and with none of the functions the rest decodes with. `Agrees` proves both the same on every input, errors and
  positions included; `NativeMeans`, `NormMeans`, `ScalarConverts`, `StructMeansDecode` and `InstantMeans` do the same for
  native values, normalisation, struct fields and timestamps, so that none of them rests on its own definition alone.
- **The objects.** `Decoder` (input, position, depth, limits) and `Encoder` (a growing buffer) are classes whose
  methods follow the Go methods branch by branch. They are proved equal to the specification, failures included:
  the error, the position it leaves, the depth after it, and how much was allocated. `At(data, pos, s)` says that the
  bytes `s` stand in `data` at `pos`, whatever is around them.
- **The derived codecs.** Native values (`DecodeAny`, `Encode`), structs (the cached `StructDecoder` and
  `StructEncoder` against the reflective `DecodeStruct` and `encodeStruct`), the batch array form and timestamps,
  each proved against the same grammar.

Conventions: a byte is an `int` below 256, strings are byte sequences, floats are their bit patterns, Go's `int` is 64
bits wide, and errors are a datatype instead of Go's `error`. A decoded `Value` holds windows (offset and length) into
the input; `Resolve` replaces them by their contents. `Res` is the result of a specification function, with the
position; `Result` is what a method returns.

Files: `Bits`, `Bytes`, `Format`, `Wire`, `Grammar` (the grammar); `Values`, `Encoding`, `Canonical` (values and their
canonical encoding); `Allocation`, `Decoder`, `Encoder` (the objects); `Reference`, `FieldReference` (the
reference); `Native`, `NativeRoundTrip`, `AnyCodec` (native values); `Fields`, `StructDecoding`, `StructRefinement`,
`StructConverse`, `StructValues`, `StructEncoding`, `StructRoundTrip` (structs); `Batch`, `Timestamp`; `Runs` (whole runs
from a fresh object). `dafny verify dfyconfig.toml` checks everything.

## Where the code is not what one might expect

- After `ErrMaxDepthExceeded` the depth is one too high: `enterContainer` counts before it checks, and the deferred
  `leaveContainer` is registered only after the check (decoder.go:162-168, decode_value.go:234-237). `DepthKept` states
  this; `Reset` repairs it.
- Re-encoding what `Decode` returned turns a map key that was no string into an empty string, and a non-negative
  `TypeInt` into `TypeUint`. `Norm` states this. The round trip holds for every value up to `Norm`, if and only if the
  lengths fit 32 bits and the limits admit the value (`RoundTrip`).
- The bytes that `EncodeValue` writes for an accepted value are accepted again exactly when the string limit is not
  negative or the value holds no map pair: a dropped key is written as an empty string, which a negative limit refuses
  (`Canonicalisation`, with a witness in `NegativeStringLimit`).
- `DecodeInt64Array` and the cached struct decoder count no depth, and `DecodeTimestamp` checks no extension limit. They
  therefore accept inputs that the general decoder refuses; each comparison gives the exact condition.
- nil leaves a struct field alone in the cached decoder and clears it in the reflective one. Given room for the
  reflective decoder's limits, the two disagree on a field exactly when a nil for it stands behind its last value and
  what the field then holds, that value or the destination's own, is not zero (`CachedRefinesReflective`). Into a zero
  destination this takes a repeated key (`ClearedNeedsRepeat`, with a witness in `RepeatedNil`). The limits differ as
  well: only the reflective decoder counts depth, and only it holds a []byte field written as a string to the string
  limit. Conversely the cached decoder refuses keys that are no strings, nil slice elements, signed formats in unsigned
  fields and strings over the binary limit in []byte fields, and nothing else that the reflective one reads
  (`ReflectiveRefinesCached`).
- `EncodeTimestamp` is documented to take the most compact layout. For every instant it does, but an instant that was
  read from a 64-bit layout with 10^9 or more nanoseconds may need the longer layout when it is written again; this
  happens for exactly one value of the seconds field (`ShortestLayout`, with a witness in `OneCarriesOut`).

## Model

| member | source | states |
|---|---|---|
| Bits.OrApart | encoder.go:167-173 | or-ing bits below position k into bits above it adds them: they never overlap |
| Bits.HighBits | format.go:82-104 | a mask of ones above k zeros clears the low k bits and keeps the rest |
| Bits.LowBits | format.go:107-119 | a mask of k ones keeps the low k bits, and the word is made up of the two parts |
| Bits.Apart | timestamp.go:75-80 | shifting and masking take apart what shifting and adding put together |
| Format.IsPositiveFixint | format.go:82-84 | the mask test holds for exactly the bytes 0x00 to 0x7f |
| Format.IsFixmap | format.go:92-94 | the mask test holds for exactly 0x80 to 0x8f |
| Format.IsFixarray | format.go:97-99 | the mask test holds for exactly 0x90 to 0x9f |
| Format.IsFixstr | format.go:102-104 | the mask test holds for exactly 0xa0 to 0xbf |
| Format.Low4 | format.go:107-114 | the masked length of a fixmap or fixarray is the low four bits as a number |
| Format.Low5 | format.go:117-119 | the masked length of a fixstr is the low five bits as a number |
| Format.Tagged | encoder.go:167-173 | or-ing a length into a fix prefix adds it: the two never overlap |
| Bytes.UnBEofBE | encoder.go:74-92 | a number that fits w bytes is read back from its w big-endian bytes |
| Bytes.BEofUnBE | decoder.go:90-118 | and every w bytes are the big-endian form of the number read from them |
| Bytes.SignedOfUnsigned | decoder.go:120-142 | two's complement conversion there and back is the identity for 1, 2, 4 and 8 bytes |
| Bytes.Wrap64Means | decoder.go:411-413 | Go's conversion to int64 changes a number by a multiple of 2^64 only |
| Format.CountRoundTrip | decode_struct.go:89-160 | a count is read from a header field exactly when the field holds that count's bytes |
| Grammar.ParseExactly | decode_value.go:114-203 | a decoder returns a tree and a position if and only if the tree is in the grammar, within the limits, and stands at the cursor; so no eager length check rejects an input the grammar admits |
| Reference.Agrees | decode_value.go:114-327 | every one of the three decoders, on every input: the value, error and position are those of the decoder written from the formats table in plain numbers |
| Reference.TableAgrees | format.go:5-57 | the widths and lengths each first byte announces are those of the table |
| Reference.ScalarAgrees | decode_value.go:14-87 | what each scalar format stands for: signed formats a signed number of the same value, unsigned ones an unsigned number, floats their bits, the rest nil, bool or the fixint |
| Reference.NumberIsUnBE | decoder.go:90-118 | the most significant byte comes first |
| Reference.TwosComplementIsSigned | decoder.go:120-142 | a first bit of one makes a signed number negative |
| Reference.DecodeAgrees | decode_value.go:5-11 | `Decode` is the decoder of the table |
| Reference.NativeAgrees | decode_any.go:18-24 | `DecodeAny` and its depth-free copy fail as the table's decoder fails, and otherwise return a Go value that represents what it reads |
| Grammar.Extension | decode_value.go:230-305 | appending bytes changes neither a success nor any error except the end-of-input error |
| Grammar.Truncation | decoder.go:197-219 | every proper prefix of an accepted input fails, and with the end-of-input error only |
| Grammar.OnlyC1IsUnused | decode_value.go:114-203 | 0xc1 is the only first byte without a tree |
| Grammar.UniqueReading | encoder.go:285-317 | two encodings that start the same bytes are the same: none is a proper prefix of another |
| Grammar.ReadExactly | decode_value.go:114-203 | where a well-formed tree stands, a decoder reads that very tree if its limits admit it and fails otherwise |
| Grammar.AnyAgainstValue | decode_any.go:65-235 | `DecodeAny` accepts exactly the trees `Decode` accepts that have no ext and only string keys |
| Grammar.AnyFailsLikeValue | decode_any.go:65-235 | where `DecodeAny` fails, it fails with the error and at the place of `Decode`, or with an invalid format no later than `Decode` stops |
| Grammar.AnyAgainstTyped | typed_decode.go:87-219 | `DecodeAny` accepts exactly the trees the depth-free copy accepts whose nesting fits the depth left |
| Grammar.TypedFailsLikeAny | typed_decode.go:87-219 | where `DecodeAny` fails for anything but its depth, the depth-free copy fails at the same place with the same error, or with a type mismatch for an invalid format |
| Grammar.ParseDepth | decoder.go:162-173 | an accepted tree never nests deeper than the limit, and is read alike at any depth that leaves it room |
| Values.OrderedPairwise | decoder.go:74-81 | ordered windows are increasing, pairwise disjoint and inside their range |
| Encoding.HeadField | encoder.go:167-273 | the header form chosen for a length has the right kind and a count field able to hold it, for every length below 2^32 |
| Encoding.HeaderShortest | encoder.go:167-273 | no other header form that can announce the length is shorter |
| Encoding.CanonMeans | encoder.go:285-317 | the tree `EncodeValue` writes is well formed and means the normalised value |
| Canonical.CanonShortest | encoder.go:108-317 | re-encoding the meaning of any well-formed tree is never longer than the tree |
| Canonical.RoundTrip | decode_value.go:5-11 | decoding an encoded value, whatever follows it, gives the normalised value and stops behind it, if and only if its lengths fit 32 bits and it is within the limits |
| Canonical.Canonicalisation | decode_value.go:114-327 | re-encoding what `Decode` accepted is no longer and stable from then on; it is accepted under the same limits, as the normalised value, exactly when the string limit is not negative or the value has no pairs |
| Canonical.NegativeStringLimit | decode_value.go:251-277 | a witness that the condition can fail: an accepted map with a non-string key whose re-encoding is refused |
| Canonical.NormMeans | encoder.go:109-112 | the normalised value is the one value without non-negative `TypeInt` or missing key that is the same up to the tag of whole numbers and up to missing keys |
| Decoding.Decoder.Reset | decoder.go:34-38 | the initial state is re-established after any run |
| Decoding.Decoder.ReadByte | decoder.go:56-63 | the byte at the cursor, or the end-of-input error with nothing moved |
| Decoding.Decoder.ReadBytes | decoder.go:74-81 | a window of the input, not a copy, or the error with nothing moved |
| Decoding.Decoder.ReadUint | decoder.go:84-118 | the big-endian number at the cursor, or the error with nothing moved |
| Decoding.Decoder.EnterContainer | decoder.go:162-168 | counts first and checks then, so a refused entry has already counted |
| Decoding.Decoder.ValidateLen | decoder.go:175-230 | the configured limit comes before the check of the bytes at hand, which asks two per map pair |
| Decoding.Decoder.ParseStringLen | decode_struct.go:135-160 | the count a string format announces, a type mismatch for other formats |
| Decoding.Decoder.ParseBinaryLen | decode_struct.go:164-186 | the same for binary data |
| Decoding.Decoder.ParseArrayLen | decode_struct.go:112-131 | the same for arrays |
| Decoding.Decoder.ParseMapLen | decode_struct.go:89-108 | the same for maps |
| Decoding.Decoder.Decode | decode_value.go:5-11 | from any state: the parsed tree's meaning shown through ordered windows of the bytes consumed, or the parser's error at its position; the depth is restored except after the depth error; the slots made are exactly those `Spent` counts |
| Decoding.Decoder.DecodeValue | decode_value.go:114-203 | the same behind a format byte, for every one of the 256 formats |
| Decoding.Decoder.DecodeSwitch | decode_value.go:140-202 | the same for the formats with no fix form |
| Decoding.Decoder.DecodeUintToValue | decode_value.go:14-41 | unsigned formats give the number they store |
| Decoding.Decoder.DecodeIntToValue | decode_value.go:44-71 | signed formats give the two's complement number they store |
| Decoding.Decoder.DecodeFloatToValue | decode_value.go:74-87 | float formats give the bits they store |
| Decoding.Decoder.DecodeValueExtVar | decode_value.go:90-111 | ext formats with a stored length agree with the parser |
| Decoding.Decoder.DecodeString | decode_value.go:206-215 | a string is a window under the string limit |
| Decoding.Decoder.DecodeBinary | decode_value.go:218-227 | binary data is a window under the binary limit |
| Decoding.Decoder.DecodeExt | decode_value.go:308-327 | limit and length first, then the type byte, then the data window; each failure at its own position |
| Decoding.Decoder.DecodeArray | decode_value.go:230-248 | the items of the parser, with length check, entry and exit in that order |
| Decoding.Decoder.DecodeElements | decode_value.go:239-247 | the loop reads exactly the items asked for, after making one slot for each |
| Decoding.Decoder.DecodeMapKey | decode_value.go:251-277 | a string key is a window, any other key is read and dropped; the retry after a failed length ends where the parser ends |
| Decoding.Decoder.DecodeMap | decode_value.go:279-305 | the pairs of the parser, alternating keys and values |
| Decoding.Decoder.DecodePairs | decode_value.go:288-304 | the loop reads exactly the pairs asked for, after making one slot for each |
| Allocation.SpentIsSlots | decode_value.go:230-305 | a successful run makes exactly one slot per array item and per map pair of the tree it reads |
| Allocation.SpentBound | decode_value.go:230-305 | a successful run makes fewer slots than it consumes bytes, a failing one at most the bytes at hand once per level the depth limit admits |
| Runs.DecodeFresh | decoder.go:26-31 | one run of `Decode` from a fresh decoder: outcome, disjoint increasing windows inside the bytes consumed, on success exactly the slots of the tree and fewer than the bytes, on failure at most (MaxDepth+1) times the input (once the input for a negative MaxDepth), and the final depth |
| Runs.FreshBound | decoder.go:162-219 | from a fresh decoder: the slots of the tree read, fewer than the bytes consumed, or at most (MaxDepth+1) times the input |
| EncoderModule.Encoder.Grow | encoder.go:47-60 | contents stay, the bytes asked for fit afterwards, the buffer is at most twice what was needed, and all copying so far costs no more than the buffer is long |
| EncoderModule.Encoder.WriteByte | encoder.go:62-65 | appends the byte and changes nothing before it |
| EncoderModule.Encoder.WriteBytes | encoder.go:68-71 | appends the bytes and changes nothing before them |
| EncoderModule.Encoder.WriteUint | encoder.go:74-92 | appends the big-endian form |
| EncoderModule.Encoder.EncodeInt | encoder.go:109-132 | appends the canonical form of the integer, non-negative ones as unsigned |
| EncoderModule.Encoder.EncodeUint | encoder.go:135-152 | appends the canonical form of the unsigned integer |
| EncoderModule.Encoder.EncodeString | encoder.go:167-204 | appends the canonical form of the string |
| EncoderModule.Encoder.EncodeBinary | encoder.go:207-222 | appends the canonical form of the bytes |
| EncoderModule.Encoder.EncodeArrayHeader | encoder.go:225-237 | appends the canonical array header; for a negative length the one byte the or yields |
| EncoderModule.Encoder.EncodeMapHeader | encoder.go:240-251 | appends the canonical map header; for a negative length the one byte the or yields |
| EncoderModule.Encoder.EncodeExt | encoder.go:254-282 | appends the canonical form of the ext value, fixext where the length is 1, 2, 4, 8 or 16 |
| EncoderModule.Encoder.EncodeValue | encoder.go:285-317 | appends exactly the canonical encoding of any value, nested ones included |
| EncoderModule.CutBE | encoder.go:81-85 | Go's uint32 conversion of a length writes the length's low four bytes |
| Runs.WriteRun | encoder.go:46-92 | over any sequence of byte, slice and fixed-width writes: the contents are their concatenation, capacity at most twice the length or the initial one, bytes copied by growing at most the capacity |
| Natives.NativeMeans | decode_any.go:27-62 | the Go value of a decoded one: whole numbers keep their value, as int64 below 2^63 and as uint64 from there; the rest is taken over; arrays item by item, maps with the last pair of each key |
| Natives.LastWins | decode_any.go:204-235 | with repeated keys the decoded map holds the last pair's value |
| Natives.Get | value.go:152-162 | `Get` returns the value of the first pair with the key, none exactly when no pair has it |
| Natives.BytesEqual | value.go:170-180 | the loop decides equality of byte slices |
| Natives.GetAgainstNative | value.go:152-162 | where keys are distinct, `Get` and the native map agree |
| Natives.PlainMeans | decode_any.go:65-143 | a tree has no ext and only string keys exactly when its value has |
| Natives.AnySimulatesDecode | decode_any.go:18-24 | from any state `DecodeAny` succeeds exactly when `Decode` gives a plain value, then with that value made native and the same position; it fails as `Decode` does, or with an invalid format no later than `Decode` stops |
| Natives.TypedAgainstAny | typed_decode.go:87-153 | whatever `DecodeAny` gives, the depth-free copy gives; the converse holds exactly when the nesting on the wire, overwritten values included, fits the depth left; any failure but for depth is shared, at the same place |
| AnyCodec.DecodeAny | decode_any.go:18-24 | the method returns what `AnySimulatesDecode` speaks of, with the parser's error, position and depth on failure |
| AnyCodec.DecodeAnyUint | decode_any.go:27-45 | unsigned numbers up to MaxInt64 become int64 |
| AnyCodec.DecodeArrayAny | decode_any.go:174-192 | arrays likewise, the depth restored unless the depth error arose |
| AnyCodec.DecodePairsAny | decode_any.go:204-235 | the map loop agrees with the parser pair by pair, last one winning |
| AnyCodec.DecodeKeyAny | decode_any.go:206-224 | a key that is no string is an invalid format, one cut off an end-of-input error |
| AnyCodec.TypedAny | typed_decode.go:87-153 | the depth-free copy, for either `zeroCopy` flag |
| AnyCodec.TypedArray | typed_decode.go:186-198 | its array loop |
| AnyCodec.TypedPairs | typed_decode.go:201-219 | its map loop |
| AnyCodec.ReadStringBytes | decoder.go:234-273 | string keys as the struct and typed decoders read them, a mismatch for anything else |
| AnyCodec.Encode | encode.go:9-56 | appends one of the trees the value may be written as, for whatever order its maps are iterated in |
| AnyCodec.EncodeSliceAny | encode.go:70-78 | the slice loop of it |
| AnyCodec.EncodeMapStringAny | encode.go:58-67 | the map loop of it: every key once, in any order |
| NativeRoundTrip.RoundTripAny | decode_any.go:18-235 | `DecodeAny` reads back every native tree, integers folded, from every tree it may have been written as, exactly when its lengths fit 32 bits and the limits admit it |
| Runs.Marshal | encode.go:247-261 | the bytes of `Marshal` are read back by `DecodeAny` wherever they stand, exactly when the lengths fit 32 bits and the limits admit the value |
| Runs.UnmarshalAny | decode_any.go:356-365 | decoding into an `any` variable is one `DecodeAny` from the start; bytes behind the value are ignored, and a nil leaves the variable as it was |
| FieldReference.ScalarConverts | struct_decoder.go:198-330 | a scalar field or element, completely: the formats it takes, failures where and as the table's decoder fails, and otherwise that decoder's value converted - numbers in the range of the field and the same modulo its size |
| FieldReference.NilElement | decode_struct.go:364-368 | a nil element is the zero of its kind to the reflective decoder, a mismatch to the cached one |
| FieldReference.CountConverts | decode_struct.go:89-131 | the count of a slice or map, completely: formats, widths, limit and the bytes asked for |
| Fields.WrapMeans | struct_decoder.go:229-270 | narrowing to n bits gives a number in range that differs by a multiple of 2^n |
| Fields.ScalarBlob | struct_decoder.go:1422-1465 | strings and bytes of a field: the cached decoder holds them to the binary limit, the reflective one to each family's own |
| Fields.DecodeInt | decoder.go:393-427 | integers of every width and sign as int64, wrapping above MaxInt64 |
| Fields.DecodeUint | decode_struct.go:491-523 | unsigned fields; only the reflective decoder takes signed formats |
| Fields.DecodeString | decode_struct.go:571-605 | string fields |
| Fields.DecodeBytesCached | struct_decoder.go:1422-1465 | byte fields of the cached decoder |
| Fields.DecodeBytesReflective | decode_struct.go:608-679 | byte fields of the reflective decoder |
| Fields.DecodeScalar | decode_struct.go:358-450 | every scalar kind of either decoder, narrowed to its width as Go converts |
| StructDecoding.FindField | struct_decoder.go:171-178 | the scan finds the first field of that name, or none |
| StructDecoding.CachedElems | struct_decoder.go:643-686 | the loops over slice elements; nil is no element |
| StructDecoding.CachedField | struct_decoder.go:198-330 | nil leaves the field as it is, a failed read too, and no other field changes |
| StructDecoding.DecodeInto | struct_decoder.go:128-196 | result, destination and position of the cached decoder are those of `StructAt`, partial assignments before an error included |
| StructDecoding.ReflectiveField | decode_struct.go:358-450 | nil clears the field |
| StructDecoding.SkipPair | decode_struct.go:305-315 | a pair whose key is no string is skipped as a whole |
| StructDecoding.DecodeStruct | decode_struct.go:257-355 | result, destination, position and depth of the reflective decoder are those of `StructAt` |
| StructRefinement.CachedRefinesReflective | decode_struct.go:257-355 | for every input the cached decoder reads into any destination: the reflective one gets to the same place exactly when its limits have room; each field then differs exactly when a nil behind its last value clears something; so the two agree exactly when there is room and nothing is cleared |
| StructConverse.ReflectiveRefinesCached | struct_decoder.go:128-196 | for every input the reflective decoder reads: the cached one reads it to the same place exactly when every key is a string, no slice element is nil, no unsigned field has a signed format, and no []byte field a string over the binary limit |
| StructValues.StructMeansDecode | struct_decoder.go:128-196 | for every input the cached decoder reads: `Decode` reads the same bytes exactly when the limits have room, one pair per entry, each key naming the entry's field and each entry's value being the pair's value converted |
| StructRefinement.CachedExactly | struct_decoder.go:162-193 | failures included: the cached loop leaves what the pairs before the first failing one make of the destination, and fails as that pair does |
| StructConverse.ReflectiveExactly | decode_struct.go:290-352 | failures included: the reflective loop leaves what the pairs before the first failing one make of the destination, cleared fields among it |
| StructRefinement.FinalValue | struct_decoder.go:198-206 | what either decoder leaves in a field after all pairs: its last value, what was there before, or zero behind a nil |
| StructRefinement.ClearedNeedsRepeat | struct_decoder.go:162-193 | into a zero destination nothing is cleared unless a field key is repeated |
| StructRefinement.RepeatedNil | decode_struct.go:364-368 | a witness that a repeated key can make the two disagree |
| StructEncoding.PreEncodeString | struct_encoder.go:26-59 | the pre-encoded name is byte for byte what `EncodeStringBytes` writes, for every length |
| StructEncoding.EmptyIsZero | struct_encoder.go:183-222 | a value is empty exactly when it is the zero of its type |
| StructEncoding.TreeInOrder | struct_encoder.go:149-181 | a struct is written as a map that announces as many pairs as fields are written, those fields in their order, each as its name and its value |
| StructEncoding.KeyedExactly | struct_encoder.go:149-158 | with distinct names, a field's name is among the keys exactly when it is not an omitempty field holding zero |
| StructEncoding.FieldAsValue | struct_encoder.go:231-300 | a field is written byte for byte as `EncodeValue` writes its value |
| StructEncoding.CountPresent | struct_encoder.go:149-158 | the first pass counts the pairs the second one writes |
| StructEncoding.StructEncoder.EncodeInto | struct_encoder.go:149-181 | appends the struct's tree, whose header announces the pairs below it |
| StructEncoding.EncodeStruct | encode.go:190-215 | appends the same tree: both encoders write identical bytes |
| StructRoundTrip.StructRestored | struct_decoder.go:162-193 | any map with the fields' pairs in any order and pairs of any other keys among them is read, by either decoder and into any destination, exactly when its limits have room; then the fields mentioned hold their values and the others what they held before |
| StructRoundTrip.StructRoundTrips | struct_encoder.go:149-222 | what either encoder writes, with any omitempty flags, either decoder restores into a zero destination, exactly when the limits admit the struct and each field written |
| Batch.EncodeInt64Array | encoder.go:321-326 | appends the tree of the array |
| Batch.DecodeInt64Array | decoder.go:276-302 | result and position are those of `BatchAt` |
| Batch.BatchRoundTrip | decoder.go:276-302 | the array written is read back, whatever follows, exactly when it is within the array limit |
| Batch.BatchRefinesDecode | value.go:90-95 | what the batch form accepts, `Decode` reads over the same bytes with `AsInt` equal element by element, exactly when there is depth for one container |
| Batch.BatchExactly | decoder.go:276-302 | with depth for one container, the batch form accepts exactly what `Decode` reads as an array of whole numbers, and fails as `Decode` does but for mismatches |
| Timestamp.Packing | timestamp.go:28-34 | shifting the nanoseconds by 34 and or-ing the seconds loses and overlaps nothing, and both parts come back |
| Timestamp.Unpacking | timestamp.go:75-80 | every 64-bit word is 30 bits of nanoseconds above 34 of seconds |
| Timestamp.EncodeTimestamp | timestamp.go:18-49 | appends the tree of the instant in the layout its range calls for |
| Timestamp.DecodeTimestampDataLen | timestamp.go:52-70 | the three layouts, an ext 8 only with length 12 |
| Timestamp.DecodeTimestampValue | timestamp.go:73-99 | the instant in 4, 8 or 12 bytes, a type mismatch for any other length; the last is read in two parts, which shows in the position after a failure |
| Timestamp.DecodeTimestamp | timestamp.go:104-119 | result and position are those of `TimestampAt` |
| Timestamp.InstantMeans | timestamp.go:73-99 | the instant in the bytes, in plain numbers, for every payload of the three layouts |
| Timestamp.Outcome | timestamp.go:104-119 | every failure of `DecodeTimestamp` with its position, and what is read otherwise |
| Timestamp.UnixMeans | timestamp.go:80-96 | carrying whole seconds out of the nanoseconds keeps the point in time |
| Timestamp.EndOfInput | timestamp.go:52-119 | a failing `DecodeTimestamp` reports the end of the input exactly when more input could make it succeed, a mismatch otherwise |
| Timestamp.TimestampRoundTrip | timestamp.go:18-119 | encoding then decoding is the identity for every instant, across the three layouts |
| Timestamp.ShortestLayout | timestamp.go:11-16 | the instant read is never written longer, with exactly one exception |
| Timestamp.OneCarriesOut | timestamp.go:75-80 | a witness of the exception: an input that `DecodeTimestamp` accepts and that carries out of the 64-bit layout |
| Timestamp.TimestampAgrees | timestamp.go:153-180 | whenever `DecodeTimestamp` succeeds, `Decode` and `ExtToTimestamp` give the same instant and position, exactly when the ext limit admits the length |
| Timestamp.AgreesBack | timestamp.go:153-180 | of the ext values that are instants, `DecodeTimestamp` accepts exactly those in a layout the encoder writes |

## Left out

- Reflection, `unsafe`, generics and interface switches: a struct is its list of (name, kind, omitempty) and one value per field; unexported fields and `CanSet` are not modelled.
- `sync.Pool`, the `sync.Map` caches and concurrency: they add no logic beyond `Reset`.
- Tag parsing and embedded structs: the field list is taken as given.
- Pointer fields, nested structs, maps inside structs, `decodeNestedMap`, `decodeNestedStruct`, `convertValue` and `valueToAny`: reflection-heavy, with partial kind coverage.
- Slices other than `[]int64` and `[]string`, and the other batch arrays: the same loops over another element.
- Float fields of structs, and the arithmetic of converting integers or float32 to float64: floats are bit patterns; a float32 read by `DecodeAny` is kept as its 32 bits (`NWidened`), and `Encode` of such a value is not modelled.
- nil slices and nil maps in a Go value: the two encoders differ there; a slice here is its list of elements.
- A 32-bit Go `int`: lengths and positions are unbounded naturals, so `pos + length*2` cannot overflow, as it cannot with 64 bits.
- `time.Time` beyond a pair of seconds and nanoseconds, and time zones.
- Aliasing of the input: `data` is an immutable sequence, so a caller who changes the buffer behind a zero-copy window is outside the model; the windows themselves are modelled.
- Slots are counted for `Decode` only, as one per element of `make([]Value, n)` and `make([]KV, n)`; byte copies are not counted.
- `make` followed by element assignment in the decoding loops: the loops here append to a sequence of the same final length, and the slots are counted where `make` stands.
- The four `parse*LenSwitch` duplicates of the `parse*Len` methods: one method stands for both.
- Error wrapping and the text of errors: one constructor per error value.
- Config builders and `DefaultConfig`: limits are arbitrary integers in all theorems that do not say otherwise.
- AnyCodec.Encode: covers nil, bool, integers of every width as int64 or uint64, both floats, strings, byte slices, `[]any` and `map[string]any`; the reflection fallback for every other type, and the error it can return, are not modelled.
- Runs.Marshal: likewise for those types, on which the source never returns an error; the copy out of the pooled encoder is the sequence returned.
- Fields.DecodeScalar: bools, integers, strings and byte slices; floats, arrays, maps, structs, pointers and interfaces of the cited switch are not modelled.
- StructDecoding.CachedField: fields of those kinds, `[]int64` and `[]string`; the other kinds of the cited switch are not modelled.
- StructDecoding.ReflectiveField: fields of those kinds, `[]int64` and `[]string`; the other kinds of the cited switch are not modelled.
- Copies that the source keeps more than once and the model once: the scalar, string and binary cases of the two `any` decoders (`DecodeAnyLeaf`); the field values and empty tests of the two struct encoders (`EncodeField`, `IsEmpty`); the integer decoders of the batch form, the cached and the reflective struct decoder (`DecodeInt`, for `decodeInt` twice and `decodeValueInt`); their string decoders (`DecodeString`, for `decodeString` and `decodeValueString`) and their bool case (`DecodeScalar`). That these copies agree is therefore not a theorem here.
- The `zeroCopy` flag of the typed decoder decides only whether a string or byte slice shares the input's memory; contents are modelled, sharing is not, so the parameter has no effect.
