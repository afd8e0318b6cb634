# Verified models of a robot control and data stack

Dafny models of the parts of the repository whose correctness is not visible from one
function alone. `dafny verify dfyconfig.toml` checks the whole project.

- **Gremlin wire codec, in Go and Python.** `Bits` and `Varint` give integers with shifts
  and masks and the base 128 form; `ZigZag`, `Wire`, `GoReader`, `GoWriter`, `GoRoundTrip`,
  `LazyMessage`, `PyReader`, `PyWriter`, `PyTyped` and `PySizes` follow the source files,
  and `GoWalk` follows the offsets of the Go loops. Both decoders, skippers and writers
  are proved against one reference form and against each other; `Interop` puts every
  writer before every reader, and `Generated` and `MapEntry` follow what generated Python
  code writes for nested messages, packed lists and map entries. The standard is the
  Protocol Buffers Encoding specification, sections "Base 128 Varints", "Signed Integers",
  "Length-Delimited Records", "Last One Wins" and "Groups".
- **ST3215 calibration.** `Calibrate` finds the arc of a set of readings; `PortMeta` takes
  it to the servo's offset register and the recentred bounds, and follows the worker that
  collects positions; `Freeze` says which bounds a freeze leaves.
- **SmolVLA attention.** `Attention` has masks and positions; `CachedInference` runs an
  abstract stack of layers three ways and proves that the cached run computes what the
  one-shot forward computes; `Sampling` has the times and the steps of the sampler.
- **Teleoperation.** `Teleop` projects positions, `Protection` is the overload protection
  of a motor over runs of ticks, and `Mirroring` says where the follower is sent and when,
  in terms of positions on the circle.
- **ST3215 bus.** `BusState`, `BusHistory` and `Published` are the published lists of buses
  and motors (over `Keyed`, lists that stand for finite maps); `Grace`, `EepromCache` and
  `BusWorker` are the scan of a bus, `WorkerTells` says what the worker sends and `Servos`
  what commands do to EEPROM registers, and `BusLoop` runs scans and commands and follows
  what they send into the published lists.
- **Datasets.** `Episodes` and `Grid` cut recordings into episodes and rendering jobs;
  `Chunks` builds the training index and its action chunks.
- **gremlinc.** `ImportRoot` finds the import root of a set of files; `Declarations` gives
  definitions their names, and `Scopes`, `ScopeSearch`, `Resolving` and `FirstNames` find
  what a type name means.

`Ordered` (ordered sets as ascending sequences) and `Options` are shared.

What the code does is kept where it differs from what one might expect of it. The places:

- A Go skip or unmarshal loop can fail to advance on a length of 2^63 or more. Its rounds
  all move forward exactly when every length met keeps the new offset below 2^63 or is a
  negative int smaller in size than the bytes of its tag and of itself together
  (`GoWalk.ForwardExactly`, `GoWalk.GroupForwardExactly`), and then the loop ends
  (`GoWalk.ForwardEnds`); `LazyMessage.LengthPastInt64` is a buffer on which it never does.
- Go field numbers below 0 can be written but not read (`GoRoundTrip.ReadTag`).
- A signed 32-bit field whose varint decodes to more bits is cut off by Go and not by
  Python; all other typed reads of an accepted varint agree (`PyTyped.VarintReadsAgree`).
- `reset` rewinds the Python `Writer` and does nothing to `StreamingWriter`
  (`PyWriter.SameOutput`).
- A generated map field announces too many bytes for its entries when its number is above
  15, since the tags of key and value are counted as long as its own
  (`MapEntry.EntryExactly`), and a reader takes the bytes that follow for a part of the
  entry (`MapEntry.EntryOverruns`).
- A frozen midpoint of 0 shifts every displayed position by one step, and a tracked arc of
  one position counts as a full turn (`PortMeta.DisplayedPosition`, `PortMeta.WidthsAgree`).
  All positions display inside the recentred bounds exactly when the midpoint is not 0 and
  the arc is at most 4094 steps wide (`PortMeta.InsideExactly`).
- An automatic calibration drops bounds that the calibration worker still needs
  (`PortMeta.PanicsExactly`).
- The grace window never evicts a motor: the comment in port.rs describes an eviction
  after 100 ms of misses, and the code clears the tracker of every motor it keeps
  (`Grace.NeverForgets`; `Grace.EvictedExactly` is the described behaviour).
- A leader off its arc does not always stand for the nearer end, as the documentation of
  normalize_position has it: on an arc that does not wrap it can be the other one
  (`Mirroring.FarEnd`; `Mirroring.NearestExactly` says when it is the nearer).
- A bus that connects again without a disconnect keeps its motors
  (`BusHistory.RepeatedConnect`). So a motor is listed exactly when it reported after the
  latest connect, unless a connect found it listed and nothing was heard of it or its bus
  since (`BusHistory.LatestConnectExactly`).
- After an id change the worker goes on asking the old id. Its disconnect takes the id off
  the published list, if it can be sent, and the next tick lists it again exactly when
  that tick reports it (`BusLoop.OldIdReturns`): undisturbed, when the id was seen and
  answers anything but an empty read, silence included, or when a search pings it unseen
  and gets an error (`BusLoop.UndisturbedTells`).
- A register write invalidates the EEPROM cache before its action takes effect, and a plain
  write of EEPROM registers other than the id invalidates nothing
  (`EepromCache.StaleAfterAction`, `EepromCache.StaleAfterWrite`). Images are current
  exactly when no command that may change those registers ran since the read that filled
  the cache (`EepromCache.CurrentExactly`).
- With an empty parquet file in front, samples take the images of another file
  (`Chunks.ImagesOf`).
- The parser takes the dots of `extend a.b.C` into the last part of a name, so that the
  search skips the scopes they enclose. The scopes visited are those of the full name
  exactly when no part holds a dot, a leading one aside (`Scopes.ScopesAgree`), and a
  definition is what some written name means exactly when its last part has none
  (`Declarations.MeantExactly`).
- A type name with a leading dot is found exactly as an extension of that very name that
  stands outside of any message and ahead of any package clause and Go package option of
  its file (`Declarations.LeadingDot`); a clause may follow (`Declarations.PackageBehind`).
- A field copied into an extension can resolve to the extended message itself
  (`Resolving.CopiedFieldRun`). `Resolving.CopiedField` says exactly when it gets the
  definition that its type has in that message.
- A denoising step fails when a self-attention layer has no expert block
  (`CachedInference.CacheIsSound`).

## Model

| member | source | states |
|---|---|---|
| Varint.EncodeIsVarint | shared/gremlin_go/writer.go:357-443 | The base 128 little-endian form of any natural number is one varint, and its value is that number. |
| Varint.EncodeLength | shared/gremlin_go/writer.go:445-468 | The form has at most k bytes exactly for the numbers below 128^k. |
| Varint.EncodeIsMinimal | shared/gremlin_go/writer.go:357-443 | It is the shortest varint of its value: the only one without a zero last group. |
| Varint.ReadVarint64 | shared/gremlin_go/reading.go:235-335 | A 64-bit varint, minimal or padded, is read back by the Go and the Python decoder with its value and length, whatever follows it, and the size scan agrees. |
| Varint.GoReadExact | shared/gremlin_go/reading.go:235-335 | The Go decoder accepts a buffer exactly when it starts with a varint of at most ten bytes and 64 bits, and then returns that varint. |
| Varint.ReadersDiffer | shared/gremlin_py/gremlin/reader.py:216-239 | Where Go accepts, Python reads the same value and size and both scanners report it. Python alone accepts exactly the ten-byte forms whose last byte is 2 to 127, and reads them as at least 2^64. |
| GoReader.Reader.ReadVarIntAt | shared/gremlin_go/reading.go:235-335 | The unrolled ten-block decoder, with its wrapping subtractions, returns the value and length of the accepted varint, or length -1. |
| GoReader.Reader.GetVarIntSize | shared/gremlin_go/reading.go:62-72 | The scanning loop returns the size up to the first byte below 128, and an error past ten bytes or the end. |
| GoReader.Reader.ReadTagAt | shared/gremlin_go/reading.go:8-18 | The tag read splits the varint into number and wire type and refuses numbers outside the accepted range. |
| GoReader.Reader.SkipData | shared/gremlin_go/reading.go:20-56 | The recursive skipper with 64-bit wrapping offsets is the specification function that the skipping laws are proved of. |
| PyReader.Reader.ReadVarIntAt | shared/gremlin_py/gremlin/reader.py:216-239 | The decoding loop of or-ed shifted groups returns the value of the accepted varint, or raises. |
| PyReader.Reader.GetVarIntSize | shared/gremlin_py/gremlin/reader.py:89-96 | The scanning loop finds the same size as the Go scanner on every buffer. |
| PyReader.Reader.ReadTagAt | shared/gremlin_py/gremlin/reader.py:54-64 | The tag read, which also refuses the unnamed wire types 6 and 7. |
| PyReader.Reader.SkipData | shared/gremlin_py/gremlin/reader.py:66-87 | The recursive skipper terminates on every buffer and is the specification function of the skipping laws. |
| ZigZag.GoZigIs | shared/gremlin_go/writer.go:259-262 | The shift and xor of Go is the zigzag mapping, on every int64. |
| ZigZag.GoZagIs | shared/gremlin_go/reading.go:226-233 | The decoding expression of Go is the inverse mapping on every uint64. |
| ZigZag.PyZagIs | shared/gremlin_py/gremlin/reader.py:209-214 | The decoding expression of Python is the inverse mapping on every natural number. |
| ZigZag.GoZigZag | shared/gremlin_go/reading.go:226-233 | Decoding undoes encoding on every int64, and the encoded form is a uint64. |
| ZigZag.PyZigZag | shared/gremlin_py/gremlin/writer.py:201-204 | The Python writer agrees with the mapping, with its own size function and with its own reader exactly on the signed 64-bit integers. |
| Wire.PySkip | shared/gremlin_py/gremlin/reader.py:66-87 | Skipping raises or returns a strictly larger offset, on any buffer and nesting. |
| Wire.GroupEndsInside | shared/gremlin_py/gremlin/reader.py:66-87 | A skipped group ends inside the buffer. |
| Wire.SkipPayload | shared/gremlin_go/reading.go:20-56 | On an encoded field, groups nested to any depth included, skipping lands exactly past the payload, and all its lengths fit. |
| Wire.SkipBody | shared/gremlin_go/reading.go:40-52 | On a group body it lands exactly past the end tag. |
| Wire.ParsePayload | shared/gremlin_go/reading.go:20-56 | Conversely, whatever is skipped inside the buffer is the payload of a well-formed field. |
| Wire.ParseBody | shared/gremlin_go/reading.go:40-52 | And a skipped group body is a message of well-formed fields and an end tag. |
| Wire.GoSkipsAsPython | shared/gremlin_go/reading.go:20-56 | Whenever the lengths met fit a signed 64-bit int, Go skips to the same offset as Python or fails with it, without panic, within as many rounds as there are bytes. |
| Wire.GoBytesProgress | shared/gremlin_go/reading.go:28-39 | The exact condition under which a length-delimited skip moves forward in Go, and under which it agrees with Python. |
| Wire.MessageConcat | shared/gremlin_go/gremlinc/testpb/protobuf_unittest_import/unittest_import.pb2.go:91-112 | Concatenated field lists encode to concatenated messages. |
| Wire.TagsAgree | shared/gremlin_py/gremlin/reader.py:54-64 | Where Python reads a tag Go reads the same; Go alone accepts only tags of unnamed wire types. |
| GoWriter.SizeVarIntIs | shared/gremlin_go/writer.go:445-468 | The ten thresholds are the length of the reference encoding for every uint64. |
| GoWriter.VarIntToBytesIs | shared/gremlin_go/writer.go:269-355 | The ten cases emit the reference encoding for every uint64. |
| GoWriter.TagVarIntIs | shared/gremlin_go/writer.go:219-222 | The tag varint is eight times the number plus the wire type, modulo 2^64. |
| GoWriter.SizeTagIs | shared/gremlin_go/writer.go:224-227 | The tag size is the length of the tag written, for every number and wire type. |
| GoWriter.SizeScalarIs | shared/gremlin_go/writer.go:27-265 | Every typed Size function is the length of what the matching append writes. |
| GoWriter.ContentSizeIs | shared/gremlin_go/gremlinc/testpb/protobuf_unittest_import/unittest_import.pb2.go:168-179 | The content size of a list of set fields is the length of its encoding. |
| GoWriter.Writer.constructor | shared/gremlin_go/writer.go:11-15 | A writer starts empty with the given capacity. |
| GoWriter.Writer.WriteBytes | shared/gremlin_go/writer.go:470-478 | Appending fails exactly when the bytes do not fit the capacity, and otherwise extends the contents by them. |
| GoWriter.Writer.AppendVarInt | shared/gremlin_go/writer.go:357-443 | The ten-case append extends the contents by the reference encoding. |
| GoWriter.Writer.AppendSignedVarInt | shared/gremlin_go/writer.go:259-262 | The signed append extends them by the encoding of the zigzag value. |
| GoWriter.Writer.AppendTag | shared/gremlin_go/writer.go:219-222 | The tag append extends them by the tag varint. |
| GoWriter.Writer.AppendFixed32WithoutTag | shared/gremlin_go/writer.go:229-236 | Four little-endian bytes. |
| GoWriter.Writer.AppendFixed64WithoutTag | shared/gremlin_go/writer.go:242-253 | Eight little-endian bytes. |
| GoWriter.Writer.Append | shared/gremlin_go/writer.go:17-217 | Every tagged append extends the contents by tag and value, or fails for lack of room. |
| GoWriter.Writer.AppendWithoutTag | shared/gremlin_go/writer.go:55-217 | Every untagged append extends them by the value. |
| GoWriter.Writer.AppendAll | shared/gremlin_go/gremlinc/testpb/protobuf_unittest_import/unittest_import.pb2.go:148-156 | A whole message is appended field by field. |
| GoWriter.Marshal | shared/gremlin_go/gremlinc/testpb/protobuf_unittest_import/unittest_import.pb2.go:135-146 | A writer of the computed size never runs out of room and is filled exactly. |
| GoRoundTrip.ReadFixed32Is | shared/gremlin_go/reading.go:74-76 | Four bytes or-ed together by shifts are the little-endian number. |
| GoRoundTrip.ReadFixed64Is | shared/gremlin_go/reading.go:78-81 | Eight bytes likewise. |
| GoRoundTrip.ReadScalar | shared/gremlin_go/reading.go:83-224 | Every typed read returns the value whose bytes its append wrote, at any offset. |
| GoRoundTrip.SkipScalar | shared/gremlin_go/reading.go:20-56 | Skipping a written value lands right behind it. |
| GoRoundTrip.ReadTag | shared/gremlin_go/reading.go:8-18 | A field number is read back exactly when it is not negative; a negative one is written and then refused. |
| GoRoundTrip.WalkBack | shared/gremlin_go/reading.go:8-56 | Walking the bytes of any list of tagged values by tag read, typed read and skip returns the same numbers, kinds and values. |
| GoRoundTrip.MarshalAndWalk | shared/gremlin_go/gremlinc/testpb/protobuf_unittest_import/unittest_import.pb2.go:135-179 | Marshalling fills exactly the computed size and walks back to the same list. |
| LazyMessage.ImportMessageReader.Unmarshal | shared/gremlin_go/gremlinc/testpb/protobuf_unittest_import/unittest_import.pb2.go:91-112 | The loop records the offset of the last field 1 and skips every field. |
| LazyMessage.ImportMessageReader.GetD | shared/gremlin_go/gremlinc/testpb/protobuf_unittest_import/unittest_import.pb2.go:68-89 | The first call decodes and caches; later calls return the cached value. |
| LazyMessage.UnmarshalFields | shared/gremlin_go/gremlinc/testpb/protobuf_unittest_import/unittest_import.pb2.go:75-112 | Lazy reading equals eager decoding for every concatenation of well-formed fields with field 1 only as a varint, from any recorded offset on. |
| LazyMessage.UnmarshalMessage | shared/gremlin_go/gremlinc/testpb/protobuf_unittest_import/unittest_import.pb2.go:75-112 | On a fresh reader it succeeds and yields the int32 of the last field 1, or 0. |
| LazyMessage.LastWins | shared/gremlin_go/gremlinc/testpb/protobuf_unittest_import/unittest_import.pb2.go:91-112 | Of two concatenated messages the last one that sets the field wins. |
| LazyMessage.EagerConcat | shared/gremlin_go/gremlinc/testpb/protobuf_unittest_import/unittest_import.pb2.go:91-112 | Decoding a concatenation is decoding one after the other. |
| LazyMessage.UnknownIgnored | shared/gremlin_go/gremlinc/testpb/protobuf_unittest_import/unittest_import.pb2.go:98-110 | Fields other than field 1 never matter. |
| LazyMessage.UnmarshalFinishes | shared/gremlin_go/gremlinc/testpb/protobuf_unittest_import/unittest_import.pb2.go:91-112 | When the top-level lengths fit a signed 64-bit int, the loop finishes within as many rounds as bytes, with the stated result. |
| LazyMessage.LengthPastInt64 | shared/gremlin_go/gremlinc/testpb/protobuf_unittest_import/unittest_import.pb2.go:91-112 | A concrete buffer on which the loop never finishes: a length of 2^64 - 11 takes the offset back. |
| GoWalk.NextForward | shared/gremlin_go/reading.go:20-56 | One round, at any depth, starts the next one further on exactly when it is not length-delimited, or its length keeps the offset below 2^63 or exceeds 2^64 minus the bytes of its tag and of itself. |
| GoWalk.TraceFollows | shared/gremlin_go/gremlinc/testpb/protobuf_unittest_import/unittest_import.pb2.go:91-112 | The round starts of the loop and of all group loops in it are the orbit of that one-round step. |
| GoWalk.ForwardExactly | shared/gremlin_go/gremlinc/testpb/protobuf_unittest_import/unittest_import.pb2.go:91-112 | Every round of the loop, group loops included, moves strictly forward exactly when every length met takes it forward. |
| GoWalk.GroupForwardExactly | shared/gremlin_go/reading.go:40-52 | The same of a group loop alone, up to the offset behind its end tag. |
| GoWalk.TraceTells | shared/gremlin_go/gremlinc/testpb/protobuf_unittest_import/unittest_import.pb2.go:91-112 | How the loop ends is read off its round starts: success ends past the buffer, a panic below 0, and a run out of rounds has made them all. |
| GoWalk.ForwardEnds | shared/gremlin_go/gremlinc/testpb/protobuf_unittest_import/unittest_import.pb2.go:91-112 | When every length met takes it forward the loop ends within as many rounds as bytes, without panic. |
| LazyMessage.AcceptedExactly | shared/gremlin_go/gremlinc/testpb/protobuf_unittest_import/unittest_import.pb2.go:91-112 | Accepted are exactly the messages of well-formed fields whose last one may be cut short inside its fixed-width or length-delimited data. |
| LazyMessage.RoundTrip | shared/gremlin_go/gremlinc/testpb/protobuf_unittest_import/unittest_import.pb2.go:64-179 | Marshal, Unmarshal and GetD return every int32. |
| PyWriter.Writer.AppendVarInt | shared/gremlin_py/gremlin/writer.py:206-259 | Five unrolled rounds and a loop store the digits of the value; a byte past the bytearray raises and leaves the digits before it. |
| PyWriter.Writer.AppendRawBytes | shared/gremlin_py/gremlin/writer.py:261-264 | A slice store, which may grow the bytearray. |
| PyWriter.Writer.Append | shared/gremlin_py/gremlin/writer.py:31-204 | Every append call stores its chunks in order, up to the first that raises; an earlier exception does not matter to it. |
| PyWriter.StreamingWriter.AppendVarInt | shared/gremlin_py/gremlin/writer.py:433-438 | The streaming loop emits the same digits. |
| PyWriter.StreamingWriter.Append | shared/gremlin_py/gremlin/writer.py:278-431 | Every append call emits its chunks in order, up to the first that raises. |
| PyWriter.SameBytes | shared/gremlin_py/gremlin/writer.py:26-441 | The chunks of a call, up to a failing one, succeed or fail alike and give the same bytes through both writers since the last reset, given room. |
| PyWriter.SameCalls | shared/gremlin_py/gremlin/writer.py:26-441 | So does any run of calls whose exceptions are caught: the same calls fail, and both writers hold the same bytes since the last reset. |
| PyWriter.SameOutput | shared/gremlin_py/gremlin/writer.py:278-279 | After any such run the whole outputs agree exactly when nothing was written before the last reset, because the streaming reset does nothing. |
| PyWriter.RoomExactly | shared/gremlin_py/gremlin/writer.py:206-264 | Without resets the bytearray writer succeeds exactly when the streaming one does and the last varint ends inside the bytearray as it was. |
| PySizes.SizeVarIntIs | shared/gremlin_py/gremlin/sizes.py:23-24 | The bit-length formula is the length of the varint for every natural number. |
| PySizes.SizeSignedIs | shared/gremlin_py/gremlin/sizes.py:26-28 | The signed size is the length of the zigzag varint. |
| PySizes.SizeIntIs | shared/gremlin_py/gremlin/sizes.py:30-35 | The int sizes measure the varint written exactly on the range from -2^64 to 2^64 - 1. |
| PyTyped.VarintReadsAgree | shared/gremlin_py/gremlin/reader.py:134-173 | Where Go accepts a varint, its typed reads and those of Python give the same value, except exactly a signed 32-bit one that decodes to more bits. |
| PyTyped.VarintReadsApart | shared/gremlin_py/gremlin/reader.py:134-173 | Where Go does not, it reads a zero, and Python raises or finds a number of more than 64 bits; the results agree exactly when a 32-bit read of that number keeps 32 zeros. |
| PyTyped.FixedReadsAgree | shared/gremlin_py/gremlin/reader.py:98-108 | Fixed-width reads give the same value on every buffer; Go panics where Python raises. |
| PyTyped.BytesReadsAgree | shared/gremlin_py/gremlin/reader.py:110-118 | Length-delimited reads agree where all the data is there. |
| PyTyped.GenerateTagBytes | shared/gremlin_py/codegen/gen/fields/sizes.py:16-80 | The tag bytes of generated Python code are those that Go writes, negative numbers included. |
| Interop.ValueWritten | shared/gremlin_py/gremlin/writer.py:54-204 | Every typed value in range is written by Python as by Go, without an exception. |
| Interop.RaisesExactly | shared/gremlin_py/gremlin/writer.py:54-204 | A call of the writers raises exactly when its value is out of range. |
| Interop.StreamWritten | shared/gremlin_py/gremlin/writer.py:281-431 | For every list of typed values the streaming writer emits the bytes that Go marshals. |
| Interop.BufferWritten | shared/gremlin_py/gremlin/writer.py:35-264 | And so does the bytearray writer, given room. |
| Interop.PyReadBack | shared/gremlin_py/gremlin/reader.py:98-215 | Every typed value is read back in Python from the bytes of either writer. |
| Interop.PyWalkBack | shared/gremlin_py/gremlin/reader.py:54-87 | Walking the written bytes in Python gives back the numbers and values. |
| Interop.EveryPair | shared/gremlin_py/gremlin/reader.py:54-215 | Each of the three writers before each of the two readers: one wire form, and the same numbers and values back. |
| Generated.DelimitedWritten | shared/gremlin_py/gremlin/writer.py:43-52 | A length announced with tag bytes or with a field number, and then any calls that write so many bytes, put down the length-delimited field that holds them. |
| Generated.RawWritten | shared/gremlin_py/gremlin/writer.py:261-264 | Raw bytes are put down as they are. |
| Generated.DelimitedIs | shared/gremlin_py/gremlin/writer.py:43-52 | That field is the one of those bytes as a typed value, which every reader reads back. |
| Generated.SizeIs | shared/gremlin_py/codegen/gen/fields/message.py:73-85 | The sizes that generated code adds up are the lengths of what it writes, at any depth: single fields, nested and repeated messages, repeated enums and packed scalars. |
| Generated.ContentWritten | shared/gremlin_py/codegen/gen/fields/message.py:87-100 | The calls of a message write its bytes, nested to any depth, from any stream on. |
| Generated.PackedWritten | shared/gremlin_py/codegen/gen/fields/repeated_enum.py:61-79 | The values of a packed list are written one after the other without tags. |
| Generated.EitherWriter | shared/gremlin_py/gremlin/writer.py:35-264 | What such calls write is what either writer holds, given room. |
| Generated.MessageWritten | shared/gremlin_py/codegen/gen/dataclass_codegen.py:112-147 | calc_protobuf_size is the number of bytes of a message, and encode_to puts exactly these down in either writer. |
| Generated.MessageRead | shared/gremlin_py/codegen/gen/fields/message.py:109-119 | Go and Python read a message of generated code back field by field; a nested message is the bytes of its body, of which the same holds. |
| MapEntry.EntryAnnounces | shared/gremlin_py/codegen/gen/fields/map.py:235-262 | A map entry announces two bytes more than it has for every byte by which the tag of the map field is longer than one. |
| MapEntry.EntryExactly | shared/gremlin_py/codegen/gen/fields/map.py:235-262 | It is written as a field that holds the entry exactly when the field number is at most 15. |
| MapEntry.EntryOverruns | shared/gremlin_py/codegen/gen/fields/map.py:235-262 | Beyond, the first bytes of what follows become a part of the entry. |
| MapEntry.EntryRead | shared/gremlin_py/codegen/gen/fields/map.py:289-316 | The entry itself is read back in both languages as key and value. |
| Calibrate.CalculateArc | software/drivers/st3215/src/calibrate.rs:11-83 | The arc wraps exactly when an internal gap exceeds three times every other gap, and then runs from the reading after it to the one before it; else from the least to the greatest reading. |
| Calibrate.SortByGap | software/drivers/st3215/src/calibrate.rs:40-41 | Sorting the gap indices in place gives some order by descending gap. |
| Calibrate.ChoiceIsArc | software/drivers/st3215/src/calibrate.rs:43-82 | The decision gives that arc for every such order. |
| Calibrate.TiesDoNotMatter | software/station/examples/so101-autocalibration-py/arc.py:57-83 | Any two orders of equal gaps, stable or not, give the same arc, so the Rust and the Python program agree on every set. |
| Calibrate.ArcContains | software/drivers/st3215/src/calibrate.rs:11-83 | The arc contains every reading. |
| Calibrate.WidestGapIsLeftOut | software/drivers/st3215/src/calibrate.rs:52-82 | When one gap of the circle exceeds three times every other, it is the one left out, wherever zero lies. |
| Calibrate.ArcRotates | software/drivers/st3215/src/calibrate.rs:52-82 | In that case the arc turns with the data modulo 4096. |
| PortMeta.CorrectionIs | software/drivers/st3215/src/port.rs:1223-1231 | The correction is the midpoint minus 2048, except that midpoint 0 gives 2047. |
| Freeze.CorrectionOfAny | software/drivers/st3215/src/port.rs:1223-1231 | The correction for every midpoint of a command whose subtraction does not overflow, wrapped and limited. |
| PortMeta.MidpointIs | software/drivers/st3215/src/port_meta.rs:111-128 | The midpoint lies half the width, rounded down, from the start of the arc. |
| PortMeta.WidthsAgree | software/drivers/st3215/src/port_meta.rs:223-279 | The two ways of measuring the width agree exactly on arcs of more than one position. |
| PortMeta.DisplayedOnce | software/drivers/st3215/src/port_meta.rs:408-410 | With an offset the register can hold, the encoder position behind a display determines the display. |
| PortMeta.DisplayedPosition | software/drivers/st3215/src/port.rs:1223-1231 | After a freeze each position of the arc displays at its distance from the start, counted from the recentred minimum; midpoint 0 shifts it by exactly one step. |
| PortMeta.FrozenBounds | software/drivers/st3215/src/port_meta.rs:223-237 | For a width of at most 4094 and a midpoint other than 0, every encoder position of the arc displays inside the recentred bounds, which never wrap, with one extra step at the top when the width is odd; a width of 4095 leaves them. |
| PortMeta.InsideExactly | software/drivers/st3215/src/port_meta.rs:223-237 | All positions of an arc display inside the recentred bounds exactly when its midpoint is not 0 and its width is at most 4094. |
| PortMeta.Watch.constructor | software/drivers/st3215/src/port_meta.rs:74-105 | The worker starts frozen or not, with no tracked positions. |
| PortMeta.Watch.OnReset | software/drivers/st3215/src/port_meta.rs:166-195 | A reset unfreezes and clears bounds and positions. |
| PortMeta.Watch.OnAutoCalibrate | software/drivers/st3215/src/auto_calibrate/so101.rs:76-76 | An automatic calibration drops the bounds of the bus and leaves the tracked positions. |
| PortMeta.Watch.OnFreeze | software/drivers/st3215/src/port_meta.rs:199-318 | A freeze recentres the given or the tracked arcs, freezes and forgets positions; it panics exactly when it has no arcs and some tracked motor has no bounds. |
| Freeze.RecentredFits | software/drivers/st3215/src/port_meta.rs:223-253 | The bounds that a freeze stores hold every display of every position of the arc, with one extra step at the top when the width is odd, and begin and end at those of its ends. |
| Freeze.GivenBounds | software/drivers/st3215/src/port_meta.rs:215-256 | The last arc given for a motor counts; other motors keep their bounds. |
| Freeze.TrackedBoundsFrozen | software/drivers/st3215/src/port_meta.rs:258-300 | The bounds of a tracked motor become those of its arc, a single position counting as a full turn. |
| Freeze.AfterFreeze | software/drivers/st3215/src/port_meta.rs:199-318 | After a freeze of either kind each named motor has frozen bounds that hold its displays, all others keep theirs, and nothing is tracked. |
| Freeze.TrackedStaysInside | software/drivers/st3215/src/port_meta.rs:258-300 | Every position that was tracked is displayed inside the frozen bounds. |
| Freeze.MovingBounds | software/drivers/st3215/src/port_meta.rs:412-427 | While not frozen a new position moves the bounds of its motor to the arc of its positions, not frozen, and nothing else; an old one changes nothing. |
| Freeze.SignedPosition | software/drivers/st3215/src/protocol/units.rs:6-13 | Bit 15 of a reported position is its sign: the magnitude is taken forwards or backwards on the circle. |
| Freeze.TrackedPosition | software/drivers/st3215/src/port_meta.rs:408-410 | The tracked position is the sum of position and offset on the circle, and is not for an offset far below. |
| PortMeta.Watch.OnDriveState | software/drivers/st3215/src/port_meta.rs:348-430 | A new position while not frozen joins the motor set and moves its bounds to the arc of the set. |
| PortMeta.StepKeeps | software/drivers/st3215/src/port_meta.rs:130-431 | Every event keeps: no positions while frozen; the bounds of a tracked motor, where present, are the arc of its positions. |
| PortMeta.TrackedPositions | software/drivers/st3215/src/port_meta.rs:160-430 | Over any run the tracked positions are exactly those reported while not frozen since the last reset or freeze. |
| PortMeta.WithoutBounds | software/drivers/st3215/src/port_meta.rs:265-273 | Over any run a tracked motor has no bounds exactly when an automatic calibration dropped them and the motor has reported no new position since. |
| PortMeta.PanicsExactly | software/drivers/st3215/src/port_meta.rs:271-271 | A freeze without arcs panics exactly in such a run. |
| PortMeta.NeverPanics | software/drivers/st3215/src/port_meta.rs:271-271 | Without automatic calibrations the worker never panics. |
| PortMeta.RepeatedPositionPanics | software/drivers/st3215/src/port_meta.rs:271-271 | A concrete run that panics: a position, an automatic calibration, the same position, a freeze. |
| Attention.SuffixRow | software/ai/smolvla_py/smolvla/flow_matching.py:273-279 | For all prefix masks and a suffix of ones, each row built by the denoising step is that row of the one-shot mask. |
| Attention.SuffixPosition | software/ai/smolvla_py/smolvla/flow_matching.py:281-282 | Its positions are those of the one-shot forward. |
| Attention.PrefixRow | software/ai/smolvla_py/smolvla/flow_matching.py:212-243 | Each prefix row of the one-shot mask is the row of the prefix-only mask with no suffix column visible, at the same position. |
| Attention.PrefixBlind | software/ai/smolvla_py/smolvla/utils.py:52-55 | For any prefix, padded or not, and any suffix mask, the prefix sees nothing of a valid suffix exactly when the suffix starts a new block or no valid prefix row lies in the last block. |
| Attention.EmbeddedPrefixBlind | software/ai/smolvla_py/smolvla/flow_matching.py:90-164 | For the prefix that is built, whatever its padding: with a state the prefix is blind exactly when the suffix starts a new block, and without one also when no image or word is valid. |
| Attention.EmbedPrefix | software/ai/smolvla_py/smolvla/flow_matching.py:90-164 | The pad and autoregressive masks built image by image, then language, state and padding. |
| Attention.PadTensor | software/ai/smolvla_py/smolvla/utils.py:88-95 | Padding by slice assignment appends zeros. |
| Attention.PrefixSees | software/ai/smolvla_py/smolvla/utils.py:52-55 | Under those masks images and language see each other and no state, a state row sees them and the state up to itself, and padding sees and shows nothing. |
| Attention.PrefixColumns | software/ai/smolvla_py/smolvla/flow_matching.py:90-164 | The built prefix column by column: each image with its special tokens behind the ones before it, the words, the state, which alone starts blocks, and padding up to the prefix length. |
| CachedInference.PrefixLayer | software/ai/smolvla_py/smolvla/smolvlm_with_expert.py:197-385 | After a layer of the one-shot forward and of the cache pass the valid prefix rows agree. |
| CachedInference.SuffixLayer | software/ai/smolvla_py/smolvla/smolvlm_with_expert.py:197-385 | After a layer of the one-shot forward and of a denoising step on the cache all suffix rows agree, for self and cross attention. |
| CachedInference.CacheIsSound | software/ai/smolvla_py/smolvla/smolvlm_with_expert.py:403-498 | For any stack of layers and any masks with a valid prefix row, the cached denoising step computes the suffix rows of the one-shot forward; it fails exactly when a self-attention layer has no expert block. |
| CachedInference.StateIsValid | software/ai/smolvla_py/smolvla/flow_matching.py:140-150 | The masks of embed_prefix have a valid row as soon as there is a state row. |
| CachedInference.CountedFromZero | software/ai/smolvla_py/smolvla/smolvlm_with_expert.py:365-367 | In a cross layer positions are counted from the smallest, at their distances. |
| CachedInference.ExpertPositions | software/ai/smolvla_py/smolvla/smolvlm_with_expert.py:365-367 | So the rows of a denoised suffix stand at 0, 1, 2 and so on, whatever the prefix. |
| CachedInference.DenoiseStep | software/ai/smolvla_py/smolvla/flow_matching.py:269-292 | The velocity of a denoising step is that of the one-shot forward. |
| CachedInference.SampleActions | software/ai/smolvla_py/smolvla/flow_matching.py:229-267 | The sampled chunk is the one obtained by integrating the velocity of the one-shot forward. |
| Sampling.Schedule | software/ai/smolvla_py/smolvla/flow_matching.py:255-267 | Step k of n is at time (n - k) / n: the first at 1, and the end of the last at 0. |
| Sampling.Trajectory | software/ai/smolvla_py/smolvla/flow_matching.py:255-267 | The sampler gives the end of any sequence of chunks that follow each other by Euler steps of -1/n from the noise on. |
| Sampling.ConstantVelocity | software/ai/smolvla_py/smolvla/flow_matching.py:255-267 | A velocity that is always the same is subtracted once, for every number of steps. |
| Sampling.ReachesActions | software/ai/smolvla_py/smolvla/flow_matching.py:204-205 | With the velocity that training asks for the sampler reaches the actions from any noise with any number of steps. |
| Teleop.Percent | software/station/examples/st3215-remote-teleop-py/mirror.py:64-97 | The percentage lies in 0 to 100 for every position and arc. |
| Teleop.OffsetIs | software/station/examples/st3215-remote-teleop-py/mirror.py:142-148 | On a proper arc the offset is the exact proportion of the usable range, rounded down. |
| Teleop.GoalInside | software/station/examples/st3215-remote-teleop-py/mirror.py:136-148 | Every goal lies at least the margin inside both ends of the follower arc. |
| Teleop.ShortestIs | software/station/examples/st3215-remote-teleop-py/mirror.py:100-104 | The distance is the shorter way round and at most half a turn. |
| Teleop.ProportionalBounds | software/station/examples/st3215-remote-teleop-py/mirror.py:107-114 | Speed and acceleration lie between their configured limits. |
| Mirroring.GoalExactly | software/station/examples/st3215-remote-teleop-py/mirror.py:55-148 | Where the goal lies for all arcs on the circle: nowhere when the margins do not fit, at the same share of both arcs, rounded down, for a leader on its arc, at the end that the source clamps to for a leader off it, and half way for a leader without an arc. |
| Mirroring.NearestExactly | software/station/examples/st3215-remote-teleop-py/mirror.py:69-94 | Off its arc the leader stands for the nearest end exactly when the arc wraps or the shorter way to an end does not cross the encoder's zero. |
| Mirroring.FarEnd | software/station/examples/st3215-remote-teleop-py/mirror.py:77-83 | A concrete leader 16 steps short of its arc that sends the follower to the far end. |
| Mirroring.ProportionalIs | software/station/examples/st3215-remote-teleop-py/mirror.py:107-114 | Speed and acceleration are the low limit plus the exact share of the span, cut towards the low limit. |
| Protection.ProtectionState.Compute | software/station/examples/st3215-remote-teleop-py/mirror.py:117-212 | The command and the new protection state, in terms of what the tick means: live, overloaded, releasing, refused, moving. |
| Protection.CommandIsSafe | software/station/examples/st3215-remote-teleop-py/mirror.py:136-212 | A command is a hold under overload, or a move to a goal inside the margins with speed and acceleration, where given, within limits and changed. |
| Mirroring.Unheard | software/station/examples/st3215-remote-teleop-py/mirror.py:129-140 | Without reports, with a fault other than under-voltage, or without room for the margins nothing is sent and nothing changes. |
| Mirroring.UnderOverload | software/station/examples/st3215-remote-teleop-py/mirror.py:158-178 | Under overload the only command is to stay, given exactly when the target is away from the position, and a block begins in the direction of the last movement. |
| Mirroring.Unhindered | software/station/examples/st3215-remote-teleop-py/mirror.py:180-212 | Otherwise a command is given exactly when the goal turns back from the block, if any, and is away from the position, either way round, and from the target; what is remembered then. |
| Mirroring.MoveIs | software/station/examples/st3215-remote-teleop-py/mirror.py:196-212 | A moving command goes to the goal, with the speed and the acceleration that belong to the shorter way, each left out when in force already. |
| Protection.BlockedTick | software/station/examples/st3215-remote-teleop-py/mirror.py:158-192 | While a direction is blocked, commands hold; the block ends exactly at a normal tick that asks for the other direction, whose command moves that way. |
| Protection.HoldsUntilReleased | software/station/examples/st3215-remote-teleop-py/mirror.py:158-192 | Over any run without a release the block stays and every command holds. |
| Protection.BlockedExactly | software/station/examples/st3215-remote-teleop-py/mirror.py:158-192 | From a fresh state a direction is blocked exactly when some tick blocked it and none since has released it. |
| Protection.Remembered | software/station/examples/st3215-remote-teleop-py/mirror.py:162-211 | The remembered position is that of the last tick that moved or was refused, and 0 before any. |
| Protection.FirstOverload | software/station/examples/st3215-remote-teleop-py/mirror.py:160-170 | The first overload of a fresh motor that was never moved blocks the positive direction. |
| Protection.NoProtection | software/station/examples/st3215-remote-teleop-py/mirror.py:158-159 | A threshold of 0 or below never blocks. |
| Protection.MotorsApart | software/station/examples/st3215-remote-teleop-py/mirror.py:215-223 | Over any interleaving the state of a motor is that of its own ticks. |
| Protection.ProtectionTable.Compute | software/station/examples/st3215-remote-teleop-py/mirror.py:215-223 | A tick changes the state of its motor only, which starts fresh. |
| BusState.BusCommunicator.AddBus | software/drivers/st3215/src/state.rs:185-206 | A bus is listed once per port; a repeated connect changes nothing. |
| BusState.BusCommunicator.RemoveBus | software/drivers/st3215/src/state.rs:208-214 | The port is unlisted. |
| BusState.BusCommunicator.UpdateMotorState | software/drivers/st3215/src/state.rs:216-282 | A report stamps the bus and, unless the motor id is 0, replaces or adds the reading of the motor, keeping its last command. |
| BusState.BusCommunicator.RemoveMotorState | software/drivers/st3215/src/state.rs:284-294 | The motor is unlisted. |
| BusState.BusCommunicator.UpdateCommandResult | software/drivers/st3215/src/state.rs:380-476 | A command marks the motors it addresses: those of a broadcast sync write, or one. |
| BusState.BusCommunicator.UpdateState | software/drivers/st3215/src/state.rs:296-351 | The nested lists refine a finite map under every envelope, keep distinct ports and distinct nonzero ids, and every envelope that counts publishes a snapshot. |
| BusState.BusCommunicator.UpdateBounds | software/drivers/st3215/src/state.rs:358-371 | One motor of one bus gets its range; all others keep theirs. |
| BusState.BusCommunicator.ResetBounds | software/drivers/st3215/src/state.rs:353-356 | All ranges of a bus are dropped. |
| BusHistory.ConnectedExactly | software/drivers/st3215/src/state.rs:185-214 | Over any run a port is listed exactly when it connected and has not disconnected since. |
| BusHistory.ListedExactly | software/drivers/st3215/src/state.rs:185-351 | Over any run a motor is listed exactly when it reported on a bus connected ever since and has not been dropped after that report. |
| BusHistory.LatestReport | software/drivers/st3215/src/state.rs:216-282 | What is listed of a motor is its latest report. |
| Published.MotorShown | software/drivers/st3215/src/state.rs:244-280 | The pointer, stamp, data, error and range listed of a motor are those of its latest report. |
| Published.CommandShown | software/drivers/st3215/src/state.rs:380-476 | Over any run a motor shows the last command it was told about since it was listed, with what became of it. |
| Published.NoCommandShown | software/drivers/st3215/src/state.rs:264-279 | It shows none when it was told about none since then. |
| Published.BusShown | software/drivers/st3215/src/state.rs:185-206 | A listed bus shows the name and serial number of the connect that listed it. |
| Published.StampShown | software/drivers/st3215/src/state.rs:230-242 | And the stamp of the latest state or error, even one without a motor id, or of that connect. |
| BusHistory.CommandsOnlyMark | software/drivers/st3215/src/state.rs:380-476 | A command lists nothing and changes only last commands. |
| BusHistory.RepeatedConnect | software/drivers/st3215/src/state.rs:185-195 | A concrete run in which a motor is listed though it has not reported after the latest connect. |
| BusHistory.LatestConnectExactly | software/drivers/st3215/src/state.rs:185-206 | A motor is listed exactly when it reported after the latest connect and was not dropped since, if and only if no connect found it listed and was followed by no report, drop or disconnect. |
| Grace.AsWrittenStep | software/drivers/st3215/src/port.rs:367-392 | As written, a scan that starts with an empty tracker evicts no one and ends with it empty. |
| Grace.NeverForgets | software/drivers/st3215/src/port.rs:367-447 | Over any run of scans the seen motors are those at the start and all found since; none is ever given up. |
| Grace.EvictedExactly | software/drivers/st3215/src/port.rs:367-387 | For the variant that clears only motors that answered, a motor is evicted exactly when it misses a scan at least 100 ms after the first scan of its streak of misses. |
| Grace.MissingExactly | software/drivers/st3215/src/port.rs:377-387 | In that variant the tracker holds the time of the first miss of the present streak. |
| Grace.GivenUp | software/drivers/st3215/src/port.rs:378-383 | In that variant a motor that keeps missing is seen after a scan exactly within the window. |
| EepromCache.ExecutedIsInvalidated | software/drivers/st3215/src/port.rs:188-192 | Whatever else an envelope carries, an executed register write or reset invalidates its motor and a calibration command all motors. |
| EepromCache.BlocksKept | software/drivers/st3215/src/port.rs:281-324 | Over any run with any answers every cached block is exactly the EEPROM size. |
| EepromCache.CachedExactly | software/drivers/st3215/src/port.rs:281-324 | Over any run with any answers a motor is cached exactly when it was read since its last invalidation, and the block is that of the first such read. |
| EepromCache.PublishedImage | software/drivers/st3215/src/port.rs:299-324 | Over any run, every image published from an answer with registers behind the EEPROM ones has register a at byte a; its RAM part is current and its EEPROM part that of the first read since the last invalidation. |
| EepromCache.PublishedData | software/drivers/st3215/src/port.rs:299-324 | What every other answer without an error publishes: its bytes, behind the cached EEPROM registers if there are any. |
| EepromCache.PublishedFault | software/drivers/st3215/src/port.rs:326-364 | What the answer of a faulty servo publishes: all registers as they are, RAM registers behind the cached EEPROM ones, and an empty image without a cache or for fewer bytes. |
| EepromCache.FreshAfter | software/drivers/st3215/src/port.rs:188-192 | After an invalidating command the next such image is entirely current. |
| EepromCache.StaleAfterAction | software/drivers/st3215/src/port.rs:188-192 | A concrete run in which a scan between a register write and its action leaves the old EEPROM in later images. |
| EepromCache.StaleAfterWrite | software/drivers/st3215/src/port.rs:188-192 | A concrete run in which a plain write of EEPROM registers leaves the old ones in the next image. |
| EepromCache.ImageOf | software/drivers/st3215/src/port.rs:281-324 | For any behaviour of the servo, the image shows the registers as they were at the read that filled the cache, or all current ones when there is none. |
| EepromCache.CurrentExactly | software/drivers/st3215/src/port.rs:657-910 | The next image is current for every behaviour of the servo exactly when no executed command since the read that filled its cache may change the EEPROM registers of its id, by a write to one or several servos, an action, a reset, a calibration, or an id given to some servo. |
| EepromCache.RunConcat | software/drivers/st3215/src/port.rs:133-267 | Runs compose, so scans and commands of a worker chain. |
| Servos.ExecutedExactly | software/drivers/st3215/src/port.rs:663-905 | Of any envelope the first of write, register write, action, sync write, reset and calibrations that is there is executed, both ways. |
| Servos.NamedMotor | software/drivers/st3215/src/port.rs:1372-1388 | The motor of an envelope, both ways; a sync write alone goes to all. |
| Servos.ForgottenExactly | software/drivers/st3215/src/port.rs:173-192 | Exactly which motors a command leaves in the cache, and their blocks unchanged. |
| Servos.OthersKeep | software/drivers/st3215/src/port.rs:663-905 | After any operation that is not counted as one that may change a motor's EEPROM registers, a servo that answers under that id did so before, with the same registers. |
| Servos.SomeChanges | software/drivers/st3215/src/port.rs:663-905 | And each that is counted can change them, but for a write of the id that the servo has. |
| BusWorker.Worker.ReadMotor | software/drivers/st3215/src/port.rs:288-365 | What one read caches, publishes and reports, for full, short, faulty and missing answers. |
| BusWorker.Worker.ReadMotors | software/drivers/st3215/src/port.rs:288-365 | The reading loop does this for the motors in turn, up to the first waiting command or image that cannot be sent; which motors answered, and exactly which motors it reports. |
| BusWorker.Worker.CheckGrace | software/drivers/st3215/src/port.rs:367-392 | The grace check and the clearing of the tracker, in any order of the missing motors. |
| BusWorker.Worker.Search | software/drivers/st3215/src/port.rs:449-492 | The search finds exactly the unseen ids that answer, up to the first check at which a command waits, fails exactly when it comes to an I/O error, and reports exactly the ids it comes to that answer with another error. |
| BusWorker.Worker.ScanMotors | software/drivers/st3215/src/port.rs:271-447 | However a scan ends, the tracker is empty, no seen motor is dropped, no disconnect is sent, and exactly the motors of ScanTells are reported; a whole scan is a step of the run that Grace.NeverForgets speaks of and, undisturbed, finds every unseen id that answers. |
| BusWorker.Worker.OnCommand | software/drivers/st3215/src/port.rs:153-242 | When a command ends the worker, the cache after it, and all it sends: its receipt, an error, its result, and the disconnect of the old id after an id change, which stays among the seen motors. |
| WorkerTells.CommandSends | software/drivers/st3215/src/port.rs:169-242 | The signals of a command, for any outcome: the two around it, the error with the servo's data, and the disconnect of a changed id, without those that cannot be sent and up to the first of the two that cannot. |
| WorkerTells.ReadSends | software/drivers/st3215/src/port.rs:301-364 | The signals of a read: its error with the servo's data, and behind it the image. |
| WorkerTells.AskedAll | software/drivers/st3215/src/port.rs:449-492 | A search in which no command waits asks all unseen ids from 1 to 8. |
| WorkerTells.AskedUpTo | software/drivers/st3215/src/port.rs:449-492 | A search asks the unseen ids from 1 to 8 ahead of the first check at which a command waits. |
| BusLoop.Loop | software/drivers/st3215/src/port.rs:133-267 | Over any rounds of scans and commands the seen motors only grow, and every disconnect sent is that of an id change. |
| BusLoop.PublishedExactly | software/drivers/st3215/src/state.rs:185-351 | What is listed after a worker's signals, with those of other buses in between: the motors listed before and not disconnected, and those reported and not disconnected after that. |
| BusLoop.StaysListed | software/drivers/st3215/src/port.rs:367-392 | From worker to published state: while no command changes its id, a motor is listed after any rounds exactly when it was before or has been reported since, silence included. |
| BusLoop.OldIdReturns | software/drivers/st3215/src/port.rs:234-241 | An id change and the next tick, from any state, with any failing sends and waiting commands: the old id is disconnected exactly when that can be sent, and then any connected bus lists it afterwards exactly when the tick reports it. |
| BusLoop.UndisturbedTells | software/drivers/st3215/src/port.rs:281-365 | With nothing in the way a tick reports an uncached id exactly when it was seen and answers anything but an empty read, or was searched for and answered with an error. |
| Episodes.RunsAre | software/station/bin/dataset-mp4/dataset-mp4.go:321-340 | The rows are cut into maximal runs of equal start stamps. |
| Episodes.RunsUnique | software/station/bin/dataset-mp4/dataset-mp4.go:321-340 | There is one such cut. |
| Episodes.TakeRow | software/station/bin/dataset-mp4/dataset-mp4.go:321-361 | One round of the loop: change of episode, invalid frames, append. |
| Episodes.CollectEpisodes | software/station/bin/dataset-mp4/dataset-mp4.go:306-379 | For any split into batches the episodes are exactly the maximal runs of rows whose frames all have two images, each once with its frames and stamp, in order and numbered from 1. |
| Episodes.EpisodesAre | software/station/bin/dataset-mp4/dataset-mp4.go:306-379 | The same, row by row, of any cut into maximal runs. |
| Grid.MakeJob | software/station/bin/dataset-mp4/dataset-mp4.go:247-269 | One job shows the frame of each episode of the grid, and blanks. |
| Grid.RenderJobs | software/station/bin/dataset-mp4/dataset-mp4.go:176-272 | The jobs of all grids in order; a grid without slots is a division by zero. |
| Grid.FrameIsShown | software/station/bin/dataset-mp4/dataset-mp4.go:228-272 | Each frame of each episode is shown in the job and slot that belong to it. |
| Grid.SlotShows | software/station/bin/dataset-mp4/dataset-mp4.go:228-272 | And in no other: job numbers are consecutive, and a slot that is not blank shows the one frame that belongs there. |
| Chunks.EpisodeEnds | software/ai/smolvla_py/smolvla/dataset.py:120-127 | Every row gets the end of its run of equal start stamps. |
| Chunks.RunEnd | software/ai/smolvla_py/smolvla/dataset.py:120-127 | That end is past the row, all rows up to it share its stamp, and the next does not. |
| Chunks.BuildIndex | software/ai/smolvla_py/smolvla/dataset.py:106-149 | The flat tables hold, for each row of each file, its action, file, local row, episode end and global episode. |
| Chunks.SameEpisode | software/ai/smolvla_py/smolvla/dataset.py:114-118 | Two rows share a global episode index exactly when they share file and start stamp. |
| Chunks.EpisodeOrder | software/ai/smolvla_py/smolvla/dataset.py:114-118 | Episodes are numbered by file and then by ascending start stamp. |
| Chunks.EpisodeNumbers | software/ai/smolvla_py/smolvla/dataset.py:114-118 | The numbers run from 0 without gaps. |
| Chunks.Dataset.Open | software/ai/smolvla_py/smolvla/dataset.py:80-180 | Opening fails exactly without rows; the visible rows are those of the chosen episodes, in order. |
| Chunks.FillChunk | software/ai/smolvla_py/smolvla/dataset.py:196-207 | Entry t of a chunk is the action t rows on, clipped to the last row of the same run in the same file, and the pad flags mark exactly the clipped entries. |
| Chunks.Dataset.GetItem | software/ai/smolvla_py/smolvla/dataset.py:189-226 | A sample is the chunk of its row with the images that the lookup finds, or an error when it finds none. |
| Chunks.ImagesOf | software/ai/smolvla_py/smolvla/dataset.py:210-210 | The image lookup by file number finds a later file whenever an empty file comes first. |
| Chunks.OwnImages | software/ai/smolvla_py/smolvla/dataset.py:210-210 | Without an empty file up to it, a row has its own images. |
| ImportRoot.InsertFiles | shared/gremlin_go/gremlinc/internal/imports.go:123-147 | Inserting a file adds it to its own directory of the trie and to no other. |
| ImportRoot.InsertWellFormed | shared/gremlin_go/gremlinc/internal/imports.go:123-147 | Children stay distinct, one part below their parent, and each leads to some file. |
| ImportRoot.BuildTrie | shared/gremlin_go/gremlinc/internal/imports.go:118-148 | The trie lists under each directory exactly its files. |
| ImportRoot.Descend | shared/gremlin_go/gremlinc/internal/imports.go:150-152 | The walk stops at a common directory that branches or holds a file. |
| ImportRoot.StopsAtLongest | shared/gremlin_go/gremlinc/internal/imports.go:150-152 | That directory is the longest common one. |
| ImportRoot.AssignBase | shared/gremlin_go/gremlinc/internal/imports.go:202-211 | Every file in a directory or below gets the base folder, each written once, and no other file changes. |
| ImportRoot.ResolveBaseFolders | shared/gremlin_go/gremlinc/internal/imports.go:118-200 | The two fatal branches fire exactly without files, and when the longest common directory holds a file while another lies below; otherwise each base folder is that directory or its child on the path of the file. |
| Scopes.SplitDotless | shared/gremlin_go/gremlinc/internal/types/scopes.go:15-30 | Splitting at dots and joining gives the name back. |
| Scopes.SplitJoin | shared/gremlin_go/gremlinc/internal/types/scopes.go:15-30 | Joining parts without dots and splitting gives the parts back. |
| Scopes.ParseIs | shared/gremlin_go/gremlinc/internal/types/scopes.go:15-30 | A parsed name is the name of its parts. |
| Scopes.ChildIs | shared/gremlin_go/gremlinc/internal/types/scopes.go:32-45 | A child name appends one part, whatever dots the parts hold. |
| Scopes.ToScopeIs | shared/gremlin_go/gremlinc/internal/types/scopes.go:58-76 | A name moved into any scope is the scope followed by the name. |
| Scopes.ToParentIs | shared/gremlin_go/gremlinc/internal/types/scopes.go:78-91 | The parent of any name drops the last part, and the walk ends exactly where the full name is empty. |
| Scopes.RootIs | shared/gremlin_go/gremlinc/internal/types/scopes.go:151-153 | The scopes that count as the root are the empty path and the part in front of a leading dot. |
| Scopes.InsideName | shared/gremlin_go/gremlinc/internal/types/scopes.go:58-76 | The full name of what is written inside a scope stands behind the scope's, unless that is the root. |
| Scopes.ScopesAgree | shared/gremlin_go/gremlinc/internal/resolving.go:158-178 | The scopes visited from a name are those that the dots of its full name enclose exactly when no part holds a dot, a leading one aside. |
| ScopeSearch.FindDef | shared/gremlin_go/gremlinc/internal/resolving.go:162-173 | The first definition of that last part and full name, extensions passed over where the source does. |
| ScopeSearch.SearchScopes | shared/gremlin_go/gremlinc/internal/resolving.go:158-178 | From any scope, the search visits the enclosing scopes from the deepest to the root, once each, and returns what the innermost one that holds the name holds, or none when no scope holds it. |
| ScopeSearch.FoundInnermost | shared/gremlin_go/gremlinc/internal/resolving.go:158-178 | Over any definitions, something is found exactly when an enclosing scope holds the name, and it is what the innermost such scope holds. |
| Resolving.Field.ResolveLocal | shared/gremlin_go/gremlinc/internal/resolving.go:153-182 | A field gets the first of its names that some enclosing scope holds, in the innermost such scope, an enum before a message. |
| Resolving.SearchImports | shared/gremlin_go/gremlinc/internal/resolving.go:191-222 | The first import that holds a name, in the innermost scope of its package. |
| Resolving.Field.ResolveImported | shared/gremlin_go/gremlinc/internal/resolving.go:184-225 | The names are tried in order over all imports. |
| FirstNames.FirstLocal | shared/gremlin_go/gremlinc/internal/resolving.go:153-182 | A local reference is what the innermost scope that holds the first name held at all has under it, and nothing exactly when no name is in any enclosing scope. |
| FirstNames.ImportsInOrder | shared/gremlin_go/gremlinc/internal/resolving.go:191-222 | Of one name: the first import whose package scopes hold it, innermost, and nothing exactly when none does. |
| FirstNames.FirstInImports | shared/gremlin_go/gremlinc/internal/resolving.go:184-225 | An imported reference: the first name that any import holds, in the first import that holds it. |
| Resolving.ResolveExtendSource | shared/gremlin_go/gremlinc/internal/resolving.go:103-121 | The source of an extension is the innermost message of that name that is not an extension. |
| Resolving.FoundName | shared/gremlin_go/gremlinc/internal/resolving.go:158-178 | The last part and full path of what is looked for in any enclosing scope: the scope's full name, if it is not the root, followed by the written name. |
| Resolving.CopiedField | shared/gremlin_go/gremlinc/internal/resolving.go:20-37 | A field copied into an extension gets the definition its type has in the source exactly when both find it in scopes of the same full name, or the extension's scopes do not hold it and the name of the source itself means the same there. |
| Resolving.CopiedFieldElsewhere | shared/gremlin_go/gremlinc/internal/resolving.go:20-37 | When type and source end in different parts, a type that no scope of the extension holds is resolved wrongly unless nothing is found at all. |
| Resolving.CopiedFieldRun | shared/gremlin_go/gremlinc/internal/resolving.go:153-182 | A run that resolves a copied field to the extended message, where its type means a message inside that one. |
| Resolving.SameFound | shared/gremlin_go/gremlinc/internal/resolving.go:162-173 | Two names find the same definition exactly when they are equal as names. |
| Declarations.BuiltIs | shared/gremlin_go/gremlinc/internal/parser.go:90-107 | The name built for any definition or extension, with any package record, is the name of a path, so the search laws hold of every file. |
| Declarations.DeclTaken | shared/gremlin_go/gremlinc/internal/parser.go:90-107 | A declaration is found under a name with a leading dot exactly when it extends that very name outside of any message and package, from the root. |
| Declarations.LeadingDot | shared/gremlin_go/gremlinc/internal/resolving.go:153-182 | In any file and from any scope, a name with a leading dot is found exactly when an extension of it stands outside of any message and ahead of any package clause and Go package option, and extensions are not passed over. |
| Declarations.PackageBehind | shared/gremlin_go/gremlinc/internal/parser.go:53-74 | A concrete file with a package clause behind its definitions, in which such a name is found. |
| Declarations.ExtractProtoStruct | shared/gremlin_go/gremlinc/internal/parser.go:29-88 | The walk gives each definition the package record in force where it stands. |
| Declarations.MeantExactly | shared/gremlin_go/gremlinc/internal/parser.go:90-107 | A definition is what some written name means, from some scope, exactly when the last part of its name has no dot. |

## Left out

- GoReader.Reader.SkipData: bounded by a number of rounds, because the source need not terminate; running out of them is an outcome of its own, and `Wire.GoSkipsAsPython` says when it cannot happen.
- LazyMessage.ImportMessageReader.Unmarshal: bounded in the same way, with `LazyMessage.UnmarshalFinishes` and `GoWalk.ForwardEnds`.
- LazyMessage.UnmarshalFinishes: for lengths that fit; `GoWalk.ForwardEnds` covers every length that takes the loop forward.
- GoRoundTrip.WalkBack: for field numbers that are not negative; `GoRoundTrip.ReadTag` covers the others.
- GoWriter.Writer.Append: float32 and float64 are their 32 and 64-bit patterns; strings are bytes.
- PyWriter.Writer.Append: a struct.pack error is an input of the model, and floats are packed bytes.
- Generated.MessageWritten: enum values are 32-bit integers; a repeated scalar field of one value, for which the generated call passes a field number where tag bytes are due, is not modelled.
- MapEntry.EntryExactly: keys and values of number types and messages; strings and bytes, for which generated code calls a size function that sizes.py does not have, are not modelled.
- PyReader.Reader.SkipData: Python's recursion limit is not modelled.
- Attention.SuffixRow: one element of the batch, boolean masks and unbounded counts.
- CachedInference.CacheIsSound: layers are abstract functions; masked keys are taken to weigh exactly nothing in the softmax beside a visible one, use_cache is on, and the chunk has the configured length.
- Calibrate.CalculateArc: a set of readings is given as the ascending sequence that its iteration yields.
- PortMeta.Watch.OnFreeze: positions and arcs are below 4096; larger numbers in a command, whose subtraction overflows, are not modelled.
- PortMeta.Watch.OnDriveState: takes the decoded encoder position; the checks of mode, status bits and length that drop a report are not modelled.
- Mirroring.GoalExactly: for positions and bounds below the number of steps, as the decoded registers always are.
- Protection.CommandIsSafe: for a present position below the number of steps, as the decoded register always is, and limits in order.
- Protection.ProtectionState.Compute: percentages are exact reals instead of floats.
- BusWorker.Worker.ReadMotors: replies, pings, waiting commands and failing sends are arbitrary inputs; serial timing, retries and the contents of requests are not modelled.
- BusLoop.Loop: a finite run of rounds; the timing that decides when a search is due is an input.
- EepromCache.CurrentExactly: an action may carry out a register write from before the run, so any action counts; the registers a calibration writes and servos exchanged by hand are not modelled.
- PyTyped.VarintReadsAgree: floats are their bit patterns, and the copying and viewing reads of bytes are one.
- BusState.BusCommunicator.UpdateState: the queue pointer of the last inference and the automatic-calibration progress field of a bus are not modelled.
- Grid.RenderJobs: columns and rows are not negative.
- ImportRoot.BuildTrie: the trie is a value, not a structure of shared pointers, and paths are absolute and cleaned, so that a directory is its parts.
- Chunks.Dataset.GetItem: an index inside the visible rows; Python's negative indices and the decoding of images are not modelled.
- Go nil receivers, which read as defaults.
- Enums, `ToStruct` and `Copy` of generated messages.
- The rest of the Python code generator, the Go templates, and one-level public imports.
- `flow_matching.py` loss, noise and time sampling, image resizing and tokenisation.
- Serial ports, tasks, queues, timeouts and logging of the drivers; concurrency between them.
- Automatic calibration strategies, inference mirroring in Rust, station clients, usbvideo and sysinfo.
- The rendering of frames and the ffmpeg call of the dataset tool.
