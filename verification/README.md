# rosgo: verified model of codecs, streams and registry

rosgo is a ROS 1 client library in Go. This project models the parts of it where mistakes are silent:
the message codec that interprets `.msg` schemas, the code generator that compiles the same schemas, the
TCPROS stream between a publisher and a subscriber, the XML-RPC dialect of the ROS API, the memoising
message registry with its digests, and the name and time arithmetic underneath.

`dafny verify dfyconfig.toml` verifies everything. The modules, lowest first:

| file | contents |
|---|---|
| `Basics.dfy` | options and white space |
| `Wire.dfy` | words, byte buffers and readers |
| `LittleEndian.dfy` | the same words byte by byte |
| `Schema.dfy` | message specifications, type resolution, well-formed contexts |
| `Codec.dfy` | `Serialize`, `Deserialize`, `zeroValueData` of `DynamicMessage` as functions |
| `CodecTheorems.dfy` | round trip, prefix freedom, soundness of decoding |
| `ArrayPanics.dfy` | for which schemas making or decoding a message can panic |
| `ZeroLength.dfy` | fresh messages against the shortest encoding of their schema |
| `Decoders.dfy` | what a decoder that reports every error guarantees about the bytes it consumed |
| `Leniency.dfy` | for which schemas the interpreter accepts more than the generated code |
| `Generated.dfy` | the message template as a compiler, and its agreement with the interpreter |
| `GeneratedCode.dfy` | the template's loops and the generated methods as they execute, on a struct in place |
| `GeneratedZero.dfy` | fresh messages of generated types against fresh dynamic messages |
| `DynamicMessage.dfy` | the interpreter's loops over a buffer, a reader and the data map |
| `WireFormat.dfy` | the bytes of every builtin type by name, of arrays, fields and messages, against the codecs |
| `ConnectionHeader.dfy` | the TCPROS connection header, both directions |
| `Subsequence.dfy`, `Session.dfy`, `Publisher.dfy` | the drop-oldest session queue and the fan-out loop |
| `Transport.dfy`, `Timeouts.dfy` | publisher, session, stream and frame reader together, and exactly what ordered delivery needs |
| `Delivery.dfy` | handshake; typed messages end to end |
| `Redials.dfy` | the same over any number of connections, one after the other |
| `Lossless.dfy` | which frames are taken, and runs on which everything arrives |
| `Subscriber.dfy` | the publisher list and the table of connection workers |
| `XmlRpc.dfy`, `XmlRpcLoops.dfy` | emitter and parser over XML tokens, as functions and as the loops that compute them |
| `XmlRpcForeign.dfy` | documents as any implementation writes them, against the parser and the emitter |
| `XmlRpcCalls.dfy` | calls, replies and faults from one side's values to the other's |
| `FieldText.dfy`, `ConstantText.dfy`, `MsgText.dfy` | field lines, constant lines and `.msg` texts: parsing, printing, array shapes |
| `Registry.dfy`, `LoadedContext.dfy` | loading with a cache, digests, and the context a set of loads leaves behind |
| `DigestFaithful.dfy` | what a digest text says about the definition it was made from, and when it says nothing |
| `DigestMerkle.dfy` | when two definitions have the same digest |
| `Names.dfy` | canonical names, resolution, remapping |
| `Topics.dfy` | a node's tables of publishers and subscribers |
| `Temporal.dfy` | seconds and nanoseconds |

How it is built. Every step-by-step algorithm appears twice: as a function (the specification) and as a method
or class with the same loops and fields as the Go code, whose contract equates its effect with the function.
The theorems are about the functions, so they hold of the methods. So that a function and its loop cannot be wrong
together, each operation is also compared with an account of it in explicit bytes, tokens, words and numbers:
`WireFormat.SerMessageBytes`, `ConnectionHeader.EncodeBytes`, `XmlRpcForeign.DocParses` and `XmlRpcForeign.EmitIsPut`,
`Lossless.FrameDeliveredIff`, `Registry.UnfoldRecords`, `Names.RelativeResolves`, `FieldText.SpacedLine` and their
neighbours. Goroutines are state machines: each module
has a `Step` per turn of a `select` loop, an arbitrary `Run` of events, and invariants over all runs; the
classes `RemoteSubscriberSession`, `DefaultPublisher`, `DefaultSubscriber`, `DefaultNode` and `RemotePublisherConn` take those
steps in place. What the outside world does (which channel is ready, how far a write got, what a node answers,
the order in which Go iterates a map) is a parameter or an event.

A context is `WellFormed` when registry entries sit under their own full names, references resolve and do not
cycle, field names are distinct within a message, array lengths have the shape the parser produces, no message is
registered as a bare `Header`, and no array is of messages named `ros/Time` or `ros/Duration` (see below).
`LoadedContext.LoadedContextIsLinked` shows that loading from a
complete definition set always produces such a context.

Where the code does not do what its comments, its counterpart or the protocol suggest, the model follows the code:

- The interpreter calls itself a copy of the template (ros/dynamic_message.go:651), but drops read errors inside
  arrays of primitives. `Leniency.DecodersAgreeIff` and `Generated.GeneratedAgreesIff` decide from the schema alone
  when that shows; `Leniency.LenientExample` is an input that shows it.
- The interpreter chooses the slice of an array by Go type name, and the message types `ros/Time` and `ros/Duration`
  have the Go type names of the builtin time and duration. Appending a message to such an array panics.
  `ArrayPanics.PanicsIff` says for which schemas this can happen, with an input for each of them;
  `ArrayPanics.MaskedExample` is the smallest.
- A deadline that strikes inside the 4-byte size of a frame loses the bytes already read, and a message of 2^32 bytes
  announces itself as empty. `Timeouts.SizeTimeoutsIff` and `Timeouts.MessageLengthsIff` say that ordered delivery
  holds over all runs exactly without them; the runs that deliver a message nobody sent are
  `Timeouts.CutSizeCorrupts` and `Timeouts.LongMessageCorrupts`. Dialling again does not help
  (`Redials.OrderedAcrossRedialsIff`).
- A publisher without an entry in the connection table blocks the subscriber for good when a list omits it, because
  its quit channel is nil. It has none when it never offered TCPROS, and when a disconnect notice spelled its URI.
  `Subscriber.NeverBlocksIff` says that these are the only two causes, over all runs;
  `Subscriber.UnreachablePublisherBlocks` follows the first from any reachable state.
- Disconnect notices carry host:port while the table is keyed by API URI, so a worker's own notice takes it off the
  table only if it dials the URI itself (`Subscriber.NoticeIff`, `Subscriber.NoticesReachNobody`;
  `Subscriber.NoticeExample` is a run that shows it).
- `NewPublisherWithCallbacks` looks under the topic as passed and stores under its remapping. When the two differ, a
  second call starts a second publisher on the topic, and the first is in no table any more: shutting the node down
  does not stop it, and waits for it. `Topics.ShutdownStopsAllIff` says exactly for which topics the node stops
  everything it started, over all runs of calls; `Topics.TwiceOrphans` is the run.
- A failed load inside the digest computation is reported as an empty text without an error. `DigestFaithful.ErasedIff`
  says exactly when the text is empty; `DigestFaithful.ErasedExample` are two different definitions with one digest.
- `LoadMsgFromString` registers any text under any name. The registry stays what un-memoised loads would give exactly
  when the text says what the file of that name says (`Registry.RegisterCoherent`).
- A builtin type name behind a package, as in `foo/string x`, is accepted: the codecs read the builtin, while the
  digest computation looks for a definition `foo/string` (`FieldText.AcceptedPackage`,
  `FieldText.QualifiedBuiltinExample`).
- A type named `Header` resolves to `std_msgs/Header` in the interpreter whatever its package, and only there
  (`Generated.ResolversAgreeIff`); the parser rewrites `Header` but not `Header[]`
  (`FieldText.MessageFieldRoundTripIff`); `FieldText.HeaderExample` is a line on which both show.
- A string constant is split at the first space of the line as written, so when the line is indented the type ends
  up in the constant's name, and from there in the digest (`ConstantText.IndentationIff`).
- `normalizeTemporal` leaves exactly one second of nanoseconds alone, so one instant has two spellings that compare
  equal and cannot be subtracted from each other (`Temporal.FullSecondBreaksSub`, `Temporal.SubPanicsIff`).
- An XML-RPC request with an empty method name parses, although the code sets an error for it: the next call
  overwrites the error (`XmlRpc.RequestRoundTrip` covers every method name).

## Model

| member | source | states |
|---|---|---|
| Codec.IntRoundTrip | ros/dynamic_message.go:738-827 | every integer in range of its Go type comes back from its little-endian two's complement bytes |
| Codec.IntBytesRoundTrip | ros/dynamic_message.go:1257-1289 | every byte pattern of the right width decodes to an integer in range that encodes to the same bytes |
| CodecTheorems.RoundTrip | ros/dynamic_message.go:650-1323 | for every well-formed schema graph, serialising a well-typed message never fails, and either decoder reads it back, at every nesting depth, from in front of any bytes and leaves exactly those bytes |
| CodecTheorems.RoundTripField | ros/dynamic_message.go:656-683 | the same for one field: scalars, fixed arrays without a count, dynamic arrays behind their count |
| CodecTheorems.RoundTripItems | ros/dynamic_message.go:679-860 | the same for the element loops: what was written from element i on is read back onto the first i elements |
| CodecTheorems.RoundTripElem | ros/dynamic_message.go:844-859 | the same for one element, through the nested type that the field's name resolves to |
| CodecTheorems.RoundTripPrim | ros/dynamic_message.go:872-1031 | the same for one builtin value of any of the fourteen Go types |
| CodecTheorems.PrefixFree | ros/dynamic_message.go:650-1054 | if one serialisation of a schema is a prefix of another, the messages are equal and nothing is left over |
| CodecTheorems.DecodeSound | ros/dynamic_message.go:1057-1323 | on any bytes, decoding does not panic, and what it returns has exactly the fields of the schema, each well typed |
| CodecTheorems.ZeroMessageTyped | ros/dynamic_message.go:151-165 | NewMessage yields a message for every type of a closed acyclic schema graph, and a well-typed one |
| CodecTheorems.ZeroFieldTyped | ros/dynamic_message.go:1343-1475 | each zero value is well typed: fixed arrays are filled to their length, dynamic ones empty |
| ArrayPanics.PanicsIff | ros/dynamic_message.go:1079-1111 | with all references resolved, making a message and decoding any input never panics if and only if the schema has, at no depth, an array that can hold messages named ros/Time or ros/Duration |
| ArrayPanics.CrashFieldsCrash | ros/dynamic_message.go:1203-1214 | for every other schema, bytes on which decoding panics |
| ArrayPanics.FieldsPass | ros/dynamic_message.go:1066-1318 | bytes for any field that decoding either consumes exactly or panics on |
| ArrayPanics.SafeZero | ros/dynamic_message.go:1424-1426 | without such an array, a fresh message can always be made |
| ArrayPanics.MaskedExample | ros/dynamic_message.go:1105-1106 | `ros/Time[] x` and a count of one: decoding panics whatever follows |
| ZeroLength.ZeroMessageIsMinimal | ros/dynamic_message.go:1333-1477 | a fresh message serialises without error to exactly the minimum computed from the schema |
| ZeroLength.MinLengthIsLowerBound | ros/dynamic_message.go:650-1054 | no well-typed message of the schema has a shorter serialisation |
| Decoders.StrictMessage | libgengo/generate.go:151-243 | whenever error-reporting decoding accepts, lenient decoding gives the same result, extra input passes through untouched, and re-serialising gives the consumed bytes with non-zero bool bytes turned to 1 |
| Decoders.StrictField | libgengo/generate.go:153-241 | the same for one field |
| Decoders.StrictPrim | libgengo/generate.go:167-233 | the same for one builtin value; only bools may change when written back |
| Decoders.TruncationRejected | libgengo/generate.go:151-243 | no strict prefix of an input that is consumed whole is accepted |
| Decoders.SerializationTruncated | libgengo/generate.go:101-243 | no strict prefix of a serialisation is accepted |
| Leniency.DecodersAgreeIff | ros/dynamic_message.go:1147-1202 | interpreter and error-reporting decoder agree on every input if and only if no non-empty primitive array is followed only by fields that need no input |
| Leniency.FragileInput | ros/dynamic_message.go:1147-1202 | for every other schema, constructs an input that only the interpreter accepts |
| Leniency.LenientOnlyFields | ros/dynamic_message.go:1147-1202 | an input that only the interpreter accepts has been exhausted, inside such an array |
| Leniency.DrainFields | ros/dynamic_message.go:1066-1318 | from an exhausted reader the interpreter accepts exactly the fields that need no input |
| Leniency.LenientExample | ros/dynamic_message.go:1171-1174 | `uint8[2] x` and the input 7: rejected by one decoder, read as [7, 0] by the other |
| Generated.CompileDeserialize | libgengo/generate.go:151-243 | the template emits one read statement per field, in declaration order |
| Generated.ResolversAgreeIff | ros/dynamic_message.go:100-116 | interpreter and generated imports mean the same nested type exactly when a Header is the std_msgs one and no bare name shadows the qualified one |
| Generated.GeneratedSerializeAgrees | libgengo/generate.go:101-148 | compiled Serialize emits the interpreter's bytes for every spec and well-typed value |
| Generated.WriteField | libgengo/generate.go:103-146 | the statements compiled from one field write that field's bytes |
| Generated.GeneratedDeserializeAgrees | libgengo/generate.go:151-243 | compiled Deserialize accepts exactly what the error-reporting decoder accepts, with the same values and the same bytes left |
| Generated.ReadField | libgengo/generate.go:153-241 | the statement compiled from one field reads that field |
| Generated.GeneratedImpliesDynamic | ros/dynamic_message.go:1057-1323 | whenever generated Deserialize succeeds, dynamic Deserialize succeeds with the same values and bytes left |
| Generated.GeneratedAgreesIff | ros/dynamic_message.go:1147-1202 | the two accept the same inputs if and only if the schema is not of the kind above |
| Generated.GeneratedRoundTrip | libgengo/generate.go:101-243 | generated code reads back whatever generated code wrote, in front of any bytes |
| Generated.GeneratedTruncationAndExtension | libgengo/generate.go:151-243 | generated Deserialize rejects every strict prefix of a serialisation and ignores what follows an accepted input |
| Generated.GeneratedReserialises | libgengo/generate.go:101-243 | re-serialising an accepted input, on either side, reproduces the consumed bytes but for bool bytes |
| GeneratedCode.Generate | libgengo/generate.go:101-243 | the template's two loops over the fields produce the statements, in order |
| GeneratedCode.ExecSerialize | libgengo/generate.go:101-148 | the generated statements, executed on a buffer, append exactly the specified bytes, nested messages included |
| GeneratedCode.ExecEach | libgengo/generate.go:108-126 | the loop over an array's elements |
| GeneratedCode.GeneratedMessage.Serialize | libgengo/generate.go:101-148 | appends the struct's bytes and leaves the struct unchanged |
| GeneratedCode.GeneratedMessage.Deserialize | libgengo/generate.go:151-243 | assigns the fields in place; a success does not depend on what the struct held; the whole struct after a failure: earlier fields as read, later ones untouched, the one it stopped in as far as it got |
| GeneratedCode.SuccessOverwrites | libgengo/generate.go:151-243 | reading into a struct that already holds data leaves, on success, exactly what the bytes say, at every depth |
| GeneratedCode.ReadOverwrites | libgengo/generate.go:153-241 | the same for one field, arrays filled in place included |
| GeneratedCode.ExecReadOp | libgengo/generate.go:167-206 | one element in place: a time cut short has new seconds and old nanoseconds, a nested message the fields that were read |
| GeneratedCode.ExecReadItems | libgengo/generate.go:163-202 | every slot of the array is overwritten, whatever it held; a failure leaves the later slots |
| GeneratedCode.HalfReadTime | libgengo/generate.go:219-229 | a time whose input ends after the seconds keeps its old nanoseconds |
| GeneratedCode.SliceMadeAnew | libgengo/generate.go:156-162 | a slice whose input ends after the count holds that many zeros; without a count it stays |
| GeneratedZero.ZeroStructAgrees | libgengo/generate.go:57-73 | generated and dynamic NewMessage hold the same values at every depth |
| GeneratedZero.GeneratedZeroIsMinimal | libgengo/generate.go:57-73 | and serialise to the same bytes, the fewest the schema admits |
| WireFormat.SerElemBytes | ros/dynamic_message.go:872-1031 | for each of the sixteen builtin type names, the bytes of a value written out one by one; a value of another Go type is refused, nil panics |
| WireFormat.DeElemBytes | ros/dynamic_message.go:1113-1305 | for each name and any bytes, the value read, as arithmetic on the bytes, and the bytes left; the error, and the zero that an array of numbers reads instead |
| WireFormat.SerMessageBytes | ros/dynamic_message.go:650-1054 | every well-typed message is its fields in declaration order with nothing between them, `T[]` behind a four-byte count, `T[n]` without one |
| WireFormat.GeneratedBytes | libgengo/generate.go:101-148 | the generated methods write those bytes too |
| WireFormat.BytesReadBack | ros/dynamic_message.go:1057-1323 | and either decoder reads them back, in front of anything |
| WireFormat.WrongMessageRefused | ros/dynamic_message.go:844-859 | a message of another type than the field's is refused |
| WireFormat.StringForArray | ros/dynamic_message.go:657-682 | a Go string held for an array goes out with its count if it is one of bytes, and is refused after the count otherwise |
| WireFormat.FixedArrayBytes | ros/dynamic_message.go:657-860 | `T[n]` writes the first n elements of the slice it finds, and panics behind the last of a shorter one |
| WireFormat.MissingDataFails | ros/dynamic_message.go:650-656 | nil data and missing fields are errors |
| WireFormat.MissingDefinition | ros/dynamic_message.go:1333-1477 | a field whose definition is not loaded gives no fresh message, and an error before a byte is read |
| WireFormat.ZeroFieldByName | ros/dynamic_message.go:1343-1475 | the zero of each builtin type by name, none of them for `T[]`, n for `T[n]` |
| WireFormat.ZeroBytes | ros/dynamic_message.go:1333-1477 | a fresh message of any type is nothing but zero bytes on the wire |
| DynamicMessages.SerializePrim | ros/dynamic_message.go:872-1031 | appends exactly the bytes of one builtin value, or fails or panics with nothing appended |
| DynamicMessages.SerializeElem | ros/dynamic_message.go:844-859 | type and short-name tests, then the nested message |
| DynamicMessages.SerializeItems | ros/dynamic_message.go:677-860 | the element loop appends the specified bytes and stops where it says, an index past the slice being a panic |
| DynamicMessages.SerializeStringItems | ros/dynamic_message.go:677-682 | a string held for an array goes out byte by byte for uint8 elements, and fails for others |
| DynamicMessages.SerializeField | ros/dynamic_message.go:657-683 | count of a dynamic array, then the elements; nothing but a slice or string can be measured |
| DynamicMessages.SerializeMessage | ros/dynamic_message.go:650-1054 | the field loop appends what was written before the first failure, and that failure is reported |
| DynamicMessages.ZeroValueData | ros/dynamic_message.go:1333-1477 | the data map of a new message, an error for a missing nested definition, or a panic on a slice of the wrong kind |
| DynamicMessages.NewMessage | ros/dynamic_message.go:151-165 | the new message, nil when its data cannot be built, or the panic of building it |
| DynamicMessages.ReadPrimitive | ros/dynamic_message.go:1219-1305 | one builtin value, advancing the reader past what was consumed even on failure |
| DynamicMessages.ReadField | ros/dynamic_message.go:1067-1317 | one field, arrays element by element |
| DynamicMessages.ReadElem | ros/dynamic_message.go:1113-1215 | one element; in arrays of primitives a failed read yields a zero and is forgotten |
| DynamicMessages.DynamicMessage.Serialize | ros/dynamic_message.go:650-1054 | appends the message's bytes and leaves the message unchanged |
| DynamicMessages.DynamicMessage.Deserialize | ros/dynamic_message.go:1057-1323 | fills the data map with the decoded fields; on any failure the data is nil |
| DynamicMessages.DynamicMessage.constructor | ros/dynamic_message.go:151-165 | a new object holds the zero message of its type |
| ConnectionHeader.RoundTripIff | ros/header.go:21-91 | a written header reads back, in front of anything, if and only if no key holds an '=' and the total fits in 32 bits |
| ConnectionHeader.DecodeIsExact | ros/header.go:21-91 | whatever the reader accepts, writing it back gives exactly the bytes consumed |
| ConnectionHeader.LinesAreTheBlock | ros/header.go:42-59 | despite the wrapping counter and short reads, a success has read every line in full |
| ConnectionHeader.Overrun | ros/header.go:53-58 | a line announced longer than what is left never brings the uint32 counter to the header size |
| ConnectionHeader.WriteConnectionHeader | ros/header.go:63-91 | the writer's two loops put exactly the encoded header on the stream |
| ConnectionHeader.ReadConnectionHeader | ros/header.go:21-61 | the reader's loop returns the decoded lines, an error or a panic, and consumes what the specification says |
| ConnectionHeader.EncodeBytes | ros/header.go:63-91 | a header written out: four bytes of total length, then for each line four bytes of length, key, '=', value |
| ConnectionHeader.EncodeExample | ros/header.go:63-91 | the eleven bytes of `a=b` |
| Session.StepKeepsInvariant | ros/publisher.go:296-337 | each turn keeps the queue a suffix of what was taken, at most 100 long, with drops only behind a full queue |
| Session.RunKeepsInvariant | ros/publisher.go:294-338 | so in every reachable state |
| Session.Conservation | ros/publisher.go:294-338 | taken = sent + dropped + queued, plus at most one write cut short |
| Session.AttemptedIsSubseq | ros/publisher.go:299-335 | what is written is an in-order subsequence of what was taken |
| Session.LatestAreSafe | ros/publisher.go:294-304 | while the session is alive, each of the latest 100 messages is still queued or has been sent |
| Session.DropsOldestIff | ros/publisher.go:299-304 | every message is taken; one is dropped exactly when 100 are waiting, the oldest |
| Session.WritesOldest | ros/publisher.go:310-336 | a write puts the oldest message on the wire behind its length, byte by byte |
| Session.SessionEnds | ros/publisher.go:306-336 | quitting and failing end the session, the latter with the start of the frame on the wire |
| Session.RemoteSubscriberSession.Start | ros/publisher.go:292-338 | the sending loop takes the state machine's steps |
| Session.RemoteSubscriberSession.Turn | ros/publisher.go:296-337 | one turn changes queue, history and connection as the state machine says |
| Publisher.StepKeepsInvariant | ros/publisher.go:74-115 | each turn keeps sessions distinct and every inbox a contiguous run of publications |
| Publisher.RunKeepsInvariant | ros/publisher.go:74-115 | so in every reachable state |
| Publisher.FanOutIsContiguous | ros/publisher.go:77-99 | what fan-out gives a session is exactly the publications processed between its joining and its leaving |
| Publisher.FanOutReachesEachOnce | ros/publisher.go:79-82 | a publication goes once to every session on the list and to nobody else |
| Publisher.RemoveKeepsOthers | ros/publisher.go:93-98 | removing a session's first entry removes that session and no other |
| Publisher.JoinsAndLeaves | ros/publisher.go:88-99 | joining puts a session on the list with an empty channel, leaving takes off that one only |
| Publisher.ShutdownQuitsAll | ros/publisher.go:100-114 | in every run, shutting down tells exactly the sessions that have joined and not left to quit, and before that nobody is told |
| Publisher.EndedStays | ros/publisher.go:84-87 | an ended loop changes nothing any more |
| Publisher.DefaultPublisher.Start | ros/publisher.go:74-115 | the loop takes the state machine's steps |
| Publisher.DefaultPublisher.Turn | ros/publisher.go:76-114 | one turn: fan-out, join, leave, listener failure or shutdown |
| Publisher.DefaultPublisher.FanOutLoop | ros/publisher.go:79-82 | the list walk puts the message on each session's channel in turn |
| Transport.OrderedDelivery | ros/publisher.go:296-337 | over every run without a deadline inside a size word, what reaches msgChan is an in-order subsequence, bytes intact, of the publications between joining and leaving |
| Transport.RunKeepsInvariant | ros/subscriber.go:224-277 | in every such run the reader stands on a frame boundary or just past a size |
| Transport.SizeReadKeepsAlignment | ros/subscriber.go:230-252 | reading a size keeps the reader aligned, or drops the connection |
| Transport.BodyReadKeepsAlignment | ros/subscriber.go:253-275 | reading a body advances by exactly that frame, and the body is the message sent |
| Transport.TimeoutAtBoundaryIff | ros/subscriber.go:232-237 | after a size timeout the reader's position in the stream is a frame boundary if and only if no byte of the size had been read |
| Timeouts.SizeTimeoutsIff | ros/subscriber.go:232-237 | delivery is in order over every run of publisher, session and reader if and only if no deadline strikes after the first byte of a size |
| Timeouts.MessageLengthsIff | ros/publisher.go:314-327 | and, without such deadlines, if and only if every message's length fits in 32 bits |
| Timeouts.CutSizeCorrupts | ros/subscriber.go:232-247 | for a cut of one, two or three bytes, a run that delivers a message that was never published |
| Timeouts.LongMessageCorrupts | ros/publisher.go:314-327 | a run in which a message of 2^32 bytes is delivered as an empty one |
| Transport.RemotePublisherConn.Turn | ros/subscriber.go:224-277 | one turn of the reading loop updates readingSize, msgSize, the position and the channel |
| Lossless.FrameDeliveredIff | ros/subscriber.go:230-275 | a frame that is there in full is delivered, and the reader moves past it, if and only if the message is shorter than 256000000 bytes; from that length on the reader hangs up |
| Lossless.RefusedBody | ros/subscriber.go:268-274 | a message the channel does not take in time is dropped alone |
| Lossless.Waits | ros/subscriber.go:226-275 | an incomplete size or body is waited for, a connection given up is not read |
| Lossless.NothingLostIff | ros/subscriber.go:224-277 | over every run in which nobody fails and the channel takes every body, a reader that has caught up has delivered all that was sent, if and only if messages stay below 256000000 bytes |
| Lossless.EverythingArrives | ros/publisher.go:296-337 | so, when the queue is empty and has dropped nothing, all that the session took has arrived |
| Lossless.RoundsDeliver | ros/publisher.go:74-338 | for any messages below the limit, a run of publisher, session and reader that delivers every one of them |
| Transport.RemotePublisherConn.Redial | ros/subscriber.go:164-221 | dialling again resets the reading loop and keeps the channel |
| Redials.OrderedAcrossRedials | ros/subscriber.go:164-277 | over every run with any number of redials, at any point of the stream, what the channel accepted is an in-order subsequence of the publications: nothing repeated, reordered or invented |
| Redials.OrderedAcrossRedialsIff | ros/subscriber.go:232-262 | and over all runs with redials this holds if and only if no deadline strikes after the first byte of a size |
| Redials.WholeAcrossRedials | ros/subscriber.go:164-277 | so all that the channel accepted decodes to whole, well-typed messages in publication order |
| Redials.RunKeepsInvariant | ros/subscriber.go:164-277 | in every such run the earlier connections took only from publications before the one in use joined |
| Redials.SeenSteps | ros/subscriber.go:224-277 | the reading loop, with one channel for all connections, takes these steps |
| Delivery.HandshakeStreamsIff | ros/subscriber.go:181-213 | both sides go on to stream if and only if they name the same type and the same digest |
| Delivery.SessionAcceptsIff | ros/publisher.go:254-264 | the publisher accepts a request if and only if its `type` and `md5sum` lines are each its own or '*' |
| Delivery.SubscriberAcceptsIff | ros/subscriber.go:210-213 | the subscriber accepts a response if and only if both are its own |
| Delivery.WildcardAccepted | ros/publisher.go:254-264 | a request for any type and digest is accepted by every publisher |
| Delivery.HeaderKeys | ros/publisher.go:275-281 | the keys and values of both headers, in order, letter by letter |
| Delivery.LookupResponse | ros/publisher.go:275-281 | the response the publisher writes carries its own type and digest |
| Delivery.LookupRequest | ros/subscriber.go:181-185 | the request the subscriber writes carries its own type and digest |
| Delivery.MessagesArriveWhole | ros/subscriber.go:253-272 | end to end: what reaches msgChan decodes to whole, well-typed messages, in publication order, published while the session was on the list |
| Delivery.CallbacksGetWholeMessages | ros/subscriber.go:104-129 | so does what the callback jobs decode, whichever messages the job channel accepts before its timeout |
| Delivery.EnqueuedIsSubseq | ros/subscriber.go:109-129 | the jobs are an in-order subsequence of the messages taken off msgChan |
| Delivery.EnqueuedAll | ros/subscriber.go:109-129 | all of them when the job channel takes every one |
| Subscriber.ListKeepsInvariant | ros/subscriber.go:60-100 | a new list keeps the table within the list, registers only publishers without a live entry, and tells nobody to quit twice |
| Subscriber.StepKeepsInvariant | ros/subscriber.go:58-146 | every event keeps the table safe: each worker ever started is in the table, was sent a quit, or was removed by a notice |
| Subscriber.RunKeepsInvariant | ros/subscriber.go:58-146 | so in every reachable state |
| Subscriber.TableAfterList | ros/subscriber.go:60-100 | the whole table after a list, entry by entry, and exactly who is told to quit |
| Subscriber.ShutdownTellsAll | ros/subscriber.go:133-144 | after a shutdown every worker ever started has been told to quit or was taken off by a notice |
| Subscriber.UnservedIff | ros/subscriber.go:71-99 | a newly listed publisher gets no table entry if and only if it does not offer TCPROS |
| Subscriber.UnreachablePublisherBlocks | ros/subscriber.go:66-77 | from any reachable state, a newly listed publisher without one has blocked the loop for good by the time a list omits it, whatever happens in between short of a shutdown |
| Subscriber.NeverBlocksIff | ros/subscriber.go:58-146 | over every run the loop never blocks on a nil quit channel if and only if every URI that can be listed offers TCPROS and no disconnect notice spells one of them |
| Subscriber.UnservedStays | ros/subscriber.go:58-146 | no event gives a listed publisher its missing table entry |
| Subscriber.NoticeIff | ros/subscriber.go:130-132 | a worker's own disconnect notice takes it off the table if and only if its host:port is its publisher's URI |
| Subscriber.NoticesReachNobody | ros/subscriber.go:239-241 | so over every run in which no notice spells a listed URI, nobody is ever taken off |
| Subscriber.NoticeExample | ros/subscriber.go:85-132 | a worker for http://h:1/ dials h:2, and its notice leaves it in the table |
| Subscriber.SetDifference | ros/subscriber.go:281-298 | lists the elements of one list that are not in the other, each once |
| Subscriber.DefaultSubscriber.QuitDead | ros/subscriber.go:66-70 | quits and deletes dead publishers one by one, up to the first without a quit channel |
| Subscriber.DefaultSubscriber.CallNew | ros/subscriber.go:71-99 | starts and registers a worker for exactly the new publishers that offer TCPROS |
| Subscriber.DefaultSubscriber.OnPubList | ros/subscriber.go:60-100 | a list update takes the state machine's step, and blocks if and only if some dead publisher has no table entry |
| Subscriber.DefaultSubscriber.OnDisconnected | ros/subscriber.go:130-132 | a notice deletes the entry under its own text, so it finds a worker it is about only where host:port and URI agree |
| Subscriber.DefaultSubscriber.OnShutdown | ros/subscriber.go:133-144 | every worker in the table is told to quit |
| XmlRpc.ValueRoundTrip | xmlrpc/xmlrpc.go:26-107 | parsing an emitted value gives the value back, nil as "", and stops just past its closing tag; it fails if and only if an integer exceeds 32 bits or a byte string or key is empty |
| XmlRpc.ItemsRoundTrip | xmlrpc/xmlrpc.go:288-318 | the same for the array loop |
| XmlRpc.MembersRoundTrip | xmlrpc/xmlrpc.go:319-361 | the same for the struct loop, in any iteration order of the map |
| XmlRpc.MemberRoundTrip | xmlrpc/xmlrpc.go:329-355 | one emitted member sets exactly its own key |
| XmlRpc.LeafParse | xmlrpc/xmlrpc.go:187-287 | what each scalar element makes of its text, and of no text |
| XmlRpc.RequestRoundTrip | xmlrpc/xmlrpc.go:109-124 | a request of any method name parses back to name and arguments, exactly when every argument is acceptable |
| XmlRpc.ResponseRoundTrip | xmlrpc/xmlrpc.go:126-135 | a response parses back as a success with its value, exactly when the value is acceptable |
| XmlRpc.FaultRoundTrip | xmlrpc/xmlrpc.go:137-149 | a fault parses back as a fault with its value, exactly when the value is acceptable |
| XmlRpcForeign.DocParses | xmlrpc/xmlrpc.go:176-381 | any document of untyped strings, scalars, arrays and structs, with any white space between the tags, is read as what it means by the name of each tag, `<i4>` like `<int>`, and is refused exactly when it means nothing |
| XmlRpcForeign.UntypedParses | xmlrpc/xmlrpc.go:365-373 | character data right after `<value>` is the string itself |
| XmlRpcForeign.SkipDoc | xmlrpc/xmlrpc.go:365-373 | skipping passes over whole elements, however deep |
| XmlRpcForeign.MixedContent | xmlrpc/xmlrpc.go:365-373 | so what follows untyped text inside a value is dropped |
| XmlRpcForeign.CallParses | xmlrpc/xmlrpc.go:383-429 | the request parser on any such call |
| XmlRpcForeign.ReplyParses | xmlrpc/xmlrpc.go:431-461 | the response parser on any such reply |
| XmlRpcForeign.FaultParses | xmlrpc/xmlrpc.go:462-476 | and on any such fault |
| XmlRpcForeign.EmitIsPut | xmlrpc/xmlrpc.go:26-107 | the emitter writes the document with one tag for each kind of value, "1" and "0" for booleans, names before values, no white space |
| XmlRpcForeign.EmitRequestIsPut | xmlrpc/xmlrpc.go:109-124 | and a call tag by tag |
| XmlRpcForeign.EmitResponseIsPut | xmlrpc/xmlrpc.go:126-135 | a reply tag by tag |
| XmlRpcForeign.EmitFaultIsPut | xmlrpc/xmlrpc.go:137-149 | a fault tag by tag |
| XmlRpcForeign.Refused | xmlrpc/xmlrpc.go:361-381 | comments, unknown elements and the end of the document in place of a value |
| XmlRpcForeign.UnclosedNeverReturns | xmlrpc/xmlrpc.go:404-428 | a call whose parameter list is never closed is never returned as a request |
| XmlRpcForeign.CutCallHangs | xmlrpc/xmlrpc.go:404-428 | a call cut off between two arguments makes the parser spin for ever, unless an argument is refused first |
| XmlRpcLoops.EmitValue | xmlrpc/xmlrpc.go:26-107 | the emitter appends the tokens of the value for some iteration order of each of its maps |
| XmlRpcLoops.EmitElements | xmlrpc/xmlrpc.go:66-77 | the array loop |
| XmlRpcLoops.EmitEntries | xmlrpc/xmlrpc.go:83-96 | the map loop visits every key exactly once |
| XmlRpcLoops.Decoder.NextStart | xmlrpc/xmlrpc.go:151-163 | advances to just past the next start tag, or fails |
| XmlRpcLoops.Decoder.ExpectStart | xmlrpc/xmlrpc.go:165-174 | the same, and the tag must be the expected one |
| XmlRpcLoops.Decoder.Parse | xmlrpc/xmlrpc.go:178-381 | the parser over the stateful decoder computes the specified value and leaves the decoder there |
| XmlRpcLoops.Decoder.ParseLeaf | xmlrpc/xmlrpc.go:187-287 | the scalar cases |
| XmlRpcLoops.Decoder.ParseItems | xmlrpc/xmlrpc.go:293-318 | the array loop, ended by the array's closing tag |
| XmlRpcLoops.Decoder.ParseMembers | xmlrpc/xmlrpc.go:320-361 | the struct loop, names and values carrying over between members |
| XmlRpcLoops.Decoder.ReadRequest | xmlrpc/xmlrpc.go:383-429 | the request parser, which never returns on a document that ends inside its parameters |
| XmlRpcLoops.Decoder.ReadResponse | xmlrpc/xmlrpc.go:431-476 | the response parser, success or fault |
| XmlRpcLoops.Decoder.ReadValue | xmlrpc/xmlrpc.go:461-468 | the value tag and the value after it |
| XmlRpcCalls.OrderForgotten | xmlrpc/xmlrpc.go:83-96 | what is read back, and whether it is, does not depend on the order in which any map was iterated |
| XmlRpcCalls.EmitThenParse | xmlrpc/xmlrpc.go:26-381 | emitter and parser together: the same value back with nil read as "", or an error exactly when it holds something the parser refuses |
| XmlRpcCalls.WriteRequest | xmlrpc/xmlrpc.go:109-124 | the argument loop writes a request for some iteration order of the maps in it |
| XmlRpcCalls.CallThenParse | xmlrpc/xmlrpc.go:109-429 | the server gets the method name and the arguments the client passed, or an error exactly when an argument is refused |
| XmlRpcCalls.ReplyThenParse | xmlrpc/xmlrpc.go:126-476 | the client gets the value and whether it was a fault |
| XmlRpcCalls.FaultThenParse | xmlrpc/xmlrpc.go:137-149 | the client gets the fault's code and message, exactly when the code fits in 32 bits |
| FieldText.AcceptedShape | libgengo/parser.go:165-194 | every accepted field has a legal name and a length from -1 to 2^31-1, negative exactly for `[]`, so `< 0`, `== -1` and `> -1` split fields alike |
| FieldText.AcceptedPackage | libgengo/parser.go:179-188 | the package and type of every accepted line, and exactly when a field without a package is not the same as a builtin field |
| FieldText.SpacedLine | libgengo/parser.go:117-170 | indentation, further spaces and comments change nothing about a field line |
| FieldText.SpacedExample | libgengo/parser.go:117-170 | `  uint8[3]   data # three` |
| FieldText.LengthLimit | libgengo/msgs.go:108-113 | lengths are decimal and fit in 31 bits |
| FieldText.ExtraComponentIgnored | libgengo/msgs.go:86-93 | of a type with more than two components the first two count |
| FieldText.LegalExamples | libgengo/msgs.go:48-53 | names that are legal and names that are not |
| FieldText.PackagedTypeParses | libgengo/parser.go:165-194 | a type written with its package is taken as it stands, whatever the package of the text |
| FieldText.QualifiedBuiltinExample | libgengo/parser.go:179-188 | `foo/string x` reads as a builtin string of package foo, which the digest looks for as foo/string |
| FieldText.HeaderExample | ros/dynamic_message.go:100-116 | `Header[] h` in package q keeps q/Header for the generated code, while the interpreter reads std_msgs/Header |
| FieldText.BuiltinFieldRoundTrip | libgengo/msgs.go:302-310 | a printed builtin field parses back to itself in every package |
| FieldText.MessageFieldRoundTripIff | libgengo/msgs.go:302-310 | a printed message field parses back in a package if and only if it is the field's own, a scalar Header always going to std_msgs |
| FieldText.IsValidMsgType | libgengo/msgs.go:121-147 | the two-state scan accepts a legal base followed by closed brackets of digits |
| FieldText.ItoaParses | libgengo/msgs.go:108-113 | a printed length parses back |
| MsgText.DefinitionsAreShaped | libgengo/context.go:164-190 | every definition in a registry over such texts has fields of that shape and legal names |
| ConstantText.ParsedIff | libgengo/parser.go:122-163 | which constants lines can be read as: names trimmed and without '=', values trimmed as their type demands, nothing else |
| ConstantText.SpacedConstant | libgengo/parser.go:150-163 | indentation, spaces and comments change nothing about a constant that is not a string; its value is what its type accepts |
| ConstantText.StringConstant | libgengo/parser.go:135-147 | a string constant takes everything behind the '=', comment marks and spaces at the end included |
| ConstantText.ConstantTypes | libgengo/msgs.go:35-42 | the types that constants may have, by name |
| ConstantText.SettledReparses | libgengo/context.go:293-295 | the digest line of such a constant reads back as that constant |
| ConstantText.DigestLineFaithful | libgengo/context.go:293-295 | so digest lines tell parsed constants apart |
| ConstantText.IndentationIff | libgengo/parser.go:135-147 | indenting a line leaves the constant the same if and only if it is not a string; a string's type moves into its name |
| ConstantText.AcceptedSettled | libgengo/parser.go:122-163 | what an accepted line yields, comments and both trimming rules included |
| MsgText.LoadLines | libgengo/context.go:170-190 | the line loop collects fields and constants in order and stops at the first syntax error |
| MsgText.BlankLine | libgengo/context.go:170-175 | empty lines and comments add nothing |
| MsgText.ConstantOrField | libgengo/context.go:176-189 | a line with an '=' outside its comment is a constant, any other a field |
| MsgText.FirstOfLines | libgengo/context.go:172 | a text is cut at its newlines |
| MsgText.LastLineAdds | libgengo/context.go:170-190 | one more line adds what that line says, behind what the others said |
| MsgText.ParsedFieldsShaped | libgengo/context.go:170-190 | every field of an accepted text has the shape the codecs rely on |
| Registry.MsgContext.LoadMsg | libgengo/context.go:211-232 | whatever is cached, a load answers as an un-memoised one would, exactly for the names that have a definition, with their text and their digest as MD5Sum; it adds exactly the names it reached, and every entry has the text and the digest of its name |
| Registry.MsgContext.LoadMsgFromString | libgengo/context.go:164-200 | any text under any name: the spec it gives, with that text, the name cut at its slash and the digest of what was parsed, every entry of the registry afterwards, and that the registry stays coherent if and only if the file of that name gives the same |
| Registry.RegisterCoherent | libgengo/context.go:158-162 | the condition under which registering a spec keeps the registry coherent |
| Registry.CoherentIsUnfolded | libgengo/context.go:158-162 | a coherent registry holds nothing that un-memoised loads of its names would not give |
| Registry.UnfoldRecords | libgengo/context.go:191-198 | what a load records of text, name, package, fields, constants and digest, said without the loader |
| Registry.CoherentRecords | libgengo/context.go:191-198 | the same of every entry of a coherent registry |
| Registry.DigestTextExample | libgengo/context.go:291-312 | a digest text letter by letter: constants, then fields, a message as its digest, no last newline |
| Registry.MsgContext.ComputeMsgMD5 | libgengo/context.go:314-324 | the digest equals the one recomputed from the texts alone |
| Registry.MsgContext.ComputeMD5Text | libgengo/context.go:291-312 | the digest text, empty once a reference cannot be loaded |
| Registry.StopsForGood | libgengo/context.go:299-303 | after a missing reference no later field adds text or loads anything |
| DigestFaithful.ErasedIff | libgengo/context.go:299-307 | the digest text is empty if and only if some referenced definition is missing or the definition says nothing |
| DigestFaithful.MissingReferenceErasesDigest | libgengo/context.go:299-307 | so a definition with a missing reference has the digest of the empty text, whatever else it says |
| DigestFaithful.ErasedExample | libgengo/context.go:299-307 | two files that say different things and have one digest, because of a third that is missing |
| DigestMerkle.DigestsAgreeIff | libgengo/context.go:291-324 | short of an MD5 collision, two definitions have one digest if and only if they have the same constants and builtin fields, and same-named message fields whose types are, recursively, built alike |
| DigestMerkle.TextsAgreeIff | libgengo/context.go:291-312 | the same for digest texts, by induction on the type graph |
| DigestMerkle.CompleteIsServed | libgengo/context.go:164-200 | every definition parsed from a complete set of files meets what that needs |
| DigestMerkle.CompleteDigestsAgreeIff | libgengo/context.go:291-324 | so digests of a complete set of files agree exactly for definitions built alike |
| DigestFaithful.DigestTextParses | libgengo/context.go:291-312 | the digest text of a definition of builtin fields, read as a message text, gives back its fields and constants |
| DigestFaithful.DigestTextIdentifies | libgengo/context.go:291-312 | two such definitions have one digest text if and only if they declare the same fields and constants in the same order |
| DigestFaithful.ParsedIsPlain | libgengo/context.go:170-190 | every parsed text of builtin fields is such a definition |
| LoadedContext.LoadAll | libgengo/context.go:158-232 | any sequence of loads, in any order and with repetitions, answers each as if uncached and leaves a registry that depends only on the set of names |
| LoadedContext.TouchedTransitive | libgengo/context.go:300-307 | a name reached by a load brings everything it reaches itself |
| LoadedContext.LoadedContextIsLinked | libgengo/context.go:211-232 | loading from a complete definition set gives a well-formed context in which interpreter and generated code resolve alike |
| Names.CanonicalizeName | ros/name.go:80-95 | the loop over components computes the canonical form |
| Names.GlobalBecomesCanonical | ros/name.go:80-95 | a name with a leading slash becomes canonical: no empty component, no trailing slash |
| Names.TidyIsFixed | ros/name.go:80-95 | names already in canonical form are left as they are |
| Names.QualifyNodeName | ros/name.go:35-56 | namespace and base of a node name, with its refusals and its crash on slashes only |
| Names.QualifyIff | ros/name.go:35-56 | which node names are refused, and that exactly those of nothing but slashes crash |
| Names.QualifiedRejoins | ros/name.go:35-56 | the namespace is canonical, the base is one component, and together they are the global form of the name |
| Names.ResolveIsCanonical | ros/name.go:126-142 | under a global namespace every name resolves to a canonical global one |
| Names.ResolveIdempotent | ros/name.go:126-142 | resolving twice is resolving once |
| Names.RelativeResolves | ros/name.go:137-139 | a relative name resolves to the words of the namespace and then its own |
| Names.PrivateResolves | ros/name.go:135-137 | a private one to those of namespace, node and then its own |
| Names.GlobalResolves | ros/name.go:127-135 | a global one to its own, the empty one to the namespace |
| Names.OneWordResolves | ros/name.go:126-142 | the three kinds spelled out for one-word names |
| Names.RemapFollows | ros/name.go:145-151 | a name that resolves like a source becomes what its target resolves to, any other what it resolves to itself |
| Names.NewNameResolver | ros/name.go:109-123 | for any namespace: it panics if and only if that is empty; the mapping is the one built in some iteration order; namespace and names are canonical and global if and only if the namespace passed is global |
| Names.OrderIrrelevantIff | ros/name.go:116-120 | the mapping is independent of iteration order if and only if sources that resolve alike have targets that resolve alike |
| Names.RemapIdempotentIff | ros/name.go:145-151 | remapping twice equals remapping once, for every name, if and only if no target is itself remapped elsewhere |
| Topics.ShutdownStopsAllIff | ros/node.go:406-430 | after every run of calls, shutting the node down stops all it started if and only if no topic passed to NewPublisherWithCallbacks is remapped and none passed to NewPublisher is remapped twice |
| Topics.PlainShutdownIff | ros/node.go:406-409 | with NewPublisher alone, if and only if no remapping target is itself remapped elsewhere |
| Topics.TwiceOrphans | ros/node.go:411-430 | otherwise, one call made twice leaves two publishers on one topic, the first in no table and never stopped |
| Topics.RemapFixedIff | ros/name.go:126-151 | the topics that are not remapped: canonical global names that no remapping takes elsewhere |
| Topics.RunKeepsKeyed | ros/node.go:276-513 | in every run a table entry stands under the topic it registered |
| Topics.RunKeepsReach | ros/node.go:276-513 | in every run of calls that find themselves again, whatever runs is in a table |
| Topics.SecondCallFindsIff | ros/node.go:411-430 | NewPublisherWithCallbacks returns the same publisher again if and only if the topic is not remapped or already was a key |
| Topics.RemoveUndoesNewIff | ros/node.go:276-409 | RemovePublisher stops the publisher that NewPublisher returned if and only if remapping the topic twice is remapping it once, or the publisher was already there |
| Topics.SubscriberFoundAgain | ros/node.go:464-513 | a subscriber is found again, and removed, under any topic |
| Topics.RefusedChangesNothing | ros/node.go:411-513 | a registration the master refuses changes nothing |
| Topics.DefaultNode.NewPublisher | ros/node.go:406-409 | the call as the state machine has it, topic remapped twice |
| Topics.DefaultNode.NewPublisherWithCallbacks | ros/node.go:411-430 | the publisher found or started, or nil when the master refuses, and both tables afterwards |
| Topics.DefaultNode.RemovePublisher | ros/node.go:276-282 | stops and deletes the publisher under the remapped topic |
| Topics.DefaultNode.NewSubscriber | ros/node.go:472-513 | the subscriber found or started, and both tables afterwards |
| Topics.DefaultNode.RemoveSubscriber | ros/node.go:464-470 | stops and deletes the subscriber under the remapped topic |
| Topics.DefaultNode.Shutdown | ros/node.go:560-575 | stops whatever the two tables hold |
| Temporal.NormalizeExact | ros/temporal.go:5-20 | whenever it returns, the instant is kept and nanoseconds are in [0, 10^9]; exactly when it panics |
| Temporal.NormalizeExamples | ros/temporal.go:5-20 | the second carried, the second kept, the nanosecond borrowed |
| Temporal.CmpExact | ros/temporal.go:22-32 | comparing is comparing instants |
| Temporal.ArithmeticExact | ros/time.go:26-44 | sums and differences are exact to the nanosecond whenever they return |
| Temporal.AddThenSub | ros/time.go:33-44 | adding and taking off again never panics and gives the same instant |
| Temporal.SubPanicsIff | ros/duration.go:25-30 | subtraction of normalised operands returns if and only if the first is later or both are written alike |
| Temporal.SubGuardedByCmp | ros/time.go:40-49 | below a full second of nanoseconds, Cmp decides whether subtraction returns |
| Temporal.FullSecondBreaksSub | ros/temporal.go:7-13 | two spellings of one instant compare equal and cannot be subtracted from each other |
| Temporal.FromNSecExact | ros/temporal.go:56-58 | inverts ToNSec, and returns exactly below 2^32 seconds, wrapped counts included |
| Temporal.Cell.FromNSec | ros/temporal.go:56-58 | writes the words in place, and leaves them alone when it panics |
| Temporal.Cell.NormalizeInPlace | ros/temporal.go:60-62 | keeps the instant, and panics only past the last second |

## Left out

- Nested messages are held as values: two fields sharing one `*DynamicMessage`, and changes made through a kept reference, do not appear.
- Generated structs: fields are slots in declaration order, so names that `ToGoName` maps together do not appear; nor do imports, go/format and the text/template engine.
- Floats are 32- and 64-bit patterns; JSON reading, writing and schemas of dynamic messages are not modelled.
- Memory: a decoder may allocate up to 2^32 elements; running out of memory is not modelled.
- Registry: a spec enters the model as a value; locking, reading files and walking directories are not modelled, and MD5 is an arbitrary function of text.
- CodecTheorems.RoundTrip: schemas with an array of messages named `ros/Time` or `ros/Duration` are excluded, since the interpreter panics on them unless the array has length zero; `ArrayPanics.PanicsIff` covers them. Generated code for such fields, array or not, does not compile.
- Cyclic message definitions, on which the original does not terminate.
- Constant values: `convertConstantValue` enters as an arbitrary predicate that says which literals a type accepts; the converted Go value is not modelled.
- DigestFaithful.DigestTextParses: definitions of builtin fields only, since the digest line of a message field holds an MD5 sum in place of its type, which is no type name.
- DigestFaithful.DigestTextIdentifies: definitions of builtin fields only; those with message fields are covered, up to MD5 collisions, by `DigestMerkle.DigestsAgreeIff`.
- Services: `LoadSrv`, `ComputeSrvMD5`, service clients and servers, and actions add framing on top of results proved here.
- Field text: white space outside Latin-1 and digits outside ASCII.
- XML lexing and escaping, strconv, base64 and float formatting: inverse pairs assumed in `XmlRpc.Lawful` (over 64-bit integers, octets, and doubles other than NaN, whose formatting loses its payload and whose text a foreign document may hold), and strings are taken as XML-valid character data.
- `reflect` cases of `emitValue` that fail (channels, functions, non-string map keys), and unsigned integers, which arrive already converted to int64.
- XmlRpcLoops.Decoder.ReadRequest: a parser that never returns is reported as `Hangs`. Of documents that are not complete calls, only those of `XmlRpcForeign.UnclosedNeverReturns` are covered.
- Sockets, dialling, HTTP, clocks, logging and the master API: outcomes are events or parameters. `WriteConnectionHeader` has no failing writer.
- Liveness: that runs get as far as those of `Lossless.RoundsDeliver`; fairness, deadlock freedom, and full channels that block a sender; only the blocking send on a nil quit channel is modelled.
- Nodes: service servers, and the panic when no port is free. A call is one step: the tables are taken to be used by one goroutine at a time.
- Callbacks added later, messages of other connections in the same job channel, connect and disconnect callbacks, and `SingleSubscriberPublisher`, which writes to a session beside fan-out.
- Transport.OrderedDelivery: one connection; `Redials.OrderedAcrossRedials` covers redials. Size timeouts that have consumed bytes and messages of 2^32 bytes or more are excluded, because the property fails with them (`Timeouts.SizeTimeoutsIff`, `Timeouts.MessageLengthsIff`).
- Delivery.MessagesArriveWhole: publications are well-typed messages; `Publish` ignores a serialisation error and sends the bytes written so far.
- `ToSec` and `FromSec`, which go through floating point, `Now`, `Sleep` and rates.
- Node start-up, environment lookup, parameter API and the gengo command line.
