# A verified model of the target agent

The target agent runs on a device, watches it and streams what it sees to a host. This project models the parts of
it that carry state or a codec, and proves what they promise: for every message, every byte stream, every
interleaving of threads and every sequence of calls.

## What is modelled

- **Wire format** (`Wire`, `WireFormat`, `WireOutput`): the primitives of the Protocol Buffers Encoding guide: varints ("Base 128
  Varints"), tags, length-delimited records, fixed-width records, groups and unknown fields.
- **Payload codec** (`PayloadCodec`, `PayloadTheorems`, `PayloadRecords`, `PayloadStream`, `PayloadOutput`,
  `PayloadMerge`, `Initialization`): the mutually recursive messages of a D-Bus payload. The bare tag switch loop is the
  specification of parsing; the parser with its jumps from field to field is a method proved equal to it. The
  serialiser writes into a buffer of exactly the size that was computed. Doubles are eight opaque bytes; the
  recursion limit is a parameter.
- **Header codec** (`HeaderCodec`, `HeaderTheorems`, `HeaderRecords`, `HeaderStream`): the header message of nineteen fields, with one
  table in place of nineteen branches.
- **Name cache** (`NameRegistry`, `MessageLaws`, `RegistryTheorems`, `DataPool`): the two indices seeded from a snapshot of the bus
  and driven by `NameOwnerChanged` ("Message Bus Messages" of the D-Bus Specification), and the headers filled in from
  them. The true owner of each name is a map of its own, and the cache is compared with it.
- **Tracing pipeline** (`Pipeline`, `PipelineProgress`): producer, consumer and stopper as interleaved steps over the mutex-protected queue,
  its flag and condition, and the two auto-reset events of the start-up.
- **Allocation tracking** (`AllocTracker`, `PreloadLibrary`, `AllocAccounting`, `AllocRuns`, `AllocFaults`): block headers,
  counters of 64-bit words, the linked list of storages with its pointer-to-pointer unlink loop, and a reader that
  tours the list, reports and reclaims while other threads allocate, release and end. A release is two steps, one for
  each of its subtractions, and the reader may come between them.
- **Socket reader** (`SocketReader`): frames put together from receives of any size, and the mode for frames that are
  larger than the buffer. The text parse of a header is an arbitrary function of 53 bytes.
- **Host connection** (`HostConnection`): acceptor, event loop and stopper as interleaved steps.
- **Value translation** (`Translation`, `TranslationFormat`, `TranslationCode`, `TranslationTheorems`, `TranslationArrays`,
  `TranslationMessages`):
  D-Bus values to message items and back, on a little-endian machine. The signature cursor that arrays are opened with is
  part of the state. The grammar of signatures is that of the "Type System" section of the D-Bus Specification; what
  libdbus does with a signature it is given is an assumption, spelled out under "Left out".
- **Report framing** (`StatsFraming`) and **WebSocket unmasking** (`WebSocket`, sections 5.2 and 5.3 of RFC 6455).

Sockets, libdbus, the C allocator, thread liveness, process and user ids, the daemon's answers and the delivery of
events are parameters of the steps: every outcome they may have is covered.

## How to read it

A plain function states what one operation computes; the method of the same component does it step by step, in place
where the original does, and is proved equal to the function. The theorems are lemmas about the functions. What both sides of a
law could have wrong together, the numbers of fields and types, constants, and which part of a message is which, is pinned
down by laws with the numbers and texts written out (`WireFormat`, `PayloadRecords`, `HeaderRecords`, `MessageLaws`,
`TranslationFormat`, and the laws of `AllocTracker`). State
machines have a function `Next` over actions, a predicate `Enabled`, and theorems over `Runs` and `Final`: every list
of actions each of which is enabled when it happens. In `AllocRuns` a run goes up to the first step in which the reader
goes wrong, that is, unlinks the last storage (`Faults`) or frees one that a release is about to write to (`Dangles`);
`AllocFaults` shows that runs get there. `dafny verify dfyconfig.toml` checks everything.

Where a promise turns out not to hold, there is a lemma with a concrete run or input, and next to it the exact
condition under which it does hold:

- giving up one name makes the cache forget the other names of that connection (`ForgetsLiveName`, `CompleteAfter`), and
  gaining a second one makes it forget the first among the aliases (`AliasesAfter`, `InverseAfter`);
- a stop notifies the consumer before it sets its flag, and can be missed (`StopCanBeMissed`, `StopThenNotify`);
- the unlink loop faults exactly when it unlinks the last storage of the list, and a run of a few steps makes it do so
  (`Library.Unlink`, `LastReclaimIsReachable`);
- the reader frees a storage in use exactly when it comes between the two subtractions of a release charged to it, and
  is safe when neither this nor the fault above is the case (`UnsafeReclaimIsReachable`, `ReclamationIsSafe`); had it asked for both counters to be zero, only the release of an
  empty block could still be under way (`BothCountersZero`);
- a wake-up, the stopper's own included, is lost when the acceptor has not reached its wait (`WakeUpCanBeErased`,
  `StopCanBeErased`, `WakeReachesWaitingAcceptor`);
- a frame larger than the buffer is sent as what its last receive left visible, so how it was cut shows
  (`CutsMatterWhenOversized`, `OversizedShowsLastReceive`, `ChunkingIndependence`);
- any short read of a report spoils it or what follows it (`ShortReadsMatter`, `FullReadsServe`, `OnlyFullReadsServe`);
- WebSocket frames are recognised only where plain `char` is unsigned; elsewhere a frame comes out as its data only if
  the data mimics the frame (`SignedCharSeesNoFrames`, `SignedCharIsAccident`, `UnmaskedAccident`);
- a variant is admitted exactly for basic contents (`VariantSignature`, `VariantAdmitted`);
- an array is opened with the type of its elements when the signature cursor has got to it and not beyond; so an array
  behind a structure does not come back, a second array does unless the first one was empty, an array of arrays of
  arrays only with at most one element, and an array in a structure or in a dictionary only if it is a dictionary
  (`OpenedInPlace`, `OneArrayComesBack`, `ArrayBehindComesBack`, `SecondArrayComesBack`, `ArrayOfArraysComesBack`,
  `ThreeDeepComesBack`, `ArrayInStructureComesBack`, `DictionaryOfArraysComesBack`);
- a value of an unknown type, such as a file descriptor, is left out on the way back (`RoundTrip`).

## Model

| member | source | states |
|---|---|---|
| Wire.VarintRoundTrip | plugins/dbusCmdCtrl-plugin/gen/target_agent_prot_dbus_monitor.pb.cc:3698-3708 | every 64-bit value written as a varint, ten-byte ones included, is read back with the rest untouched, and read as 32 bits it is truncated |
| Wire.VarintSizeExact | plugins/dbusCmdCtrl-plugin/gen/target_agent_prot_dbus_monitor.pb.cc:3790-3812 | the size taken from thresholds is the length of the encoding |
| Wire.ToInt32Inverts | plugins/dbusCmdCtrl-plugin/gen/target_agent_prot_dbus_monitor.pb.cc:3576-3588 | a negative 32-bit number travels sign-extended to 64 bits and truncates back to itself |
| Wire.LengthDelimitedRoundTrip | plugins/dbusCmdCtrl-plugin/gen/target_agent_prot_dbus_monitor.pb.cc:3638-3667 | a length-delimited record below 2 GiB is read back exactly, whatever follows it |
| Wire.SkipRoundTrip | plugins/dbusCmdCtrl-plugin/gen/target_agent_prot_dbus_monitor.pb.cc:3668-3678 | an unknown record of any wire type, groups nested within the recursion budget included, is skipped and kept as it was |
| Wire.GroupRoundTrip | plugins/dbusCmdCtrl-plugin/gen/target_agent_prot_dbus_monitor.pb.cc:3668-3678 | a whole group of unknown records is read back up to its own end tag |
| WireFormat.VarintIsShortest | plugins/dbusCmdCtrl-plugin/gen/target_agent_prot_dbus_monitor.pb.cc:3698-3708 | a number is written seven bits a byte, least significant first, the high bit set on all bytes but the last, and in as few bytes as that takes |
| WireFormat.ReadsVarint | plugins/dbusCmdCtrl-plugin/gen/target_agent_prot_dbus_monitor.pb.cc:3576-3588 | any varint of up to ten bytes, shortest or not, is read as the number of its low bits modulo 2^64 or 2^32, and no longer one |
| WireFormat.RejectsVarint | plugins/dbusCmdCtrl-plugin/gen/target_agent_prot_dbus_monitor.pb.cc:3576-3588 | and nothing else is read: the input is malformed exactly when its first ten bytes, or all it has, have the high bit set |
| WireFormat.ReadsLength | plugins/dbusCmdCtrl-plugin/gen/target_agent_prot_dbus_monitor.pb.cc:3638-3667 | a length of 2^31 or more, or of more than is left, is refused |
| WireFormat.RecordFormat | plugins/dbusCmdCtrl-plugin/gen/target_agent_prot_dbus_monitor.pb.cc:3737-3785 | a record is eight times its number plus its wire type, 0, 1, 2, 3 with 4, or 5, and its value |
| WireFormat.GroupEnds | plugins/dbusCmdCtrl-plugin/gen/target_agent_prot_dbus_monitor.pb.cc:3668-3678 | the tag that ends a group must carry its number |
| WireFormat.SpoiltTags | plugins/dbusCmdCtrl-plugin/gen/target_agent_prot_dbus_monitor.pb.cc:3668-3678 | groups deeper than the recursion budget, wire types 6 and 7 and field number zero are refused |
| WireOutput.UnknownsSizeExact | plugins/dbusCmdCtrl-plugin/gen/target_agent_prot_dbus_monitor.pb.cc:3826-3832 | the computed size of the unknown fields is the length they serialise to |
| WireOutput.WriteVarint | plugins/dbusCmdCtrl-plugin/gen/target_agent_prot_dbus_monitor.pb.cc:3737-3760 | the byte loop writes exactly the encoding at the output pointer and nothing else in the buffer |
| PayloadTheorems.ItemMerges | plugins/dbusCmdCtrl-plugin/gen/target_agent_prot_dbus_monitor.pb.cc:3564-3735 | parsing a serialised item into any existing item has the effect of merging the two and goes on with exactly what follows |
| PayloadTheorems.CompositeMerges | plugins/dbusCmdCtrl-plugin/gen/target_agent_prot_dbus_monitor.pb.cc:4209-4271 | the same law for the composite, by mutual recursion |
| PayloadTheorems.ItemRoundTrip | plugins/dbusCmdCtrl-plugin/gen/target_agent_prot_dbus_monitor.pb.cc:3564-3735 | a serialised tree parses back to itself, unknown fields included |
| PayloadTheorems.ConcatenationMerges | plugins/dbusCmdCtrl-plugin/gen/target_agent_prot_dbus_monitor.pb.cc:3859-3888 | two serialised items end to end parse as the first merged with the second |
| PayloadTheorems.ReparseIsStable | plugins/dbusCmdCtrl-plugin/gen/target_agent_prot_dbus_monitor.pb.cc:3564-3688 | whatever byte string parses, the item it gives serialises to something that parses to the same item |
| PayloadTheorems.ItemParseKeepsOk | plugins/dbusCmdCtrl-plugin/gen/target_agent_prot_dbus_monitor.pb.cc:3564-3688 | what the parser builds from any bytes stays within the recursion budget and keeps only unknown records it would skip |
| PayloadRecords.ItemFormat | plugins/dbusCmdCtrl-plugin/gen/target_agent_prot_dbus_monitor.pb.cc:3698-3735 | an item is written as the records 1 to 6 of its fields, a varint each for type, integer and unsigned integer, eight bytes for the double, a length and its bytes for text and composite, and then what is unknown |
| PayloadRecords.CompositeFormat | plugins/dbusCmdCtrl-plugin/gen/target_agent_prot_dbus_monitor.pb.cc:4257-4271 | a composite is written as one record 1 for each parameter, and what is unknown |
| PayloadRecords.ItemReads | plugins/dbusCmdCtrl-plugin/gen/target_agent_prot_dbus_monitor.pb.cc:3564-3688 | each record that may come first sets exactly the field of its number, if it has its wire type; types beyond 17 and all other records are kept as unknown, and a composite spends one level of recursion |
| PayloadRecords.CompositeReads | plugins/dbusCmdCtrl-plugin/gen/target_agent_prot_dbus_monitor.pb.cc:4209-4255 | the same for a composite, whose records 1 append a parameter |
| PayloadRecords.MessagesEnd | plugins/dbusCmdCtrl-plugin/gen/target_agent_prot_dbus_monitor.pb.cc:3564-3688 | a message ends at the end of its bytes, and at a zero tag or an end of group as well, but not as it should |
| PayloadStream.MergeItemFrom | plugins/dbusCmdCtrl-plugin/gen/target_agent_prot_dbus_monitor.pb.cc:3564-3688 | the parser that jumps from each field to the next expected tag, and stops early at the end, gives the result of the bare switch loop on every byte string |
| PayloadStream.MergeCompositeFrom | plugins/dbusCmdCtrl-plugin/gen/target_agent_prot_dbus_monitor.pb.cc:4209-4255 | the same for the composite, which holds one recursion level over a run of consecutive elements |
| PayloadOutput.ItemByteSize | plugins/dbusCmdCtrl-plugin/gen/target_agent_prot_dbus_monitor.pb.cc:3787-3840 | the pre-computed size, with the group mask 62, is the serialised length, and so is every cached size below it |
| PayloadOutput.CompositeByteSize | plugins/dbusCmdCtrl-plugin/gen/target_agent_prot_dbus_monitor.pb.cc:4291-4312 | the same for the composite and its repeated field |
| PayloadOutput.WriteItem | plugins/dbusCmdCtrl-plugin/gen/target_agent_prot_dbus_monitor.pb.cc:3737-3785 | with the cached sizes as length prefixes the writer produces the serialised item at the output pointer and leaves the rest of the buffer alone |
| PayloadOutput.SerializeToArray | plugins/dbus-monitor-plugin/src/dbus-monitor-plugin.cpp:38-51 | a buffer of exactly the computed size is filled exactly with the serialised item |
| PayloadMerge.MergeItemFromMessage | plugins/dbusCmdCtrl-plugin/gen/target_agent_prot_dbus_monitor.pb.cc:3859-3888 | the field-by-field merge under the has-bits mask 0xff computes the merge of the parsing laws |
| PayloadMerge.MergeCompositeFromMessage | plugins/dbusCmdCtrl-plugin/gen/target_agent_prot_dbus_monitor.pb.cc:4331-4340 | repeated and unknown fields are appended in order |
| PayloadMerge.MergeIsAssociative | plugins/dbusCmdCtrl-plugin/gen/target_agent_prot_dbus_monitor.pb.cc:3859-3888 | how a stream of messages is grouped does not matter |
| Initialization.AcceptedIffInitialized | plugins/dbusCmdCtrl-plugin/gen/target_agent_prot_dbus_monitor.pb.cc:3904-3911 | a serialised item is accepted at the other end exactly when no item at any depth lacks a type, and then arrives as it was |
| Initialization.InitializedTree | plugins/dbusCmdCtrl-plugin/gen/target_agent_prot_dbus_monitor.pb.cc:3904-3911 | initialized is an item in which no item at any depth lacks a type |
| Initialization.MergeInitialized | plugins/dbusCmdCtrl-plugin/gen/target_agent_prot_dbus_monitor.pb.cc:4356-4360 | a merge is initialized exactly when either side has a type and the parts of both sides are |
| Initialization.HalvesMakeAWhole | plugins/dbusCmdCtrl-plugin/gen/target_agent_prot_dbus_monitor.pb.cc:3904-3911 | two items end to end, neither of which need be acceptable alone, are accepted exactly when together they are initialized |
| Initialization.HeaderAcceptedIffInitialized | plugins/dbusCmdCtrl-plugin/gen/target_agent_prot_dbus_monitor.pb.cc:2302-2306 | a serialised header is accepted exactly when its type is set |
| Initialization.DescribedHeaderArrives | plugins/dbus-monitor-plugin/src/dbus_consumer.cpp:697-799 | the header traced for any message, whatever the cache holds, is accepted and read as it was written |
| HeaderTheorems.HeaderMerges | plugins/dbusCmdCtrl-plugin/gen/target_agent_prot_dbus_monitor.pb.cc:1348-1862 | parsing a serialised header into any header has the effect of merging them and goes on with what follows |
| HeaderTheorems.HeaderRoundTrip | plugins/dbusCmdCtrl-plugin/gen/target_agent_prot_dbus_monitor.pb.cc:1348-1862 | a serialised header parses back to itself |
| HeaderTheorems.ConcatenationMerges | plugins/dbusCmdCtrl-plugin/gen/target_agent_prot_dbus_monitor.pb.cc:2209-2286 | two serialised headers end to end parse as the first merged with the second |
| HeaderTheorems.ReparseIsStable | plugins/dbusCmdCtrl-plugin/gen/target_agent_prot_dbus_monitor.pb.cc:1348-1695 | whatever byte string parses, the header it gives round-trips |
| HeaderRecords.HeaderFormat | plugins/dbusCmdCtrl-plugin/gen/target_agent_prot_dbus_monitor.pb.cc:1697-1862 | a header is written as the records of fields 1 to 19 in order: the type and the integers 4 to 7, 10 and 15 as varints, the others as lengths and bytes, each alias in a record of its own |
| HeaderRecords.HeaderReads | plugins/dbusCmdCtrl-plugin/gen/target_agent_prot_dbus_monitor.pb.cc:1348-1695 | each record that may come first sets, or appends to, exactly the field of its number, if it has its wire type; types beyond 4 and all other records are kept as unknown |
| HeaderRecords.HeadersEnd | plugins/dbusCmdCtrl-plugin/gen/target_agent_prot_dbus_monitor.pb.cc:1348-1695 | a header ends like the messages above |
| HeaderStream.MergeHeaderFrom | plugins/dbusCmdCtrl-plugin/gen/target_agent_prot_dbus_monitor.pb.cc:1348-1695 | the header parser with its jumps gives the result of the bare switch loop on every byte string, fields in order, out of order or repeated |
| HeaderStream.MergeFromMessage | plugins/dbusCmdCtrl-plugin/gen/target_agent_prot_dbus_monitor.pb.cc:2209-2286 | merging by groups of has-bits overwrites set fields and appends the alias lists |
| HeaderStream.HeaderByteSize | plugins/dbusCmdCtrl-plugin/gen/target_agent_prot_dbus_monitor.pb.cc:2040-2190 | the size computed under the masks 126, 65024 and 458752 is the serialised length, with two-byte tags from field 16 on and ten-byte negative numbers |
| HeaderStream.SerializeToArray | plugins/dbusCmdCtrl-plugin/gen/target_agent_prot_dbus_monitor.pb.cc:1863-2038 | a buffer of exactly the computed size is filled exactly with the serialised header |
| RegistryTheorems.SoundRun | plugins/dbus-monitor-plugin/src/dbus_consumer.cpp:419-581 | over any run of true announcements the name map stays a sub-map of the bus and every alias is a name its owner holds right now |
| RegistryTheorems.ClosedRun | plugins/dbus-monitor-plugin/src/dbus_consumer.cpp:419-581 | over any run of events, true or not, every owner in the name map is a key of the service map |
| RegistryTheorems.KnownAfter | plugins/dbus-monitor-plugin/src/dbus_consumer.cpp:452-576 | exactly which names the cache knows after an announcement |
| RegistryTheorems.CompleteAfter | plugins/dbus-monitor-plugin/src/dbus_consumer.cpp:508-521 | a complete cache stays complete exactly when the old owner held no other name |
| RegistryTheorems.ForgetsLiveName | plugins/dbus-monitor-plugin/src/dbus_consumer.cpp:508-521 | from a cache seeded from a correct snapshot and equal to the bus, a true announcement removes a name that still has an owner |
| RegistryTheorems.AliasesAfter | plugins/dbus-monitor-plugin/src/dbus_consumer.cpp:452-576 | exactly which aliases each owner is given by an announcement: a gained name resets its owner's list, a name that moves to a known owner is not added |
| RegistryTheorems.InverseAfter | plugins/dbus-monitor-plugin/src/dbus_consumer.cpp:452-576 | the two indices stay inverse to each other if and only if no owner gains a name beside others it is known to hold |
| RegistryTheorems.SeededIsInverse | plugins/dbus-monitor-plugin/src/dbus_consumer.cpp:108-176 | after seeding, an owner has an entry exactly while it has names, and lists those |
| RegistryTheorems.SeedingIsExact | plugins/dbus-monitor-plugin/src/dbus_consumer.cpp:108-176 | seeding leaves the two indices inverse to each other: each name maps to its owner, each owner lists exactly its names in list order |
| RegistryTheorems.SeedingIsSound | plugins/dbus-monitor-plugin/src/dbus_consumer.cpp:156-176 | a seeded cache is closed, and sound exactly when the snapshot was correct |
| RegistryTheorems.RegistryRun | plugins/dbus-monitor-plugin/src/dbus_consumer.cpp:419-581 | seeded from a correct snapshot and driven by true announcements, the cache is sound and closed at the end |
| RegistryTheorems.ResolvedReceiverIsDescribed | plugins/dbus-monitor-plugin/src/dbus_consumer.cpp:650-695 | a receiver that resolves always gets the pid and uid recorded for its owner, and exactly those aliases that are non-empty and differ from the owner |
| RegistryTheorems.ReportedAliasesAreTrue | plugins/dbus-monitor-plugin/src/dbus_consumer.cpp:583-695 | with a sound cache every reported receiver alias is a name the receiver holds |
| RegistryTheorems.DescribedHeaderIsOk | plugins/dbus-monitor-plugin/src/dbus_consumer.cpp:697-799 | every header filled in from the cache is one the header codec carries |
| MessageLaws.AnnouncedChange | plugins/dbus-monitor-plugin/src/dbus_consumer.cpp:419-459 | a signal NameOwnerChanged of org.freedesktop.DBus itself, with three leading strings, announces that the first of them changed its owner from the second to the third; no other message announces anything |
| MessageLaws.OwnersLaw | plugins/dbus-monitor-plugin/src/dbus_consumer.cpp:452-576 | the owner of each name after any event, true or not |
| MessageLaws.ServicesLaw | plugins/dbus-monitor-plugin/src/dbus_consumer.cpp:452-576 | the service of each owner after any event, with the process and user id the daemon gives to a new one |
| MessageLaws.SeededLaw | plugins/dbus-monitor-plugin/src/dbus_consumer.cpp:108-154 | where each listed name is seeded: a name that begins with a colon at itself, another where the daemon says, or at itself if there is no reply |
| MessageLaws.HeadLaw | plugins/dbus-monitor-plugin/src/dbus_consumer.cpp:697-799 | type 1 for a call, 2 for a return, 3 for a signal, 4 for an error and 0 otherwise; the sender; the signature of a call only |
| MessageLaws.TargetLaw | plugins/dbus-monitor-plugin/src/dbus_consumer.cpp:697-799 | the receiver is the destination, or the text "broadcast" for a signal without one |
| MessageLaws.TailLaw | plugins/dbus-monitor-plugin/src/dbus_consumer.cpp:697-799 | path, interface, member and serial of calls and signals, the serial replied to of returns and errors, the name of errors, and none of them otherwise |
| MessageLaws.IdsLaw | plugins/dbus-monitor-plugin/src/dbus_consumer.cpp:605-695 | process and user id of sender and receiver, if and only if they are recorded |
| MessageLaws.NoOtherFields | plugins/dbus-monitor-plugin/src/dbus_consumer.cpp:697-799 | no other field is set |
| MessageLaws.AliasesLaw | plugins/dbus-monitor-plugin/src/dbus_consumer.cpp:605-695 | the aliases of sender and receiver are those reported for their services |
| MessageLaws.ReportedLaw | plugins/dbus-monitor-plugin/src/dbus_consumer.cpp:629-640 | reported are all recorded names but the empty one and the connection's own, in their order |
| DataPool.Pool.InsertService | plugins/dbus-monitor-plugin/src/dbus_consumer.cpp:108-154 | an insert does not overwrite, an alias is appended, a new owner is asked for its ids |
| DataPool.Pool.PopulateDataPool | plugins/dbus-monitor-plugin/src/dbus_consumer.cpp:156-176 | the loop seeds every listed name in order; the result is false whatever happens |
| DataPool.Pool.EraseNamesOf | plugins/dbus-monitor-plugin/src/dbus_consumer.cpp:508-521 | erasing while walking the map, in any order, removes exactly the names of that owner |
| DataPool.Pool.HandleChange | plugins/dbus-monitor-plugin/src/dbus_consumer.cpp:452-576 | the three branches leave the new value of both indices |
| DataPool.Pool.HandleNameOwnerChangeEvent | plugins/dbus-monitor-plugin/src/dbus_consumer.cpp:419-581 | only a signal of the bus itself with three leading strings changes the pool |
| DataPool.Pool.CollectAliases | plugins/dbus-monitor-plugin/src/dbus_consumer.cpp:629-640 | the alias loop reports the non-empty aliases other than the owner, in order |
| DataPool.Pool.CreateDbusMessageHeader | plugins/dbus-monitor-plugin/src/dbus_consumer.cpp:697-799 | the setters of every message kind, in their own order, produce the described header |
| DataPool.Pool.Process | plugins/dbus-monitor-plugin/src/dbus_consumer.cpp:65-84 | a message updates the pool before it is described |
| DataPool.SettersCommute | plugins/dbus-monitor-plugin/src/dbus_consumer.cpp:697-799 | the different order in which a signal and the other kinds fill the header does not show |
| Pipeline.MessageQueue.NotifyMessagesAvailable | plugins/dbus-monitor-plugin/src/dbus_data_pool.cpp:131-141 | raises the flag and signals only if it was down |
| Pipeline.InvariantHolds | plugins/dbus-monitor-plugin/src/dbus_data_pool.cpp:88-141 | in every state any interleaving reaches: order, wake-ups, start-up and sequential meaning together |
| Pipeline.RunsAreSequential | plugins/dbus-monitor-plugin/src/dbus_consumer.cpp:49-106 | in every interleaving the messages traced, in flight and queued are exactly those pushed, in order, and the headers sent are those of a sequential tracer |
| Pipeline.ParkedIsWoken | plugins/dbus-monitor-plugin/src/dbus_data_pool.cpp:88-141 | a consumer parked unsignalled beside a non-empty queue is only there while the producer is between push and notify, and that notify signals it |
| Pipeline.NothingBeforeSeeding | plugins/dbus-monitor-plugin/src/dbus_producer.cpp:52-83 | no message enters the queue before the cache has been seeded, and without a connection nothing is ever queued or sent |
| Pipeline.ReceiversAreDescribed | plugins/dbus-monitor-plugin/src/dbus_consumer.cpp:583-695 | in every state of every interleaving, for any events whatsoever, a receiver that resolves is described with the pid and uid recorded for its owner |
| Pipeline.LastIsDescribed | plugins/dbus-monitor-plugin/src/dbus_consumer.cpp:65-84 | the header sent last describes the last message by the cache that has taken it in |
| Pipeline.TracingIsSound | plugins/dbus-monitor-plugin/src/dbus_consumer.cpp:33-106 | in every interleaving, whatever changes of the bus the traced signals are of, the cache is sound for the bus as those changes left it |
| PipelineProgress.NoSpinning | plugins/dbus-monitor-plugin/src/dbus_data_pool.cpp:88-141 | in every interleaving the consumer finds the queue empty at most once for each message pushed and each stop |
| PipelineProgress.ParksAgain | plugins/dbus-monitor-plugin/src/dbus_data_pool.cpp:88-113 | after an empty turn the flag is down and the consumer parks |
| PipelineProgress.StartUpCannotHang | plugins/dbus-monitor-plugin/src/dbus_producer.cpp:52-83 | in every interleaving without a stop, while a thread waits in the start-up, one of the two can move |
| PipelineProgress.AnythingIsTraced | plugins/dbus-monitor-plugin/src/dbus_consumer.cpp:49-106 | for every snapshot and every list of messages there is a run that traces just those, and ends at rest |
| PipelineProgress.StopEndsTheConsumer | plugins/dbus-monitor-plugin/src/dbus_consumer.cpp:60-100 | a stopped consumer ends at the head of its loop, and so does one without a connection |
| PipelineProgress.StopThenNotify | plugins/dbus-monitor-plugin/src/dbus_handler.cpp:35-43 | a stop that set the flag first would end a consumer at rest |
| PipelineProgress.StopCanBeMissed | plugins/dbus-monitor-plugin/src/dbus_handler.cpp:35-43 | as it is, the consumer can be back at rest when the flag is set |
| PreloadLibrary.Library.AddThread | utils/lib_preload_race/src/thread_storage.c:39-60 | a new storage is linked in at the head |
| PreloadLibrary.Library.CountAllocate | utils/lib_preload_race/src/thread_storage.c:123-133 | the counters change in wrap-around arithmetic, the peak when it is exceeded or due for a reset |
| PreloadLibrary.Library.Malloc | utils/lib_preload_race/src/custom_allocs.c:33-43 | the block is charged to the calling thread's storage and its header names it |
| PreloadLibrary.Library.Calloc | utils/lib_preload_race/src/custom_allocs.c:46-58 | the same with a size that is a wrapped product |
| PreloadLibrary.Library.ReallocBlock | utils/lib_preload_race/src/custom_allocs.c:61-81 | a reallocation has the effect of a release from the old owner and an allocation by the caller |
| PreloadLibrary.Library.Free | utils/lib_preload_race/src/custom_allocs.c:84-97 | a release goes to the storage the header names, from whatever thread |
| PreloadLibrary.Library.Unlink | utils/lib_preload_race/src/thread_storage.c:71-83 | the pointer-to-pointer loop removes exactly that storage, whether or not a header still names it, keeps the order of the rest and the list linked, and faults exactly when the storage was the last |
| PreloadLibrary.Library.GetNext | utils/lib_preload_race/src/thread_storage.c:63-90 | returns the successor, reclaims the current storage if its thread is dead and its count zero, and probes the successor; headers stay anchored exactly if none named what was reclaimed |
| AllocTracker.WithoutAt | utils/lib_preload_race/src/thread_storage.c:73-81 | in a list without repetitions, dropping a storage is cutting out its position |
| AllocTracker.ReleaseIsTwoSteps | utils/lib_preload_race/src/thread_storage.c:136-140 | the two halves of a release, one after the other, are the release that the library call makes |
| AllocTracker.AllocLaw | utils/lib_preload_race/src/custom_allocs.c:33-43 | an allocation's header holds the size and names the storage of the thread, old or new at the head, which is counted up by one block and that size |
| AllocTracker.CallocLaw | utils/lib_preload_race/src/custom_allocs.c:46-58 | a calloc is of the product of its arguments modulo 2^64, in header and counter, and of the product itself if that fits |
| AllocTracker.ReleaseLaw | utils/lib_preload_race/src/custom_allocs.c:84-97 | a release counts down the storage the header names, by one block and its size, and nothing else |
| AllocTracker.ReallocIsThreeSteps | utils/lib_preload_race/src/custom_allocs.c:61-81 | a reallocation is both halves of a release and an allocation, or of the null pointer an allocation |
| AllocAccounting.AllocSane | utils/lib_preload_race/src/custom_allocs.c:33-58 | an allocation keeps every counter exact, every pointer anchored and every block in its own place, with any releases under way |
| AllocAccounting.BeginSane | utils/lib_preload_race/src/thread_storage.c:136-140 | so does the first subtraction of a release, which finds at least one block to take off |
| AllocAccounting.EndSane | utils/lib_preload_race/src/thread_storage.c:136-140 | so does the second, which finds at least the bytes it takes off |
| AllocAccounting.RoomBounds | utils/lib_preload_race/src/custom_allocs.c:33-43 | blocks that do not overlap, headers included, cannot sum to more than the address space, so no live counter overflows |
| AllocAccounting.TotalsAreConserved | utils/lib_preload_race/src/custom_allocs.c:33-97 | added up over the list, the counters are all live bytes and all live blocks whose release has not begun |
| AllocRuns.InvariantHolds | utils/lib_preload_race/src/thread_storage.c:63-156 | accounting, ownership, peaks, ledger and tour hold after every run, with the reader anywhere between the two subtractions of any number of releases |
| AllocRuns.CountersAreExact | utils/lib_preload_race/src/custom_allocs.c:33-97 | after any steps of any threads each storage's bytes are those of the blocks that name it, and its count is of those of them whose release has not begun |
| AllocRuns.ReleasesFindTheirCharge | utils/lib_preload_race/src/thread_storage.c:136-140 | neither subtraction of a release underflows or writes to a storage that is gone |
| AllocRuns.AllocationsAreCharged | utils/lib_preload_race/src/custom_allocs.c:33-81 | after any run, an allocation of any kind is of the size asked for, products modulo 2^64, and charged to the thread that asks |
| AllocRuns.ReclamationIsSafe | utils/lib_preload_race/src/thread_storage.c:63-90 | a step of the reader does not fault, frees only a storage whose thread is dead, that no header and no thread names and whose count was reported in full, and takes only it off the list, if and only if it does not free the last storage nor one that a release that has begun still names |
| AllocRuns.BothCountersZero | utils/lib_preload_race/src/thread_storage.c:67-69 | were both counters asked to be zero, only releases of empty blocks could still name the storage |
| AllocFaults.UnsafeReclaimIsReachable | utils/lib_preload_race/src/thread_storage.c:63-90 | a run after which the reader frees the storage that the second subtraction of a release writes to |
| AllocFaults.LastReclaimIsReachable | utils/lib_preload_race/src/thread_storage.c:71-83 | a run after which the reader unlinks the last storage of the list, where the loop faults |
| AllocRuns.LastStaysWhileItsThreadLives | utils/lib_preload_race/src/thread_storage.c:67-69 | a storage whose thread lives is never reclaimable, so the faulting case does not arise while the first thread lives |
| AllocRuns.ToursAreComplete | utils/lib_preload_race/src/thread_storage.c:63-90 | a tour visits every storage that was there at its start exactly once and in order, whatever is added or reclaimed meanwhile |
| AllocRuns.LedgerBalances | utils/lib_preload_race/src/thread_storage.c:143-148 | reported counts and remaining counters together are all counted allocations, with allocations between load and subtract and with storages reclaimed |
| AllocRuns.PeaksAreMaxima | utils/lib_preload_race/src/thread_storage.c:123-156 | a reported peak is the highest level since the last report, or that report if nothing was allocated |
| AllocRuns.MaxIsMaximum | utils/lib_preload_race/src/thread_storage.c:126-131 | the recursive maximum of the peak law bounds every level and is one of them |
| SocketReader.ChunkingIndependence | plugins/socket-reader-plugin/src/socket_reader_activity.cpp:67-160 | for every stream of frames that fit the buffer and every way of cutting it into receives, the messages and the state left are those of the whole-frame reference |
| SocketReader.OversizedShowsLastReceive | plugins/socket-reader-plugin/src/socket_reader_activity.cpp:75-130 | a frame larger than the buffer is sent not as its payload, but as what the last receive long enough to reach past the place of the header left there |
| SocketReader.CutsMatterWhenOversized | plugins/socket-reader-plugin/src/socket_reader_activity.cpp:75-111 | for such a frame the law fails: two cuts of the same bytes give different messages |
| SocketReader.CutsDoNotMatter | plugins/socket-reader-plugin/src/socket_reader_activity.cpp:75-111 | two ways of cutting the same stream of frames that fit give the same messages and state |
| SocketReader.FramesRoundTrip | plugins/socket-reader-plugin/src/socket_reader_activity.cpp:113-130 | well-formed frames come out one message each, in order, with data cut at the first zero byte and the header's type |
| SocketReader.FramesSplit | plugins/socket-reader-plugin/src/socket_reader_activity.cpp:75-111 | parsing can stop anywhere and go on with what was left |
| SocketReader.OversizedIs | plugins/socket-reader-plugin/src/socket_reader_activity.cpp:75-111 | a frame does not fit when 53 bytes of header and its payload, added up unsigned, take 4096 bytes or more |
| SocketReader.HeadersAlone | plugins/socket-reader-plugin/src/socket_reader_activity.cpp:113-160 | a header that does not parse or announces no payload is itself the message; one with a small negative length is an empty one |
| SocketReader.SocketReaderServer.OnSocketReadable | plugins/socket-reader-plugin/src/socket_reader_activity.cpp:75-111 | the callback on the fixed buffer does one step of the value model, in either mode; a failed receive drops the frame and keeps the type |
| SocketReader.SocketReaderServer.ExtractHeaderContent | plugins/socket-reader-plugin/src/socket_reader_activity.cpp:147-160 | the header is parsed once, and its unsigned length added to what is expected |
| SocketReader.SocketReaderServer.DispatchMessage | plugins/socket-reader-plugin/src/socket_reader_activity.cpp:113-130 | a complete frame is sent as one message and the counters reset |
| HostConnection.Controller.DispatchCommunicatorEvent | target-agent/modules/communicator/src/CComController.cpp:208-257 | a new connection makes a dispatcher; a closing deletes it and signals only while there is one |
| HostConnection.InvStep | target-agent/modules/communicator/src/CComServer.cpp:46-108 | every step of every thread keeps at most one token, the right to start a connection |
| HostConnection.SingleConnection | target-agent/modules/communicator/src/CComServer.cpp:46-108 | in every interleaving a new connection never finds a dispatcher to overwrite, none leaks, nothing is accepted beside an open one, and accepts exceed closings by at most one |
| HostConnection.ServesOneAfterTheOther | target-agent/modules/communicator/src/CComServer.cpp:46-108 | any number of hosts can be served one after the other, each by a dispatcher of its own |
| HostConnection.StopEndsAcceptor | target-agent/modules/communicator/src/CComServer.cpp:36-40 | a stop while the acceptor waits ends it |
| HostConnection.AcceptorCloses | target-agent/modules/communicator/src/CComServer.cpp:58-108 | a stopped acceptor closes at the head of its loop, and one that fails to accept at once |
| HostConnection.WakeReachesWaitingAcceptor | target-agent/modules/communicator/src/CComServer.cpp:36-108 | any wake-up, of the event loop or of the stopper, releases the acceptor in its wait and is erased by its next entry otherwise; while the server runs, the first kind only finds it in its wait or on its way there |
| HostConnection.WakeUpCanBeErased | target-agent/modules/communicator/src/CComServer.cpp:91-100 | a run that leaves the acceptor parked with nothing but a stop to wake it |
| HostConnection.StopCanBeErased | target-agent/modules/communicator/src/CComServer.cpp:36-40 | a run in which the wake-up of the stop itself is erased, so that stopper and acceptor wait for ever |
| TranslationTheorems.RoundTrip | plugins/dbusCmdCtrl-plugin/src/dbusCmdCtrl_plugin.cpp:114-182 | the arguments of a message, without 64-bit parts, come back exactly as they were if and only if all types are known, every variant holds one basic value, no structure is empty, each dictionary entry is a basic key and a value, and the elements of each array are of the first type at the cursor when it is reached |
| TranslationTheorems.WithoutArrays | plugins/dbusCmdCtrl-plugin/src/dbusCmdCtrl_plugin.cpp:114-182 | without arrays the same holds whatever signature was traced |
| TranslationTheorems.CursorIs | plugins/dbusCmdCtrl-plugin/src/dbusCmdCtrl_plugin.cpp:475-481 | after any number of items the cursor has moved one character each, up to the last array of the message and never past it |
| TranslationArrays.OpenedInPlace | plugins/dbusCmdCtrl-plugin/src/dbusCmdCtrl_plugin.cpp:365-382 | an array that as many items precede as characters, or more if it is the last, is opened with the type of its elements exactly when those are dictionary entries or what follows them is a signature |
| TranslationArrays.TypedThen | plugins/dbusCmdCtrl-plugin/src/dbusCmdCtrl_plugin.cpp:365-382 | arguments in front do not change whether what follows is a signature |
| TranslationMessages.OneArrayComesBack | plugins/dbusCmdCtrl-plugin/src/dbusCmdCtrl_plugin.cpp:114-182 | with the signature it was traced with, a message with one array comes back exactly when its types are known and its containers admitted, if the arguments before it take as many items as they have characters, as basic ones do, or more |
| TranslationArrays.BasicsAreInStep | plugins/dbusCmdCtrl-plugin/src/dbusCmdCtrl_plugin.cpp:173-182 | basic arguments take exactly as many items as they have characters |
| TranslationMessages.ArrayBehindComesBack | plugins/dbusCmdCtrl-plugin/src/dbusCmdCtrl_plugin.cpp:475-481 | behind arguments with at most one character more than items, such as a structure, an array comes back exactly when, beside, they take no fewer items than characters |
| TranslationMessages.ArrayOfArraysComesBack | plugins/dbusCmdCtrl-plugin/src/dbusCmdCtrl_plugin.cpp:114-182 | so does one with an array of arrays, however many there are in it |
| TranslationMessages.ThreeDeepComesBack | plugins/dbusCmdCtrl-plugin/src/dbusCmdCtrl_plugin.cpp:475-481 | one with an array of arrays of arrays comes back exactly when, beside, it has at most one element |
| TranslationMessages.SecondArrayComesBack | plugins/dbusCmdCtrl-plugin/src/dbusCmdCtrl_plugin.cpp:475-481 | one with two arrays, the first of one-character elements, comes back exactly when, beside, the first is not empty |
| TranslationMessages.ArrayInStructureComesBack | plugins/dbusCmdCtrl-plugin/src/dbusCmdCtrl_plugin.cpp:365-397 | one with an array in a structure comes back exactly when, beside, the array is a dictionary |
| TranslationMessages.DictionaryOfArraysComesBack | plugins/dbusCmdCtrl-plugin/src/dbusCmdCtrl_plugin.cpp:335-382 | one with a dictionary of arrays comes back exactly when, beside, it is empty or the arrays are dictionaries |
| TranslationTheorems.VariantSignature | plugins/dbusCmdCtrl-plugin/src/dbusCmdCtrl_plugin.cpp:399-472 | the signature computed for a variant is that of its content exactly when the content is basic, and empty otherwise |
| TranslationTheorems.VariantAdmitted | plugins/dbusCmdCtrl-plugin/src/dbusCmdCtrl_plugin.cpp:335-397 | a variant can be built exactly when its one value is basic |
| TranslationTheorems.ComesBackPruned | plugins/dbusCmdCtrl-plugin/src/dbusCmdCtrl_plugin.cpp:173-397 | a value whose containers libdbus admits comes back less its parts of unknown type |
| TranslationTheorems.ComesBackOnlyIf | plugins/dbusCmdCtrl-plugin/src/dbusCmdCtrl_plugin.cpp:173-397 | a value that comes back as it was has known types, admitted containers and its arrays under the cursor |
| TranslationTheorems.ShortComesBack | plugins/dbus-monitor-plugin/src/dbus_consumer.cpp:826-837 | a 16-bit number travels zero-extended and is recovered by truncation |
| TranslationFormat.TracedAs | plugins/dbus-monitor-plugin/src/dbus_consumer.cpp:820-966 | each value as the item it is traced as, with type numbers 1 to 6, 9 to 16 and 0 |
| TranslationFormat.SentSigned | plugins/dbusCmdCtrl-plugin/src/dbusCmdCtrl_plugin.cpp:184-294 | what a signed number of the host is sent as, for each type and all 64 bits |
| TranslationFormat.SentUnsigned | plugins/dbusCmdCtrl-plugin/src/dbusCmdCtrl_plugin.cpp:184-294 | the same for an unsigned number |
| TranslationFormat.SentOther | plugins/dbusCmdCtrl-plugin/src/dbusCmdCtrl_plugin.cpp:184-294 | doubles and texts as they are, and what has no value as zero or empty |
| TranslationFormat.TypeCodes | plugins/dbusCmdCtrl-plugin/src/dbusCmdCtrl_plugin.cpp:399-472 | types 1 to 12 have the codes y, b, n, q, i, u, x, t, d, s, o, g in this order, and 13 to 16 open an array, a structure, a variant and a dictionary entry |
| TranslationTheorems.WireRoundTrip | plugins/dbusCmdCtrl-plugin/src/dbusCmdCtrl_plugin.cpp:114-182 | translated, serialised, parsed, accepted and translated back the arguments are the same under that same condition, up to half the parser's recursion budget |
| TranslationCode.ParsePayloadItem | plugins/dbus-monitor-plugin/src/dbus_consumer.cpp:820-893 | the recursive walk with its do-while loop builds the item of the value; an empty container leaves the composite unset |
| TranslationCode.AppendPrimitive | plugins/dbusCmdCtrl-plugin/src/dbusCmdCtrl_plugin.cpp:184-294 | appends a basic value and says whether the type was basic |
| TranslationCode.Sender.PrototoDbusTranslation | plugins/dbusCmdCtrl-plugin/src/dbusCmdCtrl_plugin.cpp:173-397 | appends through nested iterators exactly what the item stands for under the cursor, and moves the cursor, unless libdbus refuses a container |
| TranslationCode.Sender.SendDbusMessage | plugins/dbusCmdCtrl-plugin/src/dbusCmdCtrl_plugin.cpp:114-148 | the loop builds the message of all items, from the traced signature, unless libdbus refuses a container |
| StatsFraming.FrameRoundTrip | plugins/linux-app-stats-plugin/src/stats_collector.cpp:99-125 | a report comes through as it was exactly when it has no zero byte and at most 255 bytes |
| StatsFraming.FrameText | utils/lib_preload_race/src/main_logic.c:47-51 | a frame is a dollar sign, two small hexadecimal digits, a space and the report |
| StatsFraming.ScannedText | plugins/linux-app-stats-plugin/src/stats_collector.cpp:105-115 | what scanning makes of any two characters |
| StatsFraming.StreamsRoundTrip | plugins/linux-app-stats-plugin/src/stats_collector.cpp:69-125 | however the sockets are served, from each come the first of its reports in order, with the rest still in its stream, and all of them once it is read to the end |
| StatsFraming.SendData | utils/lib_preload_race/src/main_logic.c:47-51 | what is sent from the 256-byte buffer is the frame of the report, up to 251 bytes |
| StatsFraming.Collector.ProcessMessage | plugins/linux-app-stats-plugin/src/stats_collector.cpp:99-125 | whatever number of bytes the two later reads return, the shared buffer passes on one report or drops one stray byte of that socket and touches no other |
| StatsFraming.FullReadsServe | plugins/linux-app-stats-plugin/src/stats_collector.cpp:99-125 | full reads are always possible when a message is there, and make a turn take a whole frame or a stray byte |
| StatsFraming.OnlyFullReadsServe | plugins/linux-app-stats-plugin/src/stats_collector.cpp:99-125 | of a whole message, a turn passes on the report and leaves the next one if and only if both reads were full |
| StatsFraming.ShortReadsMatter | plugins/linux-app-stats-plugin/src/stats_collector.cpp:99-125 | a header read one byte short passes on something else than the report |
| WebSocket.FrameRoundTrip | plugins/networkPacketSniffer-plugin/src/networkPacketCollector.cpp:137-197 | with unsigned plain char a text frame, masked or not, with either length field, decodes to its data exactly when that has no zero byte |
| WebSocket.UnmaskedInPlace | plugins/networkPacketSniffer-plugin/src/networkPacketCollector.cpp:175-184 | the packet is left with the data unmasked where it stands, and nothing else changed |
| WebSocket.MaskTwice | plugins/networkPacketSniffer-plugin/src/networkPacketCollector.cpp:175-184 | masking is its own inverse |
| WebSocket.LongFramesAreUnhandled | plugins/networkPacketSniffer-plugin/src/networkPacketCollector.cpp:166-171 | a 64-bit length gives no result |
| WebSocket.OtherPacketsArePrinted | plugins/networkPacketSniffer-plugin/src/networkPacketCollector.cpp:137-197 | a packet that does not begin with 0x81 is printed as it is, up to its first zero byte |
| WebSocket.SignedCharSeesNoFrames | plugins/networkPacketSniffer-plugin/src/networkPacketCollector.cpp:148-149 | with signed plain char every packet is printed raw and left as it is |
| WebSocket.SignedCharIsAccident | plugins/networkPacketSniffer-plugin/src/networkPacketCollector.cpp:137-197 | with signed plain char a frame comes out as its data exactly when the data has no zero byte and begins, byte by byte, as header, mask and masked data do, with a zero byte of the frame where it ends |
| WebSocket.UnmaskedAccident | plugins/networkPacketSniffer-plugin/src/networkPacketCollector.cpp:137-197 | without a mask that is one pair of bytes, with the wide length field |
| WebSocket.SignedCharLosesData | plugins/networkPacketSniffer-plugin/src/networkPacketCollector.cpp:148-149 | a frame that decodes with unsigned char and not with signed char |
| WebSocket.DecodeWebsockFrame | plugins/networkPacketSniffer-plugin/src/networkPacketCollector.cpp:137-197 | the moving offset finds the parts of the frame, and the packet is left unmasked in place |

## Left out

- The Protocol Buffers library itself is not part of the repository: its primitives follow the Encoding guide. A length
  beyond the end of the input and a field number of zero are errors; UTF-8 checks only log and are not modelled.
- The other messages of the protocol files, arenas, reflection, and sizes of 2 GiB and more.
- HeaderStream.MergeHeaderFrom: the nineteen near-identical branches of the generated parser are one branch over a table.
- PayloadStream.MergeItemFrom: messages are values that are rebuilt, not objects updated through pointers; sharing and
  self-merge are not captured.
- Pipeline.NothingBeforeSeeding: safety only. `PipelineProgress` says what can and what must come next; nothing is said
  about fairness, and blocking calls on the bus have no bound.
- Names that change hands between the snapshot and the match rules of the producer are not announced to the consumer; the
  soundness theorems presume a snapshot that is correct where the first traced announcement applies.
- DataPool.Pool.CreateDbusMessageHeader: requires the destination and interface the code reads without a check; serial
  numbers and ids are the signed 32-bit values the header carries.
- AllocRuns.CountersAreExact: an allocation is one step, and so is each subtraction of a release and each half of taking a
  count; a reader that sees an allocation half done, and reordering by compiler or processor, are not modelled. A
  single reader is assumed.
- AllocRuns.InvariantHolds: what happens after the reader unlinked the last storage, or freed one in use, is undefined in C
  and not modelled: runs end before that step.
- AllocRuns.LedgerBalances: presumes fewer than 2^64 allocations were counted.
- Allocation failure and requests that overflow with their header; the C library's placement promises no overlap.
- The clocks, percentages and thread names in the reports of the preloaded library.
- SocketReader.SocketReaderServer.OnSocketReadable: a receive that fills the buffer to its last byte, for a frame larger than
  the buffer, is not modelled: the zero byte put behind it falls outside the buffer.
- HostConnection.SingleConnection: safety only; the bodies of the dispatcher and of the command server are not modelled
  beyond never announcing a connection.
- TranslationTheorems.RoundTrip: 64-bit integers are read into a variable that is too small and are excluded on the way out.
- TranslationCode.Sender.PrototoDbusTranslation: libdbus is not part of the repository. The model takes it that an array is
  opened with the first single complete type, or dictionary entry, of the string that is passed; that a string which is
  no signature is refused, unless it begins with a dictionary entry; that an array or a variant takes no values of another
  type; and that empty structures and other entries than a basic key with a value do not pass. The code does not look at
  the answer; the model stops there. The limits of 255 characters and of nesting, and that entries occur only inside
  arrays, are not asked again.
- TranslationTheorems.VariantAdmitted: the signature of a variant is passed as a pointer into a temporary string that is
  destroyed before the call; the model takes it that the characters are still there.
- TranslationCode.AppendPrimitive: the address of a `std::string` is passed where libdbus expects that of a character pointer;
  the model takes it that the string object begins with its character pointer.
- StatsFraming.Collector.ProcessMessage: a header that scans as a negative length, with which the code would read without a
  bound, is not modelled; nor is the table of sockets, which queries are sent along.
- WebSocket.DecodeWebsockFrame: the packet holds the whole frame, as the code takes for granted; the Windows branch with
  its static buffer is not modelled.
- Resource monitors, timers, log plugins, the JSON line splitter and configuration setters: easy members or library
  behaviour.
