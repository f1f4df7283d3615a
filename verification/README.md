# Verification of usbscope

usbscope observes USB requests (URBs) from kernel probes, splits each observation into chunked ring records,
reassembles the records in userspace, filters the events with a three-valued expression language, and writes and
reads pcapng files and raw archives. This project models that path in Dafny and proves what it keeps:

* **Transport.** `Probe` emits the records of one observation; any ring reservation and any kernel read may fail
  (a fault oracle decides). `Reassembler` rebuilds events with an interval map and a spooled payload, and is proved
  against `Reassembly`, where an unfinished event is simply the set of bytes written so far. On top of that:
  `Transport` (fragment order does not matter), `Streams` (interleaving does not matter, every event is counted once),
  `Release` and `Acceptance` (which records are accepted, and that released means complete), `Gaps` (the bytes between
  ISO frames), `Delivery` and `EndToEnd` (exact event or reported loss), `Capture` (the same from the firing of the
  probes to the reassembled events) and `Contents` (which bytes an event carries). `Wire` has the formats byte by byte.
* **In-flight table and scatter-gather addresses.** `InFlight` (fresh ids, one terminal event, conservation of the
  counters), `History` (which firings log what, from the history of each URB alone), `ScatterGather` (the walk over chained tables), `PageMap` (`struct page` to linear address).
* **Filter.** `Filter` (evaluation, kernel prefilter), `Meaning` (connectives, two-valued reading, kernel tests),
  `FilterFields` (where fields come from), `Search` (streaming byte search), `Parser` (balancing, parsing), `Grammar`
  (accepted texts and printing).
* **Files.** `Pcapng`, `PcapngRead`, `PcapngRoundTrip` (write, read, write again), `Foreign` (files of other programs, in
  either byte order and with any interface options), `Pairing` (completions with
  submissions, source ids), `Rotation`, `Consumer` (latency, selection, limits, output), `Archive` (framing and replay),
  `Downstream` (no event is ever short of payload), `Refiltering` (filtering a file against filtering the capture).

`Bytes`, `Records` and `Arithmetic` hold the integers, encodings and products the rest uses. Source code that mutates
objects or arrays, or loops over them, is a class or a method here, proved against a function of its inputs or old
state; expression code is functions. Every failed `ensure!` or `?` in the source is `Err` and ends the run; nothing is
said about what a caller might do after one.

Assumptions: the URB, its ISO descriptors and its buffer do not change during one observation; each probe's map
accesses are one atomic step; the ring delivers records in the order they were reserved; a payload file is a byte
sequence whose unwritten holes read as zero.

Results worth knowing about the code:

* Ids are 64-bit and wrap: two submissions share an id exactly when they are a multiple of 2^64 allocations apart
  (`InFlight.FreshIds`).
* Data travels with OUT submissions and IN completions only. An observation without faults is released exactly when its
  buffer is one the program copies, with exactly those bytes (`Contents.ContentsDelivered`).
* Of repeated interface options the last one counts, and packets of a file are timed by the clock that its options
  configure (`Foreign.OptionsRead`, `Foreign.FirstPacket`).
* Every arm64 configuration that userspace accepts is accepted by the kernel side for page structs of 1 to 4096 bytes,
  except that 4 KiB pages under the layout before Linux 6.9 refuse page structs above 2048 bytes
  (`PageMap.ConfigurationAccepted`, an if and only if).
* ISO gap bytes are zero in every event released with given descriptors exactly when the frame lengths count no byte
  twice or the frames leave no gap (`Gaps.GapsZeroIff`); for all other descriptors there is a stream with a nonzero gap
  byte. The streams that `emit` produces have zero gaps with any descriptors (`EndToEnd.ExactRuns`).
* The predicates extracted from an expression are exactly those that occur in every way it can come out true
  (`Filter.RequiredExact`). The kernel gets those whose field is stable and whose value is representable, up to 64
  (`Filter.KernelPredicatesExact`).
* In a file that holds every captured event, a filter that is definite on an event read back is definite, with the same
  answer, on the captured event exactly when three things hold: error counts are used only by ISO transfers, setup
  bytes of ISO transfers are zero, and the event's latency survives flooring to microseconds
  (`Refiltering.FileFiltersAgreeIff`; a released event always knows its requested length). Latency survives when
  submission and completion fall alike within their microseconds, or when the clock stepped back across a microsecond
  boundary; otherwise a latency filter can be true of the file and not of the capture (`Refiltering.ShorterInFile`,
  `Refiltering.KnownOnlyInFile`). Filters that do not ask for latency need only the first two
  (`Refiltering.FileAnswersAgree`).
* Reading a written file returns every event in its canonical form exactly when at most 65535 submissions are unmatched
  before each submission and every matched completion has its submission's requested length. Otherwise the reader stops
  with an error or gives a completion the length its submission declared. Whenever reading succeeds, writing the result
  gives the same file byte for byte (`PcapngRoundTrip.RoundTrip`).

## Model

| member | source | states |
|---|---|---|
| Bytes.LeRoundTrip | crates/usbscope-capture/src/lib.rs:50-58 | reading little-endian bytes gives back every value that fits the width |
| Bytes.Unpack | crates/usbscope-common/src/lib.rs:173-235 | a packed list of scalars is read back field by field at the offsets where each previous one ends, whatever follows |
| Bytes.BitAndOnes | crates/usbscope-common/src/lib.rs:66 | an all-ones mask keeps every value it is wide enough for |
| Records.MetaRoundTrip | crates/usbscope-capture/src/lib.rs:60-110 | metadata takes 72 bytes; decoding returns exactly what was encoded when the decoder's conditions hold and an error otherwise |
| Records.IsoRoundTrip | crates/usbscope-common/src/lib.rs:157-224 | an ISO descriptor takes 16 bytes and is read back exactly |
| Records.EndRoundTrip | crates/usbscope-common/src/lib.rs:165-235 | an END body takes 16 bytes; copied count, descriptor count and reason are read back |
| Records.RecordRoundTrip | crates/usbscope-capture/src/lib.rs:114-124 | a published record parses back exactly, whatever unused reservation bytes follow it, and its size field is its length |
| Wire.MetaOnWire | crates/usbscope-common/src/lib.rs:128-212 | the metadata at the byte offsets of the transport ABI, each number from its bytes, lowest first, signed ones in two's complement |
| Wire.IsoOnWire | crates/usbscope-common/src/lib.rs:156-224 | an ISO descriptor as status, offset, length and four zero bytes |
| Wire.EndOnWire | crates/usbscope-common/src/lib.rs:165-235 | an END body as copied bytes, descriptor count and reason |
| Wire.RecordOnWire | crates/usbscope-common/src/lib.rs:114-126 | the 24 header bytes: version 1, kind, size with header, id and offset |
| Wire.RecordTaken | crates/usbscope-capture/src/lib.rs:114-124 | a record is taken exactly when its first bytes say version 1 and a size from 24 to 16408 that is all there; its parts are the bytes at their offsets |
| Wire.MetaTaken | crates/usbscope-capture/src/lib.rs:60-110 | metadata is accepted exactly when 72 bytes satisfy the listed conditions byte by byte, and every field is the number at its offset |
| Ranges.NormalUnique | crates/usbscope-capture/src/lib.rs:183-219 | a sorted, disjoint, non-touching range map is determined by the set of offsets it holds |
| Ranges.CoversMeansHeld | crates/usbscope-capture/src/lib.rs:266-274 | looking only at the greatest range start not above `start` decides exactly whether a whole span is held |
| Ranges.InsertMerged | crates/usbscope-capture/src/lib.rs:192-219 | inserting the merged interval after removing the ranges it met gives a normal map that holds the old offsets and the fragment's |
| Reassembler.Merge | crates/usbscope-capture/src/lib.rs:192-219 | the removal loop rejects exactly on conflicting overlap and otherwise yields the normal map of old offsets plus fragment |
| Reassembler.StoreData | crates/usbscope-capture/src/lib.rs:170-223 | range map, spooled payload and copied count after a DATA record are those of the byte-set model, and an error arises exactly where the model rejects the fragment |
| Reassembler.SoundUnique | crates/usbscope-capture/src/lib.rs:170-223 | two concrete unfinished events with the same byte-set meaning have the same range map, payload and counters |
| Reassembler.CheckFrames | crates/usbscope-capture/src/lib.rs:241-253 | the descriptor scan at END finds any frame outside the buffer and otherwise the span |
| Reassembler.CheckEnd | crates/usbscope-capture/src/lib.rs:238-305 | the END test on ranges, counters and descriptors holds exactly when the byte-set model calls the event finished |
| Reassembler.Reassembler.Push | crates/usbscope-capture/src/lib.rs:113-310 | one record: fails exactly when the model step fails, and otherwise reaches the model's state and returns the model's event |
| Reassembler.Reassembler.Finish | crates/usbscope-capture/src/lib.rs:312-315 | unfinished events are counted incomplete and dropped |
| Reassembler.Reassembler.StopAtLimit | crates/usbscope-capture/src/lib.rs:317-319 | unfinished events are dropped and no counter changes |
| Reassembly.BeginStep | crates/usbscope-capture/src/lib.rs:136-159 | a BEGIN is refused for a nonzero offset, an id under way, 4096 events under way or unacceptable metadata, and otherwise starts an empty event |
| Reassembly.StatsStep | crates/usbscope-capture/src/lib.rs:125-135 | a summary is refused unless its id and offset are zero and it has 64 bytes; it adds the numbers at 24, 32, 40 and 48 to the kernel losses, saturating |
| Reassembly.OrphanStep | crates/usbscope-capture/src/lib.rs:164-168 | a record of an event not under way counts one orphan and changes nothing else |
| Transport.FragmentsCommute | crates/usbscope-capture/src/lib.rs:170-223 | two fragments are accepted in either order or in neither, with the same result |
| Transport.FragmentOrderIndependence | crates/usbscope-capture/src/lib.rs:170-237 | any two arrangements of an event's body records that keep the ISO descriptors in order give the same acceptance, bytes, copied count and descriptors |
| Streams.BoundedRuns | crates/usbscope-capture/src/lib.rs:139-142 | the limit of 4096 unfinished events only ever adds an error: a bounded run succeeds exactly when the unbounded one does within capacity, with the same result |
| Streams.FewBegins | crates/usbscope-capture/src/lib.rs:139-142 | a stream with no more BEGIN records than free places never meets the limit |
| Streams.TakeCommutes | crates/usbscope-capture/src/lib.rs:113-310 | adjacent records of different events can be swapped |
| Streams.NonInterference | crates/usbscope-capture/src/lib.rs:113-310 | two streams with the same per-event subsequences fail alike or give the same unfinished events, released events and totals |
| Streams.Accounting | crates/usbscope-capture/src/lib.rs:125-168 | accepted BEGINs equal complete + incomplete + pending, and each END counts once as complete, incomplete or orphan |
| Release.ContentSize | crates/usbscope-capture/src/lib.rs:222 | the number of distinct bytes written never exceeds the copied count |
| Release.InFramesSize | crates/usbscope-capture/src/lib.rs:278-289 | disjoint frames contain exactly as many offsets as their lengths add up to |
| Release.SpanMeans | crates/usbscope-capture/src/lib.rs:241-253 | the span is the end of the furthest non-empty frame |
| Release.FinishedFramesExact | crates/usbscope-capture/src/lib.rs:278-289 | for disjoint frames the completeness test implies that exactly the frames' bytes were written |
| Gaps.GapsZeroIff | crates/usbscope-capture/src/lib.rs:278-289 | for given descriptors, every released event has zeros outside the frames, whatever the stream, exactly when no byte is counted twice or the frames leave no gap |
| Gaps.GapStream | crates/usbscope-capture/src/lib.rs:170-305 | for all other descriptors, a stream that releases them with a nonzero gap byte |
| Gaps.OverlapWithGap | crates/usbscope-capture/src/lib.rs:278-289 | the failing input: an event with two frames on one byte and a third beyond a gap, and a stream that releases it with a nonzero byte in the gap |
| Release.FinishedShape | crates/usbscope-capture/src/lib.rs:238-305 | the payload of a released event is exactly as long as declared and its descriptors are all present and inside |
| Release.RunExplained | crates/usbscope-capture/src/lib.rs:113-310 | every unfinished event of every run is what its own records since its BEGIN say |
| Release.ReleasedMeansComplete | crates/usbscope-capture/src/lib.rs:238-305 | a released event has every required byte supplied by one of its DATA records, agrees with every fragment, and has zeros elsewhere |
| Acceptance.FinishedIff | crates/usbscope-capture/src/lib.rs:255-305 | the END test in terms of the event's own records: reason 0, counts that agree, the payload length that kind, endpoint and transfer type call for, and every required byte supplied |
| Acceptance.EndOutcome | crates/usbscope-capture/src/lib.rs:238-305 | in every run an END is refused only for its form or a frame beyond the buffer; otherwise it ends the event, which is released exactly when its records since BEGIN are whole |
| Acceptance.BodyOutcome | crates/usbscope-capture/src/lib.rs:170-237 | in every run, exactly which DATA and ISO records of an unfinished event are accepted, in terms of the records before them: inside the payload and agreeing with earlier bytes (ISO) or disjoint from them; descriptors in order |
| Emission.CopiedFits | crates/usbscope-ebpf/src/main.rs:618-640 | the copied-byte counter of one observation cannot overflow 64 bits |
| Probe.Emitter.CopyChunk | crates/usbscope-ebpf/src/main.rs:670-703 | a chunk is published whole or not at all, and a failure counts exactly one loss of its kind |
| Probe.Emitter.CopyRange | crates/usbscope-ebpf/src/main.rs:643-667 | the contiguous loop publishes a prefix of the chunks, all of them unless it reports a reason, which is then a counted loss |
| Probe.Emitter.MeasureFrames | crates/usbscope-ebpf/src/main.rs:570-586 | success means every frame lies in the buffer and the span is exact |
| Probe.Emitter.EmitFrames | crates/usbscope-ebpf/src/main.rs:588-641 | descriptors and frame data are published in order as a prefix of the full body, whole unless a loss is counted |
| Probe.Emitter.SgRound | crates/usbscope-ebpf/src/main.rs:531-568 | one round keeps the emitted chunks equal to the bytes of the entries so far and uses up one unit of the remaining budget |
| Probe.Emitter.SgLoop | crates/usbscope-ebpf/src/main.rs:508-529 | `segments + ceil(total / CHUNK_SIZE)` rounds always suffice: the loop ends with nothing remaining or a counted loss, and cannot stop short when the entries hold enough |
| Probe.Emitter.CopySg | crates/usbscope-ebpf/src/main.rs:483-529 | scatter-gather data is published as the first `total` bytes of the entries in order, or a loss is counted |
| Probe.Emitter.CopyPayload | crates/usbscope-ebpf/src/main.rs:439-463 | the right copy path is taken; completion means a supported buffer and the whole body |
| Probe.Emitter.CopyFrames | crates/usbscope-ebpf/src/main.rs:418-438 | the same for ISO transfers, with exact copied and descriptor counts |
| Probe.Emitter.Emit | crates/usbscope-ebpf/src/main.rs:330-480 | one observation appends either its complete record stream or a truncated one together with a counted loss; without faults and with a supported buffer it is complete and no loss is counted |
| Delivery.ChunksAssemble | crates/usbscope-capture/src/lib.rs:170-223 | the chunks of a region are accepted and fill exactly that region with its bytes |
| Delivery.IsoAssembles | crates/usbscope-capture/src/lib.rs:170-237 | the records of all ISO frames, even overlapping ones, are accepted and fill exactly the frames |
| Delivery.SgAssembles | crates/usbscope-ebpf/src/main.rs:531-568 | the chunks of scatter-gather entries are accepted and fill the payload with the concatenated entries |
| Delivery.PrefixAssembles | crates/usbscope-capture/src/lib.rs:170-237 | every prefix of an observation's body is accepted |
| Delivery.CompleteBodyReleases | crates/usbscope-capture/src/lib.rs:238-305 | after the complete body the completeness test holds and what is released is the URB's own event |
| EndToEnd.BeginAcceptedIff | crates/usbscope-capture/src/lib.rs:136-159 | an observation's BEGIN is accepted exactly when its id is free and its device number is in range |
| EndToEnd.ExactRuns | crates/usbscope-capture/src/lib.rs:113-310 | the complete stream of an observation releases exactly its event and changes nothing else |
| EndToEnd.TruncationRuns | crates/usbscope-capture/src/lib.rs:113-310 | a truncated stream is never an error, releases nothing and touches no other event |
| EndToEnd.ExactEventOrReportedLoss | crates/usbscope-ebpf/src/main.rs:330-480 | for every set of observations, fault pattern and interleaving: no error, no orphan, each event released once and byte for byte, or not at all and then a kernel loss counter has increased, and nothing else released |
| EndToEnd.SessionsFit | crates/usbscope-capture/src/lib.rs:139-142 | up to 4096 observations, however interleaved, never meet the limit |
| EndToEnd.WireTransparent | crates/usbscope-capture/src/lib.rs:113-124 | pushing the bytes of a record, with padding after them, is pushing the record |
| Capture.UnpublishedPaid | crates/usbscope-ebpf/src/main.rs:337-345 | every emission that never drew a record id has been counted as a read error |
| Capture.CaptureExact | crates/usbscope-ebpf/src/main.rs:207-480 | for any run of the probes with fewer than 2^64 allocations and devices numbered at most 127, whatever its observations put on the ring and however it interleaves: no error, no orphan, each emission's event released once, exactly, with the id, kind and status of that emission, or not at all; and no more emissions missing than the kernel's loss counters say |
| Capture.ObserveOne | crates/usbscope-ebpf/src/main.rs:330-480 | `emit` run for one emission on any memory, faults and URB: what it leaves on the ring is an observation of that emission, without losses when nothing fails and the buffer is supported |
| Capture.RecordCapture | crates/usbscope-ebpf/src/main.rs:207-480 | the whole capture as it happens: the tracker observes each firing and each emission that draws a record id runs `emit` under arbitrary faults; every interleaving of what reaches the ring is then captured exactly as above (fewer than 2^64 allocations, devices at most 127) |
| Capture.HealthyReleased | crates/usbscope-ebpf/src/main.rs:330-480 | in such a capture, an observation without faults of a buffer the program supports is released, whatever befell the others |
| Contents.GatheredIsSum | crates/usbscope-ebpf/src/main.rs:531-568 | the entries of a scatter-gather table supply the sum of their lengths, or all that is asked for |
| Contents.SoundIff | crates/usbscope-ebpf/src/main.rs:330-480 | which URBs can be copied: by direction and kind, transfer type, buffer lengths, entry lengths and the round budget |
| Contents.ExactBytes | crates/usbscope-ebpf/src/main.rs:346-480 | the delivered event: as many bytes as kind and endpoint call for (requested length for OUT submissions, actual length for IN completions, the furthest frame end for ISO, otherwise none), each from its place in memory |
| Contents.ContentsDelivered | crates/usbscope-ebpf/src/main.rs:207-480 | in every capture and interleaving, an observation without faults is released exactly when its URB can be copied, once, with exactly those bytes and its own descriptors |
| InFlight.Tracker.ObserveSubmit | crates/usbscope-ebpf/src/main.rs:207-250 | the probe's table and counter updates in every case: unreadable, filtered, address reused, table full, tracked |
| InFlight.Tracker.ObserveSubmitReturn | crates/usbscope-ebpf/src/main.rs:253-269 | a failed submission closes its flight with an error event; anything else leaves the table alone |
| InFlight.Tracker.ObserveGiveback | crates/usbscope-ebpf/src/main.rs:272-286 | a readable giveback records the status the driver will see, an unreadable one only counts |
| InFlight.Tracker.ObserveUnanchor | crates/usbscope-ebpf/src/main.rs:299-327 | completion only from the giveback path, only for a tracked address, and emitted only when a status was recorded |
| InFlight.Tracker.Observe | crates/usbscope-ebpf/src/main.rs:207-327 | any one firing takes the tracker to the next state of the run |
| InFlight.ObserveAll | crates/usbscope-ebpf/src/main.rs:207-327 | a tracker that observes a whole sequence of firings is in the state of the run that the properties below speak of |
| InFlight.RunSafe | crates/usbscope-ebpf/src/main.rs:207-327 | the log and the table of flights explain each other after every sequence of probes |
| InFlight.FreshIds | crates/usbscope-ebpf/src/main.rs:124-130 | submissions are numbered in order however URB addresses are reused, so two share an id exactly when their numbers are a positive multiple of 2^64 apart |
| InFlight.TerminalOnce | crates/usbscope-ebpf/src/main.rs:253-327 | each submission has at most one terminal event, of either kind, always after it, and a completion carries the status that a giveback of that URB recorded in between (core-shims/usb.c:120-130) |
| InFlight.DistinctRecordIds | crates/usbscope-ebpf/src/main.rs:349 | observations are numbered in order, so two share a record id exactly when their numbers are a positive multiple of 2^64 apart |
| InFlight.Conservation | crates/usbscope-ebpf/src/main.rs:207-327 | the table's size is at most submitted - completed - submit errors, which is at most the size plus state errors; equal when there are none |
| History.TableFromHistory | crates/usbscope-ebpf/src/main.rs:207-327 | an address is in flight exactly when its latest accepted submission has not been closed since; its ticket is that submission's, and its status that of the latest giveback since |
| History.SubmissionLogged | crates/usbscope-ebpf/src/main.rs:207-250 | a readable, selected submission with room is logged at once as one event of kind S with status -115 and a number of its own |
| History.CompletionLogged | crates/usbscope-ebpf/src/main.rs:272-327 | unanchoring on the giveback path, after a readable giveback since the submission, logs exactly one event of kind C with the submission's ticket and the status of the latest giveback: -121 for a short transfer that forbids it, else the unlinked status |
| History.FailureLogged | crates/usbscope-ebpf/src/main.rs:253-269 | a negative return of an open submission logs exactly one event of kind E with its ticket and that error |
| History.LoggedIff | crates/usbscope-ebpf/src/main.rs:207-327 | no other firing logs anything |
| History.LogMatchesCounters | crates/usbscope-ebpf/src/main.rs:207-327 | after any run the log holds as many events of kinds S, C and E as the counters of submissions, completions and failures say |
| History.NumbersDrawn | crates/usbscope-ebpf/src/main.rs:124-130 | which firings draw a number, and how many |
| History.ReadErrorsCounted | crates/usbscope-ebpf/src/main.rs:207-345 | exactly which failed reads are counted |
| History.StateErrorsCounted | crates/usbscope-ebpf/src/main.rs:207-327 | exactly which unexpected states are counted |
| ScatterGather.StepWithin | core-shims/usb.c:218-223 | inside an array the step leads to the neighbouring entry |
| ScatterGather.StepAcross | core-shims/usb.c:218-223 | from the end of an array the step crosses the chain entry, or ends after the marked last entry |
| ScatterGather.WalkExact | core-shims/usb.c:169-225 | walking a well-formed chained table yields exactly its data entries, translated, in order, and then null |
| ScatterGather.ChainExact | crates/usbscope-ebpf/src/main.rs:537-553 | the copy loop over such a table consumes its data entries in order, as many as it is told there are |
| ScatterGather.DeliveredFromPages | crates/usbscope-ebpf/src/main.rs:483-568 | each byte of a delivered scatter-gather event is the byte at that offset of its entry's page in the linear map |
| PageMap.FindOrder | core-shims/usb.c:191-195 | the loop finds the least order whose power reaches the page-struct size |
| PageMap.LinearMapExact | core-shims/usb.c:186-189 | the linear-map bounds are the intended two's complement values and all pages fit between them |
| PageMap.LinearMapWhole | core-shims/usb.c:186-189 | start and page count of the linear map reach its end exactly: no page is left out |
| PageMap.BasesExact | core-shims/usb.c:186-202 | in both layouts the page-struct array lies above zero and below 2^64, with no unintended wrap |
| PageMap.TranslationExact | core-shims/usb.c:211-215 | the page struct of every existing page translates to its linear address plus the offset, below the end of the linear map, with no wrap |
| PageMap.TranslatesExactlyPages | core-shims/usb.c:177-214 | an address is translated exactly when it is the page struct of an existing page |
| PageMap.TranslationInjective | core-shims/usb.c:211-215 | different page structs never translate to the same address |
| PageMap.ConfigurationAccepted | src/kernel_config.rs:25-68 | a returned page shift matches the page size, and the kernel side accepts the configuration for exactly the page-struct sizes stated |
| PageMap.BasesExistIff | core-shims/usb.c:186-202 | the kernel side accepts exactly page sizes of 4, 16 and 64 KiB, 36 to 52 address bits and page structs up to 4096 bytes, 2048 for small pages under the older layout |
| PageMap.MemorySelected | src/kernel_config.rs:25-68 | userspace enables translation exactly for releases from 5.17 with a matching page and address size, and selects the newer layout from 6.9 on |
| Filter.Prefilter | crates/usbscope-ebpf/src/main.rs:167-197 | accepts exactly when the table is empty, the loop helper fails, or every present entry matches |
| Filter.KernelPredicatesExact | crates/usbscope-capture/src/filter.rs:164-191 | the kernel is given only predicates that are necessary, stable and representable, and all of them unless there are more than 64 |
| Filter.RequiredExact | crates/usbscope-capture/src/filter.rs:202-228 | a predicate is extracted exactly when it occurs in every way the expression can come out true (or, negated, false) |
| Filter.SomeWay | crates/usbscope-capture/src/filter.rs:230-267 | whenever evaluation is true (or, negated, false) all predicates of one of those ways hold |
| Meaning.AndMeans | crates/usbscope-capture/src/filter.rs:22-28 | a conjunction is true exactly when both operands are, and false exactly when one is |
| Meaning.OrMeans | crates/usbscope-capture/src/filter.rs:29-35 | a disjunction is true exactly when one operand is, and false exactly when both are |
| Meaning.NotMeans | crates/usbscope-capture/src/filter.rs:15-21 | a negation is true exactly when its operand is false, and the other way round |
| Meaning.FailureMeans | crates/usbscope-capture/src/filter.rs:230-249 | a failed payload read is passed on exactly when the left operand has not decided already |
| Meaning.ClassicalReading | crates/usbscope-capture/src/filter.rs:230-343 | on an event that knows every field an expression asks for, the answer is that of the expression read as a two-valued proposition (and, or, not) over the field values and the strings found |
| Meaning.UnknownMeans | crates/usbscope-capture/src/filter.rs:250-267 | a test of an unknown field is unknown, and so is a search without captured data |
| Meaning.NeedsLatencyIff | crates/usbscope-capture/src/filter.rs:194-201 | latency is tracked exactly when the expression asks for it somewhere |
| Meaning.BitAndBits | crates/usbscope-common/src/lib.rs:66 | a mask keeps a bit exactly when it has it |
| Meaning.KernelExact | crates/usbscope-common/src/lib.rs:52-80 | a predicate goes to the kernel exactly when its field is one of the listed ones and its value fits; there it accepts exactly the submissions on which the filter's own test is true |
| FilterFields.FieldsOnWire | crates/usbscope-capture/src/filter.rs:276-305 | fourteen fields as the bytes of the metadata record they come from, signs, endpoint number and direction included |
| FilterFields.OptionalFieldsOnWire | crates/usbscope-capture/src/filter.rs:270-306 | identity, requested, actual and length: when each is known, and the bytes it comes from |
| FilterFields.SetupFieldsOnWire | crates/usbscope-capture/src/filter.rs:307-318 | setup fields: known exactly with a setup packet, and the bytes they come from |
| FilterFields.PayloadFieldMeans | crates/usbscope-capture/src/filter.rs:319-341 | a payload field is its bytes read highest first, known exactly when all of them were captured, for ISO in one frame |
| Filter.KernelPrefilterSound | crates/usbscope-capture/src/filter.rs:164-228 | if the expression is true on an event, every kernel predicate accepts every submission that agrees on the stable fields |
| Filter.PrefilterNeverDropsAMatch | crates/usbscope-ebpf/src/main.rs:167-197 | the kernel's loop over the installed predicates accepts such a submission |
| Filter.DefiniteAnswersStable | crates/usbscope-capture/src/filter.rs:230-343 | a definite answer is not changed by knowing more fields |
| Filter.AnswersKeptIff | crates/usbscope-capture/src/filter.rs:230-343 | all definite answers carry over from one event to another with the same data exactly when every known field does |
| Filter.LearningKeepsAnswers | crates/usbscope-capture/src/filter.rs:270-283 | learning identity, requested length or latency never changes a definite answer |
| Filter.LatencyIrrelevant | crates/usbscope-capture/src/filter.rs:194-201 | an expression that does not need latency evaluates alike whatever it is |
| Filter.EvaluateNeverFails | crates/usbscope-capture/src/filter.rs:319-341 | evaluation cannot read past the payload of an event that holds what it promises |
| Search.BuildTable | crates/usbscope-capture/src/filter.rs:348-358 | each entry is the longest proper border of its prefix |
| Search.Advance | crates/usbscope-capture/src/filter.rs:375-385 | one byte: the new match length is the longest suffix of the text that is a prefix of the needle |
| Search.SearchRange | crates/usbscope-capture/src/filter.rs:369-388 | a range read in 16384-byte chunks gives the result on the whole range, including a failing read |
| Search.ScanMeans | crates/usbscope-capture/src/filter.rs:345-390 | on readable ranges the answer is true exactly when the needle occurs wholly inside one of them |
| Search.Search | crates/usbscope-capture/src/filter.rs:345-390 | the streaming search over an event's captured ranges equals the naive one |
| Search.ContainsMeans | crates/usbscope-capture/src/filter.rs:345-395 | on a full payload `contains` is true exactly when the needle occurs at some position inside the captured data, for ISO wholly inside one frame: never across two frames nor in padding |
| Parser.BalancePreservesMeaning | crates/usbscope-capture/src/filter.rs:662-680 | balancing any non-empty list evaluates as the left-to-right chain does, errors included |
| Parser.CeilLog2Exact | crates/usbscope-capture/src/filter.rs:662-680 | the bound used for heights is the least exponent whose power reaches the list length |
| Parser.Balanced | crates/usbscope-capture/src/filter.rs:662-680 | the pairing loop builds a tree with the chain's meaning, no taller than the tallest operand plus ceil(log2 n) |
| Parser.TokenParser.Or | crates/usbscope-capture/src/filter.rs:482-488 | the `or` loop consumes exactly what the grammar function says, from the current position and depth |
| Parser.TokenParser.And | crates/usbscope-capture/src/filter.rs:489-501 | the same for `and`, explicit or implied |
| Parser.TokenParser.Unary | crates/usbscope-capture/src/filter.rs:502-519 | the same for negation, parentheses and predicates; success consumes at least one token and restores the depth |
| Parser.ParseTokens | crates/usbscope-capture/src/filter.rs:137-153 | parsing from tokens on: no tokens select every event, leftover tokens are an error, and otherwise the result is the grammar function's |
| Grammar.GrammarExact | crates/usbscope-capture/src/filter.rs:137-153 | a token text is accepted exactly when it is empty or spells a tree of the grammar, `and` explicit or implied, of at most 128 levels |
| Grammar.MeaningExact | crates/usbscope-capture/src/filter.rs:482-519 | and then it evaluates as every tree that it spells; the empty text selects everything |
| Grammar.PrintedParses | crates/usbscope-capture/src/filter.rs:482-519 | a printed expression parses back to one with the same meaning exactly when its nesting is within 128 |
| Pcapng.WriteAllAppend | crates/usbscope-capture/src/pcapng.rs:32-122 | writing a list and then one more event is writing the longer list |
| Pcapng.FillHeader | crates/usbscope-capture/src/pcapng.rs:68-103 | filling the zeroed 64-byte array field by field gives the pseudoheader |
| Pcapng.PacketSize | crates/usbscope-capture/src/pcapng.rs:48-67 | a packet block is exactly as long as it says, a multiple of four |
| Pcapng.HeaderStartRead | crates/usbscope-capture/src/pcapng.rs:69-92 | every field of the first 40 pseudoheader bytes is found at its offset |
| Pcapng.HeaderEndRead | crates/usbscope-capture/src/pcapng.rs:99-102 | every field of the last 16 pseudoheader bytes is found at its offset |
| Pcapng.PacketFieldsRead | crates/usbscope-capture/src/pcapng.rs:62-67 | type, length, interface, both timestamp halves and both packet lengths are found at their offsets |
| Wire.PseudoheaderOnWire | crates/usbscope-capture/src/pcapng.rs:68-103 | the 64 pseudoheader bytes as written, `<`, `>` or 0 for the data flag by direction and presence included |
| Wire.MiddleOnWire | crates/usbscope-capture/src/pcapng.rs:93-98 | bytes 40 to 48: error and descriptor counts of ISO transfers, the setup packet where there is one, zeros otherwise |
| Wire.PacketOnWire | crates/usbscope-capture/src/pcapng.rs:48-67 | type, total length, interface, microsecond time in two halves and both packet lengths of a packet block, by offset |
| Wire.BodyOnWire | crates/usbscope-capture/src/pcapng.rs:103-119 | what follows: pseudoheader, descriptors, payload, zero padding and the total length again |
| Wire.DescriptorsOnWire | crates/usbscope-capture/src/pcapng.rs:104-108 | descriptor `i` is the 16 bytes at `16 * i` |
| Wire.FileStart | crates/usbscope-capture/src/pcapng.rs:15-30 | a file begins with exactly these 48 bytes: section header and USB interface |
| Pcapng.Writer.AllocateInterface | crates/usbscope-capture/src/pcapng.rs:33-45 | a source keeps its index; a new one gets the next, announced unless it is the first; the byte count stays exact |
| Pcapng.Writer.WritePacket | crates/usbscope-capture/src/pcapng.rs:47-121 | fails exactly when the lengths do not fit or the payload is short, and otherwise appends one packet block |
| Pcapng.Writer.Write | crates/usbscope-capture/src/pcapng.rs:32-122 | writing an event in place is the write function on the writer's state, and `bytes` equals the output length |
| PcapngRead.ScalarsMean | crates/usbscope-capture/src/pcapng_read.rs:18-37 | 16, 32 and 64-bit scalars of either byte order, digit by digit |
| PcapngRead.ResolutionExact | crates/usbscope-capture/src/pcapng_read.rs:128-135 | a resolution byte means 10^v ticks a second up to 10^19, 2^(v-128) up to 2^63, and nothing else |
| PcapngRead.CommonResolutions | crates/usbscope-capture/src/pcapng_read.rs:128-135 | 3, 6, 9 and 138 mean milli-, micro-, nanoseconds and 1024 ticks a second |
| PcapngRead.TimestampFloors | crates/usbscope-capture/src/pcapng_read.rs:166-172 | a packet's time is the last whole nanosecond not after its tick, plus the interface offset, and an error outside 64 bits |
| PcapngRead.ScanOptions | crates/usbscope-capture/src/pcapng_read.rs:115-143 | the option loop computes the option function, padding and end marker included |
| PcapngRead.ScanDescriptors | crates/usbscope-capture/src/pcapng_read.rs:256-281 | the descriptor loop accepts and returns exactly what the descriptor function does |
| PcapngRead.Reader.UsbPacket | crates/usbscope-capture/src/pcapng_read.rs:185-326 | the pairing table, loss count and event after one packet |
| PcapngRead.Reader.NextBlock | crates/usbscope-capture/src/pcapng_read.rs:66-334 | one block of any kind: fails exactly when the block function fails, and otherwise reaches its state |
| PcapngRead.Reader.Next | crates/usbscope-capture/src/pcapng_read.rs:65-335 | skips to the next event or the end of input |
| Foreign.UnpackIn | crates/usbscope-capture/src/pcapng_read.rs:18-37 | fields packed in either byte order are read back at their running offsets in that order |
| Foreign.OptionsRead | crates/usbscope-capture/src/pcapng_read.rs:115-143 | any padded option list in either byte order: accepted exactly when every resolution has one byte and fits 64 bits and every offset eight bytes; the last resolution and the last signed offset count, other options change nothing |
| Foreign.OptionsBroken | crates/usbscope-capture/src/pcapng_read.rs:115-143 | an end marker with a value, or an option longer than what is left, is an error after any options |
| Foreign.BlockTaken | crates/usbscope-capture/src/pcapng_read.rs:97-103 | a whole block of any kind, in its own byte order, is taken whole |
| Foreign.TakenIsBlock | crates/usbscope-capture/src/pcapng_read.rs:66-103 | nothing but a whole block is taken: lengths at both ends, a multiple of four |
| Foreign.NothingBeforeSection | crates/usbscope-capture/src/pcapng_read.rs:66-97 | a file that does not begin with a section header is an error |
| Foreign.SectionBlockRead | crates/usbscope-capture/src/pcapng_read.rs:74-97 | a section header of either byte order starts afresh in that order and keeps source ids; a major version other than 1 is an error |
| Foreign.InterfaceBlockRead | crates/usbscope-capture/src/pcapng_read.rs:105-150 | an interface block adds the next interface with the clock that its options configure, microseconds without any |
| Foreign.OtherBlockRead | crates/usbscope-capture/src/pcapng_read.rs:327-334 | unknown kinds are skipped; the two obsolete packet kinds are errors |
| Foreign.PacketBlockRead | crates/usbscope-capture/src/pcapng_read.rs:152-184 | a packet's time is that of its ticks on its interface's clock; bad interfaces, times and lengths are errors, short captures counted losses |
| Foreign.FramesRead | crates/usbscope-capture/src/pcapng_read.rs:256-281 | descriptors in either byte order are read back, and refused exactly when one lies outside the buffer or the data |
| Foreign.UsbPacketRead | crates/usbscope-capture/src/pcapng_read.rs:185-326 | every USB packet in either byte order is exactly one of: an error, a counted loss (data that kind, endpoint and length call for is missing, or of another length), or the event of its fields, with the requested length if known |
| Foreign.DescriptorsCutShort | crates/usbscope-capture/src/pcapng_read.rs:223-230 | a packet too short for the descriptors it announces is an error |
| Foreign.FirstPacket | crates/usbscope-capture/src/pcapng_read.rs:65-335 | whole files: section, interface with any options, packet, in either byte order; the event's time is that of its ticks on the configured clock |
| Foreign.CommonClocks | crates/usbscope-capture/src/pcapng_read.rs:128-172 | with if_tsresol 9 ticks are nanoseconds, without options microseconds |
| PcapngRoundTrip.WriteAllEmits | crates/usbscope-capture/src/pcapng.rs:32-122 | a list can be written exactly when every event fits its block and sources stay countable |
| PcapngRoundTrip.NeverLooksLost | crates/usbscope-capture/src/pcapng_read.rs:302-317 | no released event is classified as loss when read back, whatever length its submission declared |
| PcapngRoundTrip.DescriptorsRead | crates/usbscope-capture/src/pcapng_read.rs:256-281 | a released event's descriptors come back unchanged, or are refused exactly when one exceeds the length the reader knows |
| PcapngRoundTrip.UsbRead | crates/usbscope-capture/src/pcapng_read.rs:185-326 | the packet of a released event is refused exactly when the table is full or a frame exceeds the declared length, and otherwise read as that event, up to what the format omits, with the length its submission declared; the pairing table moves on |
| PcapngRoundTrip.PacketBlockRead | crates/usbscope-capture/src/pcapng_read.rs:152-326 | a written packet block at the front of any input is refused or consumed whole, yielding its event, under the same conditions |
| PcapngRoundTrip.InterfaceRead | crates/usbscope-capture/src/pcapng_read.rs:105-150 | a written interface block announces one more microsecond USB interface with the next source id |
| PcapngRoundTrip.SectionRead | crates/usbscope-capture/src/pcapng_read.rs:74-97 | the written section header opens a little-endian section |
| PcapngRoundTrip.ReadsBack | crates/usbscope-capture/src/pcapng_read.rs:65-335 | from any point inside a written file the reader fails exactly at the first event that it cannot accept, and otherwise returns every remaining event in order, with declared lengths, and counts no loss |
| PcapngRoundTrip.ReturnedIff | crates/usbscope-capture/src/pcapng_read.rs:236-249 | what is returned is every event in its canonical form exactly when fewer than 65536 submissions are unmatched and completions agree with their submissions on requested length |
| PcapngRoundTrip.SameBytes | crates/usbscope-capture/src/pcapng.rs:32-122 | writing the events as read produces the same bytes, whatever requested lengths were read |
| PcapngRoundTrip.RoundTrip | crates/usbscope-capture/src/pcapng.rs:32-122 | for any released events that fit their blocks: reading the written file returns the same events in order, up to the omitted fields, microsecond time and renumbered sources, exactly when at most 65535 submissions are unmatched before each submission and completions agree with theirs on requested length; whenever reading succeeds it counts no loss, and writing what was read gives a byte-identical file |
| Pairing.TableIsLatest | crates/usbscope-capture/src/pcapng_read.rs:236-249 | the table holds a key exactly when the latest packet with it was a submission, with that packet's value |
| Pairing.PacketPairs | crates/usbscope-capture/src/pcapng_read.rs:152-326 | a packet block either only counts a loss or is one packet tracked by the table |
| Pairing.RunTracks | crates/usbscope-capture/src/pcapng_read.rs:65-335 | after any blocks of any file the table is that of the section's packets, source ids count interfaces across sections, and every packet block was returned or counted |
| Pairing.ReaderPairsByLatest | crates/usbscope-capture/src/pcapng_read.rs:236-249 | a completion's requested length is known exactly when the latest packet of its source and URB was a submission, and is that packet's length |
| Pairing.SourcesNeverReused | crates/usbscope-capture/src/pcapng_read.rs:92-95 | interfaces anywhere in a file share a source id only when they are the same interface of the same section |
| Rotation.WriteKeepsGreedy | src/output.rs:79-106 | one event keeps every file filled only while under both limits and every closed file closed because it was full |
| Rotation.WriteContents | src/output.rs:79-106 | an accepted event is appended to the concatenated contents, rotation or not, and a refused one changes nothing |
| Rotation.WriteRotates | src/output.rs:79-106 | an event starts a new file exactly when the current one has reached its size in bytes or its age in whole seconds, and is refused exactly when no further file is allowed |
| Rotation.RotationPartitions | src/output.rs:79-106 | after any run the files' events concatenate to the accepted ones in order, at most `max_files` files exist, and a refusal means the last permitted file is full |
| Rotation.CaptureOutput.WriteEvent | src/output.rs:79-106 | the object's files, index, counters and start time after an event, with closed files' bytes exactly those of their events |
| Consumer.Session.Pair | src/main.rs:334-346 | latency and pairing table after one event, and the limit on unmatched submissions |
| Consumer.Session.ConsumeEvent | src/main.rs:331-390 | one event through pairing, selection, filter and output; the result says when to stop |
| Consumer.LatencyPairsByLatest | src/main.rs:333-346 | latency is the time since the latest earlier packet of the same source and URB if that was a submission, whatever the filter selects |
| Consumer.WrittenFromStart | src/main.rs:331-390 | the events written are the first of those that pass, in order; stopping means that exactly as many as asked for were written, or that the last permitted file has reached its size or age |
| Consumer.TakeUp | crates/usbscope-ebpf/src/main.rs:153-198 | the probe takes up a submission exactly when it is on the bus and device asked for and passes every installed test, or the loop fails |
| Consumer.AcceptedIsTakenUp | src/main.rs:331-350 | whatever the consumer accepts, the kernel takes up at its submission: selecting in the kernel loses nothing that is asked for |
| Consumer.ConsumeFails | src/main.rs:331-390 | a running consumer whose filter evaluates fails exactly on the 65537th unmatched submission under a latency filter or when the output fails on an accepted event |
| Archive.FramesReadBack | crates/usbscope-capture/src/lib.rs:352-374 | reading gives back exactly the framed records when each is as long as its header says, and an error otherwise |
| Archive.TruncationNoticed | crates/usbscope-capture/src/lib.rs:352-374 | a cut archive either fails to read or loses whole records from its end |
| Archive.SummaryIsFrame | crates/usbscope-capture/src/lib.rs:322-341 | the kernel summary is written as one more framed record that parses as a counter summary |
| Archive.ArchiveOnDisk | crates/usbscope-capture/src/lib.rs:322-374 | an archive on disk: eight magic bytes, then each record behind its length in four bytes, lowest first, the summary last |
| Archive.ReplayExact | src/main.rs:406-416 | replaying a finished capture releases the same events and ends in the live state plus the kernel's losses |
| Archive.ReplayReportsLosses | src/main.rs:441-494 | a replay reports, up to saturation, the sum of incomplete, unfinished and orphan events and the kernel's ring, read, buffer and state losses |
| Archive.RawReader.ReadNext | crates/usbscope-capture/src/lib.rs:352-374 | consumes one record, or reports the end of the archive |
| Downstream.ReleasedNeverShort | crates/usbscope-capture/src/pcapng.rs:109-117 | on a released event no filter evaluation fails and the writer's payload check never fires |
| Downstream.ReadNeverShort | crates/usbscope-capture/src/pcapng_read.rs:284-326 | the same for every event read from any file; its payload is as long as declared and nothing it promises is missing |
| Refiltering.FileAnswersAgree | crates/usbscope-capture/src/filter.rs:230-343 | in a whole written file, a definite answer of a filter that does not ask for latency is the answer on the captured event, whatever the latencies |
| Refiltering.FlooredGap | crates/usbscope-capture/src/pcapng.rs:62 | latency from a file is less than a microsecond off, equal exactly when both times fall alike in their microsecond, and known to the file alone when the clock stepped back within one microsecond |
| Refiltering.FileLatency | src/main.rs:333-346 | for every event of a file that holds the whole capture, the latency recomputed from the file, if any, is the live one exactly when the times of the latest submission and the completion are kept |
| Refiltering.FileFiltersAgreeIff | src/main.rs:331-350 | for every event of a file that holds the whole capture, every filter definite on the file is equally definite on the capture exactly when the event's fields and its latency are kept |
| Refiltering.FileSelectsNoMore | src/main.rs:347-350 | then filtering the file selects no event that filtering the capture would not |
| Refiltering.ShorterInFile | src/main.rs:333-346 | submission at 1000 ns, completion at 2500 ns: a latency filter true of the file and false of the capture |
| Refiltering.KnownOnlyInFile | src/main.rs:333-346 | submission at 1900 ns, completion at 1100 ns: a latency filter true of the file and unknown on the capture |

## Left out

- Error messages: every failure is one `Err`, and no order among failures of one record or block is modelled.
- Counters of complete, incomplete and orphan events are unbounded naturals; only the kernel loss total saturates.
- Attaching probes, kernel symbol lookup, polling, clocks and signals (src/live.rs): operating-system plumbing; a record is taken as already cut to its header size.
- Reading kernel structures field by field (core-shims/usb.c:64-118, 134-149): the result is an abstract URB snapshot, and any read may fail; unlike the program, one call of the fault oracle stands for all reads of one accessor.
- The x86_64 page bases are read from kernel memory, so only their use in translation is modelled; that they are right is not.
- BPF verifier constraints, reservation sizes chosen from constants, and a missing configuration or statistics map: the maps are assumed present.
- Callback contexts of `bpf_loop` are local variables of the methods that run the loops.
- Real memory ordering and ring buffer internals.
- Counting scatter-gather events: the counter appears only in the kernel summary.
- Tokenizing, field and keyword tables, numbers and durations (crates/usbscope-capture/src/filter.rs:397-447, 520-658, 681-710): parsing starts from tokens with predicates already read.
- Printed lines, ISO statistics (src/audio.rs), the device list and path checks: user interface and simple counters.
- File creation in src/output.rs can fail when a file exists; here opening a file always succeeds, and file names are not modelled.
- Flushing and write errors of the output stream: output is a byte sequence that only grows.
- The pcapng reader is given its whole input as a byte sequence rather than a stream.
- That the kernel's configuration text describes the running kernel: translation is proved relative to the configured page size, address bits and layout.
