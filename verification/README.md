# Verified model of the streaming cores

A Dafny model of the protocol, state-machine and arithmetic cores of the screen-casting
program, with proofs of what each of them keeps over whole runs.

| Files | What they model |
|---|---|
| `SegmentRing.dfy`, `RingHistory.dfy`, `Playlist.dfy` | the low-latency HLS segment ring, refined against the full history of everything pushed, and the playlist built from it |
| `Routes.dfy`, `ReloadQuery.dfy`, `Decimal.dfy` | request paths, byte ranges, the blocking-reload query, and the answers they get |
| `BlockingReload.dfy` | any number of waiting requests interleaved with the segmenter's writes |
| `Calendar.dfy`, `HttpDate.dfy` | the closed-form calendar conversion and the Date header |
| `CounterMode.dfy`, `Mirroring.dfy`, `Reassembly.dfy`, `SenderReports.dfy`, `RtcpXr.dfy` | the Cast Streaming packetizer, its per-packet counter mode, its counters and sender reports, a receiver for the packets, and RTCP extended reports |
| `Supervisor.dfy`, `ReceiverSession.dfy`, `Pacing.dfy` | the reconnecting stream task, the receiver session with its pump tasks, keyframe pacing |
| `Adaptive.dfy`, `AdaptiveThreads.dfy` | the adaptive bitrate controller, called in sequence and under every interleaving of its atomic accesses |
| `CastFraming.dfy`, `Tlv.dfy` | length-prefixed messages over a byte stream, and TLV8 |
| `DmabufFeedback.dfy`, `FrameCapture.dfy`, `AudioClock.dfy` | dmabuf feedback resolution, row repacking, giving up on dmabuf, audio presentation times |
| `Bytes.dfy`, `Numbers.dfy`, `Wrappers.dfy` | octets, byte orders, exclusive or; machine bounds; optional and failing results |

How the pieces fit. Objects that the program updates in place are classes (`SharedRing`,
`MirrorStream`, `ReportingStream`, `AdaptiveBitrateState`, `Connection`, `FeedbackState`, `Worker`,
`KeyframePacer`, `UserData`), and loops are methods. Each method is proved equal to a function
on values, and the theorems are about those functions and about runs of them. Concurrent parts
are state machines whose steps are the atomic accesses or await points of the code, in any
order. Clocks, the network and the outcome of outside calls are inputs.

Where the code does not do what its comments say, or where a natural property is false of it,
the model follows the code and states exactly when the property holds:

- A byte range outside the body: the comment on `resolve_range` promises a 200 answer, the
  handler sends the whole body as 206 (`Routes.PastTheEnd`). The Content-Range of such an answer is
  true of the octets sent if and only if there are any (`Routes.PartialMatchesRequest`,
  `Routes.EmptyBodyAnnounced`).
- A plain `push` while parts are pending makes reached points unreached; nothing else does
  (`RingHistory.ReachedMonotone`). The segmenter never does that (`RingHistory.SegmenterModes`).
  A ring of capacity zero would forget as well (`RingHistory.NoRoomForgets`); callers demand three.
- The failure counter is meant to be reset by a long healthy streak, but the test reads a time
  that only a successful reconnect writes. `Supervisor.OutageGivesUpExactly` says when an outage
  is given up, and `Supervisor.EndlessRun` is a run, honouring every back-off, that stays at attempt 1 for ever.
- `recv` promises "no message" only on a clean end of stream; it also answers so with part of a
  frame left in the buffer (`CastFraming.CutStream`).
- A capacity reading between the target and its double is said to pull the target down; it raises
  it exactly when seven tenths of the reading lie above it and there is room (`Adaptive.CapacityMoves`).
- The minimum gap between two moves holds for one caller unless the first move is made at time
  zero (`Adaptive.GapExactly`), which takes a clock too coarse to tell several readings from its
  anchor (`Adaptive.TwoMovesAtZero`). For several callers it holds as long as nobody touches the
  time of the last move while another call is about to store it (`AdaptiveThreads.MovesAreSpaced`);
  without that there are two ways for it to fail (`AdaptiveThreads.TwoMovesInsideCoolDown`,
  `AdaptiveThreads.MovesAfterStaleWriter`).
- The first sender report is meant to follow the first video frame. It goes out ahead of it, with
  media time zero, if and only if the session has audio and two audio frames come first
  (`SenderReports.FirstVideoReport`).
- A waiting request whose deadline passes between its last check and its park answers "not reached"
  even if a write came in between (`BlockingReload.LateWrite`).
- A LOAD that finds no sink or decoder drops the puller it opened without closing it
  (`ReceiverSession.PullersAccountedFor`).
- The sender report's octet count includes all headers, unlike section 6.4.1 of RFC 3550.
- `packet_id` has 16 bits: a frame is put together again if and only if it has 1 to 65536 chunks
  (`Reassembly.RoundTripInAnyOrder`). Frame numbers have 32 bits: after 2^32 frames counter blocks
  repeat (`Reassembly.CountersRepeatAfterWrap`).
- The Date header reads back exactly up to the end of year 9999 (`HttpDate.FormatRoundTrip`).
- Constant pressure of 70 lowers the bitrate if and only if the average starts at 7000 or more
  (`Adaptive.SeventyDownshiftsExactly`).
- Audio times advance by the configured rate and channel count while frames announce the negotiated
  ones. They agree if and only if both are the same (`AudioClock.KeepsAnnouncedFormat`), or, for
  buffers whole in both formats, rate times channel count is (`AudioClock.KeepsAnnouncedFormatWhole`);
  `AudioClock.OneSecondOff` and `AudioClock.MonoOneSecondOff` are runs a second off.

## Model

| member | source | states |
|---|---|---|
| SegmentRing.SharedRing.constructor | crates/hls/src/ring.rs:86-96 | a new ring is empty and numbers its first segment 0 |
| SegmentRing.SharedRing.AddPendingPart | crates/hls/src/ring.rs:115-135 | exactly the part given goes to the end of the pending ones with its position as 32-bit index, nothing stored changes, waiters are woken, and the returned pair is where it can be found |
| SegmentRing.SharedRing.Append | crates/hls/src/ring.rs:137-175 | the eviction loop leaves exactly the newest `capacity` segments; pending parts are gone, the number advances, the discontinuity count saturates |
| SegmentRing.PushStores | crates/hls/src/ring.rs:157-172 | the segment pushed is the newest stored, as given, and nothing is pending |
| SegmentRing.SharedRing.CloseSegment | crates/hls/src/ring.rs:177-189 | the pending parts, and no others, become the parts of the closed segment |
| RingHistory.RingRefinesHistory | crates/hls/src/ring.rs:118-197 | after any writes the ring holds exactly the newest min(pushes, capacity) segments ever closed, numbered without gaps up to the next number, and a lookup finds a segment exactly when it is one of the last `capacity`, equal to the history's entry |
| RingHistory.PartStable | crates/hls/src/ring.rs:199-209 | a part that could be fetched while pending is that same part after its segment closes, until the segment is evicted |
| RingHistory.GetPartMeaning | crates/hls/src/ring.rs:199-209 | a part lookup told from the history: the part at that place of a segment still stored or being built, and nothing otherwise |
| RingHistory.PartAsWritten | crates/hls/src/ring.rs:115-209 | told from the writes alone: until its segment is evicted a part is found at its place with exactly the octets, duration, flag and time of the write that added it, and after that not at all |
| RingHistory.SegmentAsWritten | crates/hls/src/ring.rs:137-197 | the same of a segment, from the write that closes it |
| RingHistory.RingCounts | crates/hls/src/ring.rs:118-175 | segment number, pending parts, wake-ups and saturated discontinuity count are the counts of the writes made |
| RingHistory.SegmentStable | crates/hls/src/ring.rs:195-197 | a segment number never names two different segments along a run |
| RingHistory.FirstSeqMonotone | crates/hls/src/ring.rs:167-169 | eviction only moves forward |
| RingHistory.HasReachedMeaning | crates/hls/src/ring.rs:211-237 | `has_reached` told from the unbounded history: evicted, closed with a part far enough, or pending with a part far enough |
| RingHistory.ReachedByCounts | crates/hls/src/ring.rs:211-237 | the same by numbers: the segment is gone, or closed with more parts than the one asked for, or being built with more |
| RingHistory.ReachedMonotone | crates/hls/src/ring.rs:115-237 | one write keeps all reached points reached if and only if it is not a plain push over pending parts |
| RingHistory.ReachedForever | crates/hls/src/ring.rs:115-237 | through pending, closed and evicted, over whole runs, a reached point stays reached |
| RingHistory.NoRoomForgets | crates/hls/src/ring.rs:167-169 | without room for one segment a reached point is lost when its segment closes |
| RingHistory.SegmenterModes | crates/hls/src/segmenter.rs:589-664 | both ways the segmenter writes never push over pending parts |
| Playlist.Target | crates/hls/src/ring.rs:241-252 | the scan yields the target duration of the specification: minimum, longest positive duration rounded up and capped at 255, never below 1 |
| Playlist.TargetIsLeast | crates/hls/src/ring.rs:241-252 | the target is the least that is one, the minimum, and no less than any stored duration short of 255 |
| Playlist.Build | crates/hls/src/ring.rs:239-318 | an entry per stored segment in order, parts only on the newest three, the pending parts last; it fails exactly when some duration is refused, naming the first such segment |
| Playlist.BuildableExactly | crates/m3u8/src/lib.rs:245-262 | building succeeds if and only if every duration is a number, not negative, and below 255.5 s: the derived target covers all the others |
| Playlist.EntriesSay | crates/hls/src/ring.rs:278-299 | durations and flags as stored, parts on the newest three segments alone, and the last part of a closed segment marked |
| Playlist.PendingSay | crates/hls/src/ring.rs:301-315 | pending parts with their durations and flags, none marked last |
| Playlist.ReachedIsListed | crates/hls/src/ring.rs:211-315 | a playlist of a ring that has reached a point lists that segment, starts after it, or carries a pending part at or past the one asked for |
| Playlist.MediaSequenceMonotone | crates/hls/src/ring.rs:254-267 | the media sequence of playlists along a run never decreases |
| Decimal.ParsePrint | crates/hls/src/http.rs:538-553 | a printed number is read back exactly when it fits the reader's width, for every width |
| Decimal.ParseExactly | crates/hls/src/http.rs:538-553 | the texts read as a number are it printed, with any zeros and perhaps a plus sign in front, and no others |
| Routes.SegmentPathRoundTrip | crates/hls/src/http.rs:534-542 | the printed segment URI is routed to segments, not to parts, and parses to its number if and only if that fits 64 bits |
| Routes.PartPathRoundTrip | crates/hls/src/http.rs:544-554 | the printed part URI parses to its pair if and only if both numbers fit |
| Routes.SegmentPathExactly | crates/hls/src/http.rs:538-542 | the paths read as segments are those with a number that fits between the two fixed texts |
| Routes.PartPathExactly | crates/hls/src/http.rs:549-554 | the paths read as parts are those with two numbers that fit, parted at the first dot |
| Routes.RangeRoundTrip | crates/hls/src/http.rs:491-510 | every range with 64-bit ends, open or closed, is read back from its text |
| Routes.SpacedRange | crates/hls/src/http.rs:501-509 | blanks around the two numbers do not matter |
| Routes.NotARange | crates/hls/src/http.rs:491-501 | another unit, several ranges, no hyphen and a range with only an end are not read |
| Routes.ResolveExact | crates/hls/src/http.rs:512-532 | the resolved interval is exactly the asked-for octets the body has; none is resolved exactly when the body has none of them |
| Routes.PartialMatchesRequest | crates/hls/src/http.rs:222-239 | the announced interval lies inside the total and names exactly the octets sent if and only if the body is not empty; they are the ones asked for if and only if the range resolves or the body is empty |
| Routes.EmptyBodyAnnounced | crates/hls/src/http.rs:672-677 | any range of an empty body is answered as octet 0 of 0, with nothing sent |
| Routes.PastTheEnd | crates/hls/src/http.rs:521-523 | a range past the end is answered with the whole body as partial content, none of it asked for |
| Routes.SegmentRequestServed | crates/hls/src/http.rs:190-356 | requesting a segment's URI answers with that segment, or 404 exactly when the ring has no such number |
| Routes.PartRequestServed | crates/hls/src/http.rs:138-189 | requesting a part's URI answers with that part, or 404 exactly when the ring has no such part |
| Routes.SegmentUrisResolve | crates/hls/src/ring.rs:281-284 | every segment URI in a playlist fetches that very segment |
| Routes.PartUrisResolve | crates/hls/src/ring.rs:285-298 | every part URI of a listed segment fetches that very part; past 2^32 parts, where stored indices start over, the first part with that index |
| Routes.PendingUrisResolve | crates/hls/src/ring.rs:301-315 | every pending part's URI fetches that very part, or past 2^32 parts the first with that index |
| Routes.SegmentUriNamesOneBody | crates/hls/src/http.rs:212-226 | along a run a segment URI never fetches two different bodies |
| Routes.PublishedPartServed | crates/hls/src/http.rs:138-189 | told from the writes alone: a GET of a part's URI answers its octets from the write that adds it until its segment is evicted, then 404 |
| Routes.ClosedSegmentServed | crates/hls/src/http.rs:190-356 | the same of a segment |
| Routes.QueryIgnored | crates/hls/src/http.rs:94-100 | a query takes no part in routing and is what stands after the first question mark, whole |
| Routes.FixedRoutes | crates/hls/src/http.rs:101-137 | the three playlist paths and no others answer the playlist, OPTIONS is answered with no content, other methods than GET and HEAD with 404 |
| ReloadQuery.ParseBlockingReload | crates/hls/src/http.rs:556-576 | the loop over the pairs finds the last value of each key, and one pair without an equals sign voids the query |
| ReloadQuery.QueryRoundTrip | crates/hls/src/http.rs:556-576 | a written query means the numbers in its last `_HLS_msn` and `_HLS_part` fields, wherever they stand |
| ReloadQuery.AnyQuery | crates/hls/src/http.rs:561-576 | any query cut at its ampersands: void when a piece has no equals sign or the last sequence number cannot be read, else that number and the last part number if readable |
| BlockingReload.InvStep | crates/hls/src/http.rs:583-614 | what one step of anybody keeps: a waiter that has checked or parked and whose point is reached has missed no wake-up |
| BlockingReload.NoLostWakeup | crates/hls/src/http.rs:583-614 | in every interleaving a parked waiter whose point is reached has a wake-up pending and leaves the park at its next step |
| BlockingReload.GivesUpOnlyUnreached | crates/hls/src/http.rs:605-612 | a waiter that gives up is parked or about to park; if its point is reached all the same, it was about to park and the write came after its last check |
| BlockingReload.LateWrite | crates/hls/src/http.rs:602-608 | a run in which that happens |
| BlockingReload.GivesUpExactly | crates/hls/src/http.rs:605-612 | a step answers "not reached" if and only if the deadline has passed and the waiter stands after its last check, or in the park with no write since its notification was made |
| BlockingReload.NeverGivesUpEarly | crates/hls/src/http.rs:605-612 | a waiter inside its deadline never answers "not reached" |
| BlockingReload.WaitsInThePark | crates/hls/src/http.rs:597-610 | an unreached waiter inside its deadline is in the park after at most six steps of its own without a write, and stays there |
| BlockingReload.KeepsWaiting | crates/hls/src/http.rs:597-613 | whatever is written, it waits as long as its point is not reached and its deadline not passed |
| BlockingReload.WaitsForWhatWasAsked | crates/hls/src/http.rs:113-114 | every waiter waits for the point its request asked for |
| BlockingReload.ServedMeansListed | crates/hls/src/http.rs:113-123 | after a `true` answer every playlist built lists the segment, starts after it, or carries a pending part far enough |
| BlockingReload.ServedInFourSteps | crates/hls/src/http.rs:597-613 | once its point is reached a waiter inside its deadline is served within four steps of its own, whatever others do |
| Calendar.CivilSuccessor | crates/hls/src/http.rs:818-830 | every day number, negative ones included, names a valid date, and the next day number names the next date of the Gregorian calendar |
| Calendar.DayNumberOfCivil | crates/hls/src/http.rs:818-830 | the closed form followed by the calendar's own day count is the identity |
| Calendar.CivilOfDayNumber | crates/hls/src/http.rs:818-830 | the calendar's own day count followed by the closed form is the identity on every valid date |
| Calendar.DayNumberInjective | crates/hls/src/http.rs:815-830 | distinct dates have distinct day numbers |
| Calendar.YearFromDay | crates/hls/src/http.rs:815-830 | the year stays below a bound exactly when the day number does |
| Calendar.CastsExact | crates/hls/src/http.rs:821-823 | within 784 thousand million days of the epoch no narrowing cast changes a value |
| HttpDate.FormatRoundTrip | crates/hls/src/http.rs:782-813 | the header reads back, by a reader that knows only the standard's names and separators and the plain calendar, as the same second and weekday if and only if the year is at most 9999 |
| CounterMode.EncryptCancels | crates/chromecast/src/mirroring.rs:1060-1066 | encrypting twice under one counter is the identity, for any block cipher |
| CounterMode.EncryptIsKeystream | crates/chromecast/src/mirroring.rs:1060-1066 | for any block function zeros encrypt to its blocks for the counters from the IV on, modulo 2^128, and every other octet differs from its plain one by that keystream's |
| CounterMode.IvFields | crates/chromecast/src/mirroring.rs:1031-1058 | the mask taken off, an initial counter is stream, frame and packet number, least significant octet first, and zeros |
| CounterMode.IvSplit | crates/chromecast/src/mirroring.rs:1047-1058 | initial counters of one mask agree in the lower 48 bits |
| CounterMode.CountersDisjoint | crates/chromecast/src/mirroring.rs:1047-1066 | two packets that share one 128-bit counter value are the same packet at the same block |
| Mirroring.MirrorStream.SendPacket | crates/chromecast/src/mirroring.rs:599-666 | one packet: its exact octets, and every counter advanced in its own width |
| Mirroring.MirrorStream.SendFrame | crates/chromecast/src/mirroring.rs:558-671 | the loop sends exactly the frame's packets in order and leaves the counters of the specification |
| Mirroring.CountersAreTotals | crates/chromecast/src/mirroring.rs:663-668 | after any run the counters are the numbers of packets, octets with all headers, and frames sent, each modulo its width |
| Mirroring.NinetyKilohertz | crates/chromecast/src/mirroring.rs:962-965 | video time advances 90 000 ticks a second from zero |
| Reassembly.PacketRoundTrip | crates/chromecast/src/mirroring.rs:973-1013 | every header field of a packet is read back from its octets |
| Reassembly.FramePacketReads | crates/chromecast/src/mirroring.rs:1068-1127 | packet i says its own index, the last index, and carries the marker if and only if it is the last |
| Reassembly.EveryPacketSays | crates/chromecast/src/mirroring.rs:558-671 | every packet of a stream, field by field, told from the stream alone; its payload is the next 1400 octets of the frame, fewer only in the last packet, under the keystream of its own stream, frame and packet number |
| Reassembly.HeaderOctetsAre | crates/chromecast/src/mirroring.rs:972-1013 | the header's octets, most significant first |
| Reassembly.RoundTripInAnyOrder | crates/chromecast/src/mirroring.rs:570-666 | whatever the order and repetition of arrival, the frame's packets give back its exact octets if and only if it has 1 to 65536 chunks |
| Reassembly.StreamRoundTrip | crates/chromecast/src/mirroring.rs:558-671 | a receiver that sorts by frame number gets every frame of a stream of up to 2^32 frames back, from any interleaving, repetition and loss of other frames' packets, if and only if it has 1 to 65536 chunks |
| Reassembly.SequenceNumbersRun | crates/chromecast/src/mirroring.rs:663-666 | the k-th packet of a stream carries sequence number k modulo 2^16, across frames |
| Reassembly.StreamCountersDisjoint | crates/chromecast/src/mirroring.rs:599-608 | in a stream of up to 2^32 frames no two packets ever use the same counter block |
| Reassembly.CountersRepeatAfterWrap | crates/chromecast/src/mirroring.rs:668 | with one frame more the first frame's counters come back |
| SenderReports.ReportRoundTrip | crates/chromecast/src/mirroring.rs:1179-1204 | every field of a sender report is read back from its 28 octets |
| SenderReports.NtpFracExact | crates/chromecast/src/mirroring.rs:1165-1177 | the 32-bit fraction never wraps and is the greatest one not after the clock |
| SenderReports.NtpSecIs | crates/chromecast/src/mirroring.rs:1165-1174 | the seconds are the calendar's since 1 January 1900 |
| SenderReports.FortyEightKilohertz | crates/chromecast/src/mirroring.rs:967-970 | audio time advances 48 000 ticks a second from zero |
| SenderReports.AudioRoundTrip | crates/chromecast/src/mirroring.rs:1129-1161 | the one packet of an audio frame gives back exactly the frame's octets |
| SenderReports.EveryAudioPacketSays | crates/chromecast/src/mirroring.rs:673-738 | the packet of the n-th audio frame, field by field, told from the run alone, its payload the frame under the keystream of its own number |
| SenderReports.AudioCountersDisjoint | crates/chromecast/src/mirroring.rs:695 | no counter block is used twice in up to 2^32 audio frames |
| SenderReports.ReportingStream.MaybeSendReports | crates/chromecast/src/mirroring.rs:1206-1257 | reports go out exactly when a second has passed, audio only once some has been sent |
| SenderReports.ReportingStream.SendVideoFrame | crates/chromecast/src/mirroring.rs:667-671 | the frame's packets, then the reports that are due, with the new state of both tracks |
| SenderReports.ReportingStream.SendAudioFrame | crates/chromecast/src/mirroring.rs:673-738 | one packet, then at once a report when it is the first, else the reports that are due; nothing without audio keys |
| SenderReports.EveryReport | crates/chromecast/src/mirroring.rs:712-736 | in every run each report counts exactly the packets and octets of its track sent before it, modulo 2^32; audio is reported right after its first packet and never earlier; video reports are at least a second apart |
| SenderReports.EveryCall | crates/chromecast/src/mirroring.rs:1206-1284 | in every run the packets and reports of a call carry the media time of their track's last frame, reports also the call's wall clock and their track's SSRC; video is reported if and only if the call looks at the interval and it has passed since video was last reported |
| SenderReports.AudioReportsExactly | crates/chromecast/src/mirroring.rs:1236-1284 | audio is reported by a call if and only if it brings the first audio packet, or video is reported with it and audio has been sent |
| SenderReports.FirstVideoReport | crates/chromecast/src/mirroring.rs:544-550 | on a clock that has not gone back the first video report goes out ahead of the first video frame, with no packets and media time zero, if and only if the session has audio and two audio frames come first; otherwise with that frame |
| SenderReports.ReportedTooEarly | crates/chromecast/src/mirroring.rs:1210-1224 | two audio frames ahead of the first video frame make a video report with no packets and media time zero, and keep the first video frame from being reported |
| RtcpXr.ParseReferenceTime | crates/chromecast/src/mirroring.rs:1309-1332 | the loop stays in bounds on any octets and finds what the scan of the blocks finds |
| RtcpXr.ParseSerialized | crates/chromecast/src/mirroring.rs:1309-1332 | a report made of any blocks, even cut off inside a last one, parses to the first block of type 4 and length 2, or to none |
| RtcpXr.ReferenceRoundTrip | crates/chromecast/src/mirroring.rs:1324-1328 | a receiver's time, written after blocks of other kinds and before any others, is the time that is read |
| RtcpXr.SplitBlocks | crates/chromecast/src/mirroring.rs:1317-1330 | any octets are whole blocks followed by a truncated one or nothing |
| RtcpXr.ParseAny | crates/chromecast/src/mirroring.rs:1309-1332 | on every packet at all the answer is the first such block among the blocks the packet holds |
| RtcpXr.LrrIsMiddleBits | crates/chromecast/src/mirroring.rs:1390-1392 | the reply's LRR is bits 16 to 48 of the 64-bit reference time |
| RtcpXr.DlrrIsReport | crates/chromecast/src/mirroring.rs:1286-1307 | the reply is a well-formed report of one block of type 5 with a right length field |
| Supervisor.StreamTask | src/manager.rs:1053-1366 | the two nested loops with their breaks and continues produce exactly the state machine's trace and end exactly when it does |
| Supervisor.EveryRun | src/manager.rs:985-1366 | every run emits Started, attempts 1 to 5 with back-off 2^(attempt-1) s, then at most one error and exactly one Stopped; each session that came up is stopped once, before the next is created; the capture is stopped once, at the end |
| Supervisor.EveryAnswer | src/manager.rs:1062-1365 | what each answer of the world brings about, told from the trace and the answers alone, action by action |
| Supervisor.HowItEnds | src/manager.rs:1057-1365 | which answer ends a run and which error is then reported: none on a cancel, live or backing off; the given reason when a frame fails; pairing when it is asked for again; giving up on a death or failed attempt after five announced |
| Supervisor.OutageGivesUpExactly | src/manager.rs:1066-1080 | an outage ends the stream if and only if the step that exceeds five comes within a minute of the last successful reconnect, or none has ever succeeded |
| Supervisor.FirstOutage | src/manager.rs:1046-1080 | while no reconnect has succeeded an outage is given up on its sixth failing step, after announcing exactly attempts 1 to 5 |
| Supervisor.StuckAtFirstAttempt | src/manager.rs:1068-1073 | later than a minute after the last successful reconnect every attempt counts as the first |
| Supervisor.StuckOnRealClock | src/manager.rs:1068-1130 | the same with every failing attempt a full announced back-off after the one before |
| Supervisor.EndlessRun | src/manager.rs:1068-1169 | a run of any length, honouring every announced back-off, that never gives up |
| ReceiverSession.InvStep | src/manager.rs:1448-1617 | one step of the session or of any pump keeps: only the newest pump runs, its channel of eight never overflows, and a pump being joined has lost its sender and will see a Stop |
| ReceiverSession.AtMostOnePump | src/manager.rs:1433-1691 | in every interleaving at most one pump runs, each finished one closed its puller exactly once, and none is left when the session ends other than by a lost control connection |
| ReceiverSession.PullersAccountedFor | src/manager.rs:1466-1537 | in every interleaving the pullers opened are those closed and those of running pumps, and one more exactly when the session ended because a LOAD found no sink or decoder |
| ReceiverSession.DisconnectedPumpFinishes | src/manager.rs:1630-1642 | in any world a pump without a sender has ended after at most one turn more than it has commands waiting, whatever packets, pumps and session steps come in between |
| ReceiverSession.JoinedPumpFinishes | src/manager.rs:1462-1464 | so a join always ends |
| ReceiverSession.JoinLeaves | src/manager.rs:1464 | the session then leaves the join for good |
| ReceiverSession.SendLeaves | src/manager.rs:1524-1554 | a session waiting for room in a full channel gets on after one turn of the pump |
| ReceiverSession.TakesInOrder | src/manager.rs:1630-1642 | a pump takes its commands in order, plays if the last Play or Pause was a Play, and ends on a Stop |
| ReceiverSession.TakesPackets | src/manager.rs:1643-1691 | a playing pump ends with the stream or on an error; one that does not play takes no packet |
| ReceiverSession.PassesOn | src/manager.rs:1552-1595 | each control command reaches the pump as its own, behind those waiting, and only a Stop gives the sender up |
| ReceiverSession.AfterJoin | src/manager.rs:1464-1590 | what a LOAD, a Stop and a cancel leave once the old pump has ended; a new pump plays exactly if asked to |
| ReceiverSession.WithoutPump | src/manager.rs:1452-1615 | what each command does to a session without a pump |
| ReceiverSession.OtherCommands | src/manager.rs:1459-1612 | unrouted commands change nothing; a lost control connection gives the sender up without a Stop |
| Pacing.KeyframePacer.OnFrame | src/manager.rs:1260-1266 | a keyframe is requested exactly when the deadline has passed; the catch-up loop leaves the first grid point after now, at most 2 s away |
| Pacing.DeadlineOnGrid | src/manager.rs:1025-1026 | after any frames the deadline is the end of the last frame's 2 s slot |
| Pacing.FirstFrameOfEachSlot | src/manager.rs:1260-1266 | a frame is made a keyframe if and only if it is the first of its slot: one request in each slot with a frame, never two |
| Adaptive.AdaptiveBitrateState.RecordPressure | crates/core/src/adaptive.rs:107-147 | the new average, target and adjustment time, and the move reported |
| Adaptive.AdaptiveBitrateState.ObserveLinkCapacity | crates/core/src/adaptive.rs:158-196 | the target follows the measured capacity, the average is untouched |
| Adaptive.AdaptiveBitrateState.DropToFloor | crates/core/src/adaptive.rs:149-156 | the target is the floor and the cool-down starts |
| Adaptive.EmaBounded | crates/core/src/adaptive.rs:115-118 | the average stays at most 20000 and its update never saturates |
| Adaptive.EmaWeights | crates/core/src/adaptive.rs:112-118 | the average moves an eighth of the way to the sample, which counts as 200 percent at most |
| Adaptive.PressureMoves | crates/core/src/adaptive.rs:126-146 | outside the cool-down: a quarter less from 70 percent on, 200 kbps more up to 35 percent, within 500 kbps and the ceiling, and left alone from 36 to 69 percent |
| Adaptive.CoolsDown | crates/core/src/adaptive.rs:120-128 | within four seconds of a move a reading moves the average alone |
| Adaptive.PressureTargetBounded | crates/core/src/adaptive.rs:130-146 | a pressure move keeps the target between floor and ceiling |
| Adaptive.CapacityTargetBounded | crates/core/src/adaptive.rs:179-196 | a capacity move keeps the target between floor and ceiling |
| Adaptive.CapacityMoves | crates/core/src/adaptive.rs:165-196 | exactly when a capacity reading raises the target, when it lowers it, and to what |
| Adaptive.CapacityRaises | crates/core/src/adaptive.rs:168-170 | a reading of 1900 raises a target of 1000 to 1330 |
| Adaptive.GapExactly | crates/core/src/adaptive.rs:120-146 | for one caller a second move inside the cool-down is impossible if and only if the first was not made at time zero |
| Adaptive.MovesAreSpaced | crates/core/src/adaptive.rs:66-69 | over any run of one caller two moves are at least the cool-down apart, unless the first is at zero |
| Adaptive.TwoMovesAtZero | crates/core/src/adaptive.rs:122-126 | a run from the start that moves twice at time zero |
| Adaptive.HighPressureReachesFloor | crates/core/src/adaptive.rs:111-147 | any long enough run of spaced samples of at least 71 has the target at the floor |
| Adaptive.LowPressureReachesCeiling | crates/core/src/adaptive.rs:111-147 | any long enough run of spaced samples of at most 35 has the target at the ceiling |
| Adaptive.SeventySettles | crates/core/src/adaptive.rs:115-139 | constant 70 from below the threshold settles at 6993 and never lowers the target |
| Adaptive.SeventyDownshiftsExactly | crates/core/src/adaptive.rs:115-139 | a run of spaced samples of 70 lowers the target if and only if the average starts at 7000 or more |
| AdaptiveThreads.InvStep | crates/core/src/adaptive.rs:111-196 | any single access of any call keeps the bounds of memory and of every value in hand |
| AdaptiveThreads.CallAlone | crates/core/src/adaptive.rs:111-196 | a call whose accesses nobody gets in the way of is the sequential call |
| AdaptiveThreads.BoundsUnderEveryInterleaving | crates/core/src/adaptive.rs:90-196 | under every interleaving of all accesses of any number of calls the target stays in bounds, the average at most 20000, and no sum leaves 32 bits |
| AdaptiveThreads.GapStep | crates/core/src/adaptive.rs:120-145 | what one access keeps as long as nobody touches the last adjustment while another call is about to store it |
| AdaptiveThreads.MovesAreSpaced | crates/core/src/adaptive.rs:111-196 | over all interleavings of any calls from the start, as long as that holds, pressure moves are decided at least a cool-down apart, after those at time zero |
| AdaptiveThreads.TwoMovesInsideCoolDown | crates/core/src/adaptive.rs:120-145 | a run from the start in which two callers both look before either writes, and both move at one moment |
| AdaptiveThreads.MovesAfterStaleWriter | crates/core/src/adaptive.rs:120-145 | a run from the start in which a caller writes its old time over a newer one, and the next caller moves a nanosecond after a move |
| CastFraming.DecodeStable | crates/chromecast/src/castv2.rs:536-572 | more octets never change an answer already given |
| CastFraming.FrameRoundTrip | crates/chromecast/src/castv2.rs:514-572 | a frame decodes to its message and leaves exactly what follows |
| CastFraming.FrameIs | crates/chromecast/src/castv2.rs:514-534 | a message goes out exactly up to 1 MiB, behind its length in four octets, most significant first |
| CastFraming.DecodeExactly | crates/chromecast/src/castv2.rs:536-572 | what any buffer decodes to: too large, more needed, or as its body says |
| CastFraming.Connection.Receive | crates/chromecast/src/wire.rs:167-211 | what one call returns and leaves depends on the stream alone, not on how it was cut into reads; the overlong-buffer guard is out of reach |
| CastFraming.Connection.ReceiveAll | crates/chromecast/src/wire.rs:167-211 | repeated calls yield exactly the messages at the front of the stream, and leave the octets after the last whole frame |
| CastFraming.MessagesRoundTrip | crates/chromecast/src/castv2.rs:514-572 | the frames of any messages, however the stream goes on after them, come back as those messages in order |
| CastFraming.LeftoverIsPrefix | crates/chromecast/src/wire.rs:206-209 | what is left at the end of the stream is a strict beginning of a frame |
| CastFraming.PrefixOfFrame | crates/chromecast/src/castv2.rs:524-526 | every cut inside a frame is such a beginning |
| CastFraming.CutStream | crates/chromecast/src/wire.rs:167-209 | any messages and the first k octets of one more frame end like a stream of whole frames, with exactly those k octets left: a clean end if and only if k is zero |
| Tlv.Encode | crates/airplay/src/tlv.rs:22-45 | the nested loops write every value in fragments of at most 255 octets, an empty one in one empty fragment |
| Tlv.Decode | crates/airplay/src/tlv.rs:47-74 | the loop stays in bounds on any octets and merges fragments by tag |
| Tlv.RoundTrip | crates/airplay/src/tlv.rs:22-74 | decoding an encoding maps each tag to the concatenation in order of its values, of any length; it fails if and only if the error tag is among them, with that tag's value |
| Tlv.FragmentCount | crates/airplay/src/tlv.rs:25-42 | a value takes a fragment for every 255 octets begun, an empty one one |
| Tlv.DecodeAny | crates/airplay/src/tlv.rs:47-74 | any octets at all are fragments and a cut-off rest, and decode to what the fragments hold |
| DmabufFeedback.FeedbackState.OnEvent | crates/capture/src/wayland_direct.rs:1588-1633 | each event's whole effect on the collected feedback |
| DmabufFeedback.FeedbackState.Resolve | crates/capture/src/wayland_direct.rs:1503-1563 | the nested loops compute the accept list of the specification |
| DmabufFeedback.AcceptTranche | crates/capture/src/wayland_direct.rs:1531-1556 | one tranche adds exactly what its in-range indices name |
| DmabufFeedback.AcceptListExact | crates/capture/src/wayland_direct.rs:1503-1563 | per format, without repeats and in order of first mention, a modifier is accepted if and only if a finished tranche for the main device has an index inside the table naming it |
| DmabufFeedback.RowRead | crates/capture/src/wayland_direct.rs:1531-1551 | an index names the row at sixteen times its value by its format and modifier |
| DmabufFeedback.DeviceExactly | crates/capture/src/wayland_direct.rs:1652-1662 | eight octets are a device number, any other count is none |
| DmabufFeedback.OddOctetDropped | crates/capture/src/wayland_direct.rs:1611-1617 | an odd octet after the indices is dropped |
| DmabufFeedback.NothingAccepted | crates/capture/src/wayland_direct.rs:1506-1509 | without a table of whole rows or a main device nothing is accepted |
| DmabufFeedback.CollectedExactly | crates/capture/src/wayland_direct.rs:1588-1633 | for any events in any order: the tranches collected are those of the stretches that end in a done event and say something, each with its last target device and all its indices in order; table and main device are the last announced |
| DmabufFeedback.TranchesRoundTrip | crates/capture/src/wayland_direct.rs:1604-1629 | the tranches announced by events, indices and device numbers as octets, are the ones collected |
| FrameCapture.Repack | crates/capture/src/wayland_direct.rs:1036-1050 | on both paths every packed row is the visible part of the source row |
| FrameCapture.RowCopiedAt | crates/capture/src/wayland_direct.rs:1044-1048 | out[y * 4w + x] is src[y * stride + x] |
| FrameCapture.Worker.CaptureFrame | crates/capture/src/wayland_direct.rs:677-759 | how one frame's allocation and copy change the failure count and the sticky switch |
| FrameCapture.FrameCounts | crates/capture/src/wayland_direct.rs:677-759 | frames without an offer or after the switch change nothing; a failure is one more in a row, the third switches dmabuf off, a success starts over |
| FrameCapture.DisabledExactly | crates/capture/src/wayland_direct.rs:636-759 | dmabuf is off if and only if three offered frames in a row have failed at some time, by allocation or by copy |
| AudioClock.UserData.HandleParamChanged | crates/capture/src/pipewire_audio.rs:341-396 | the settled rate and, in 16 bits, channel count are kept for the frames to come |
| AudioClock.UserData.HandleProcess | crates/capture/src/pipewire_audio.rs:439-552 | the time, rate and channel count a frame announces, the counter advanced even when the frame is dropped |
| AudioClock.SamplesCounted | crates/capture/src/pipewire_audio.rs:439 | a buffer of n 16-bit samples a channel counts n, a few octets more or not |
| AudioClock.Announces | crates/capture/src/pipewire_audio.rs:521-532 | frames announce the settled format, except for a zero, which leaves the configured one |
| AudioClock.CountsEverything | crates/capture/src/pipewire_audio.rs:449-461 | after any callbacks the anchor is the first non-empty buffer's time and the counter all samples captured, saturated |
| AudioClock.FirstFrame | crates/capture/src/pipewire_audio.rs:455-459 | the first frame has the wall clock's time, which becomes the anchor |
| AudioClock.PtsNeverDecreases | crates/capture/src/pipewire_audio.rs:449-461 | times never go back, dropped and empty buffers, format changes and saturation included |
| AudioClock.PtsWithinOneMicrosecond | crates/capture/src/pipewire_audio.rs:449-461 | before saturation a frame's time is less than 1 us below anchor + samples / configured rate |
| AudioClock.KeepsAnnouncedRate | crates/capture/src/pipewire_audio.rs:439-539 | counting samples as the code does, by the configured channels: every frame of every run on one format keeps, before saturation, the rate it announces if and only if that is the configured one |
| AudioClock.KeepsAnnouncedFormat | crates/capture/src/pipewire_audio.rs:439-539 | counting samples by the channels announced, for buffers of any size: every frame of every run on one format keeps the format it announces if and only if rate and channel count are the configured ones |
| AudioClock.KeepsAnnouncedFormatWhole | crates/capture/src/pipewire_audio.rs:439-539 | for buffers whole in both formats: if and only if rate times channel count is the same in both |
| AudioClock.WholeKeeps | crates/capture/src/pipewire_audio.rs:439-539 | the positive half of it for all rates and channel counts |
| AudioClock.OneSecondOff | crates/capture/src/pipewire_audio.rs:449-539 | twelve seconds configured at 48 kHz and settled on 44.1 kHz leave a frame over a second early |
| AudioClock.MonoOneSecondOff | crates/capture/src/pipewire_audio.rs:439-539 | 63 buffers configured for stereo and settled on mono at the same rate leave a frame over a second early |

## Left out

- SegmentRing.SharedRing.Append: `next_seq` is unbounded here; the machine's 64 bits last for 2^64 segments.
- Playlist.Build: durations are real numbers with the non-finite floats set apart, and the playlist is a list of entries, not text; discontinuity-sequence conformance is not claimed.
- Routes.RangeRoundTrip: trimming knows ASCII space, tab, carriage return and line feed, not the other Unicode white space.
- Routes.SegmentRequestServed: reading the request head, keep-alive, delivery statistics and the dropping of bodies for HEAD are not modelled.
- BlockingReload.NoLostWakeup: that a polled waiter looks at its notification before its timer is taken from the async runtime.
- Calendar.CastsExact: day numbers outside the stated range would wrap in the machine and do not in the closed form here; the header is fed the current time only.
- CounterMode.EncryptCancels: AES is any block function.
- Mirroring.MirrorStream.SendFrame: a send error changes no counter, so sending always succeeds here; the codec check and the missing-stream error are left out.
- SenderReports.EveryReport: the elapsed-time test and the new report time are read from the clock at one moment.
- RtcpXr.ParseReferenceTime: which of the sender's two SSRCs a reply carries, and picture-loss detection, are left out.
- Supervisor.StreamTask: forcing the floor bitrate, applying a changed bitrate, keyframe requests and audio frames do not affect the trace and are not in it; the audio task's abort and the active-stream table are left out.
- ReceiverSession.AtMostOnePump: on values, because the session and its pumps are concurrent tasks; decoding, the sink and the reported states are left out.
- Adaptive.CapacityTargetBounded: the initial bitrate is at least the floor of 500, which the limiting function demands of its caller.
- Adaptive.HighPressureReachesFloor: each sample is a full cool-down after the one before it.
- CastFraming.FrameRoundTrip: the message serialisation is any encoder with a decoder that inverts it.
- CastFraming.Connection.Receive: read errors of the socket are left out.
- DmabufFeedback.FeedbackState.Resolve: a failed mapping of the table and the two-second timeout are left out; octets are read in little-endian order, which is the host order of the supported machines.
- FrameCapture.Worker.CaptureFrame: a failure to make a shared-memory buffer ends the worker in the code.
- AudioClock.KeepsAnnouncedFormatWhole: a second of the higher rate, times the announced channel count, fits the counters before they saturate; this leaves out rates above 281 MHz at 65535 channels.
- AudioClock.UserData.HandleProcess: copying, muting and the rate check that only logs are left out.
- Sockets, TLS, discovery, Wayland and PipeWire calls, encoders and decoders, the segmenter's own loop, the AirPlay session, Miracast and the user interface.
