# The path of a correction byte, verified

A model in Dafny 4.11 of an NTRIP caster: how RTCM corrections travel from a source connection to the rovers, and
some smaller mechanisms around that path. `dafny verify dfyconfig.toml` checks everything.

Source bytes are framed by `RtcmStreamParser`, which resynchronises byte by byte and checks CRC-24Q (section 4 of
RTCM Standard 10403.2). The frames of each read are joined into one chunk, which `MountpointHub` offers to every rover
that passes its epoch gate. A chunk that does not fit in the rover's `ByteQueue` is dropped whole. A send loop per
rover takes chunks from the queue, waits for its token bucket and writes.

Each component is modelled twice. Its class or loop is imperative Dafny, proved against functions on values; what the
repository promises is then proved about those functions, over all inputs and all runs. The send loop of a rover
suspends at every turn, so it exists as steps, with methods for what it does in between. Asyncio is a transition
system: a step is what one task does between two points where it really suspends, and steps of different tasks
interleave freely. Clock readings are parameters of the steps and never go back.

| file | models |
|---|---|
| `ByteStrings.dfy`, `Maps.dfy`, `Texts.dfy` | bytes, bits and exclusive or; sums over maps; the string operations the NMEA code uses |
| `Crc24q.dfy` | the CRC, against polynomial long division over GF(2) |
| `Scanner.dfy`, `Rtcm.dfy` | resynchronising framing, against a greedy leftmost parse; the stream parser |
| `Messages.dfy` | the bit reader and messages 1005, 1006, 1007, 1008, 1033 (section 3.5 of RTCM Standard 10403.2) |
| `Tiers.dfy`, `ByteQueues.dfy` | token bucket and epoch gate; the byte queue with its wakeups |
| `Hub.dfy`, `SourceLoop.dfy`, `SendLoop.dfy` | the mountpoint hub; one turn of the source loop and the parts of the send loop on the objects |
| `Delivery.dfy`, `Guarantees.dfy`, `RunLimits.dfy` | one mountpoint as a transition system, and what holds in all its runs |
| `Entitlements.dfy` | what a rover of a tier is offered, keeps and may write, exactly, from its admission on |
| `Deviations.dfy` | for which tiers a send loop can stand still for good, and what the validation of tiers keeps out |
| `Admissions.dfy`, `Sources.dfy` | counters and limits of rover sessions; the source slot of each mountpoint |
| `Geofence.dfy`, `AuditLog.dfy`, `Relay.dfy` | ray casting and GeoJSON; audit-file rotation; drop-oldest fan-out |
| `Gsv.dfy`, `GsvSeries.dfy`, `RefreshTokens.dfy` | satellites in view; rotation of refresh tokens |

The main results are `Guarantees.EndToEnd`, `Guarantees.Ledger`, `Rtcm.RtcmChunking`, `Rtcm.RtcmGreedy`,
`Rtcm.DamagedFrameRejected`, `ByteQueues.NoLostWakeup`, `Entitlements.DropsIffNoRoom`, `Entitlements.MayWriteIff`,
`RunLimits.KeptBackInRun`, `Geofence.InsideIffOddAbove`, `Admissions.AccountsBalance`, `Sources.OneSourcePerMountpoint`,
`GsvSeries.AlwaysRightIff` and `RefreshTokens.ExchangeIff`.

## Where the code does not keep the property

Each is stated with the exact condition under which the property holds, and with a run or input that breaks it.

- A chunk larger than the token bucket never leaves the wait loop, and a smaller one does
  (`Guarantees.LeavesWaitLoopIff`). A tier can leave a rover waiting for good exactly when some chunk, of 8 to 5124
  bytes, fits in its queue but not in its bucket (`Deviations.CanStallIff`, `Deviations.StallHappens`); where the queue
  holds the largest chunk, as with the default size, that is when `rate_limit_bps` is between 1 and 2561.
- When the ICY reply raises, the session stays counted for good, because the teardown is never reached
  (`Admissions.CountedAreServedOrStranded`, `Admissions.StrandingHappens`), and a source keeps its slot, because the
  `try` that frees it starts later (`Sources.AlwaysMannedIff`, `Sources.SlotAbandoned`,
  `Sources.AbandonedSlotStaysBusy`).
- A GSV sentence without satellites is refused, since its checksum then stands in the third number field, and a
  satellite with number 0 is left out (`Gsv.ReadBackIff`). A series is reported right in every state a session can be
  in exactly when its first and last sentences have satellites and those numbered 0 have no positive SNR or the mean
  SNR of the others (`GsvSeries.AlwaysRightIff`, `GsvSeries.StaleSatellitesCount`, `GsvSeries.ZeroNumberMisreported`).
- A refresh token is exchanged again exactly when the expiry last written for its identifier has passed at the lookup
  (`RefreshTokens.ExchangeIff`, `RefreshTokens.ExchangedOnceIff`). With revocations that carry its own expiry, that is
  when it expires between the signature check and the lookup of a request (`RefreshTokens.ReplayIffStraddles`,
  `RefreshTokens.ReplayHappens`); a revocation with an earlier expiry reopens it sooner
  (`RefreshTokens.RevocationDecides`, `RefreshTokens.EarlierExpiryReopens`).
- A point whose distance to an edge is within the margin of the 1e-12 in the denominator may be misjudged, and an edge
  that spans exactly that raises (`Geofence.CrossesBySide`,
  `Geofence.MisjudgedWithinMargin`, `Geofence.RaisesIffTinyEdge`).
- A negative `audit_backups` never rotates the audit file (`AuditLog.NoBackupsNoRotation`), so the file stays within
  its bound exactly when there is at least one backup (`AuditLog.BoundedIffBackups`). A configured 0 becomes 3, since
  the source reads it with `or 3`.

One property holds only because `validate_config` refuses negative tiers (src/caster.py:424-430), which runs at start and
before every change of the configuration. A negative `max_queue_bytes` would make a queue of size 0, which ignores chunks
without counting them as dropped. With validated tiers nothing ever vanishes (`Guarantees.ValidatedLedger`);
`Deviations.NothingVanishesIff` and `Deviations.NegativeQueueLosesFrames` show that the check is needed, for a
configuration that skips it.

## Model

| member | source | states |
|---|---|---|
| Crc24q.ComputeCrc24q | src/rtcm.py:10-18 | the byte-and-bit loop returns the remainder of the message, shifted by 24 bits, divided by the generator polynomial |
| Crc24q.TurnEight | src/rtcm.py:14-17 | eight turns of the inner loop are eight shifts of the 24-bit register |
| Crc24q.PolyBits | src/rtcm.py:7 | the constant 0x1864CFB has exactly the bits of the generator used as reference |
| Crc24q.ChecksumIsFeed | src/rtcm.py:10-18 | feeding a shift register bit by bit gives the remainder of long division |
| Crc24q.StepInjective | src/rtcm.py:15-17 | a register step can be undone: different 24-bit states stay different |
| Crc24q.ChecksumLinear | src/rtcm.py:10-18 | the CRC of the exclusive or of equally long messages is the exclusive or of their CRCs |
| Crc24q.ComparisonDecidesCheck | src/rtcm.py:62-64 | comparing the computed number with the three trailing bytes decides whether the trailer is the remainder |
| Crc24q.CheckIsZeroResidue | src/rtcm.py:60-64 | a frame passes the check exactly when the remainder of the whole frame, trailer included, is zero |
| Crc24q.OnlyTheCrcFits | src/rtcm.py:60-64 | appending the CRC gives residue zero, and no other three bytes do |
| Crc24q.BurstLeavesResidue | src/rtcm.py:10-18 | an error pattern within 24 consecutive bits never has residue zero |
| Crc24q.OddLeavesResidue | src/rtcm.py:7-18 | an error pattern of odd weight never has residue zero, since the generator has even weight |
| Crc24q.ErrorDetected | src/rtcm.py:60-67 | a valid frame fails the check after any burst of at most 24 bits and after any odd number of flipped bits |
| Rtcm.MessageTypeIsFirstTwelveBits | src/rtcm.py:21-24 | the type is the number in the first twelve bits of the payload, and is missing below two bytes |
| Rtcm.FramesTyped | src/rtcm.py:69-74 | every frame found in a stream is reported with the type in its own bits 24 to 35 |
| Rtcm.ClassifyLawful | src/rtcm.py:45-75 | accepted frames are prefixes of the buffer, verdicts survive more bytes, and a frame cut short is waited for |
| Rtcm.RtcmStreamParser.Feed | src/rtcm.py:37-77 | frames, error count and buffer are those of scanning the old buffer followed by the chunk; the loop ends |
| Rtcm.RtcmStreamParser.Turn | src/rtcm.py:44-75 | one turn leaves what is still to be found unchanged, and shortens the buffer unless more bytes are needed |
| Rtcm.RtcmStreamParser.SkipToPreamble | src/rtcm.py:46-51 | skipping drops a prefix without any frame and stops at a preamble |
| Rtcm.RtcmStreamParser.Inspect | src/rtcm.py:52-75 | the head is waited for, rejected or accepted as specified |
| Scanner.ScanAppend | src/rtcm.py:37-77 | scanning a stream is scanning a part of it and then the residual with the rest |
| Rtcm.RtcmChunking | src/rtcm.py:37-77 | however a stream is cut into `feed` calls, frames, summed errors and buffer are those of one call |
| Rtcm.ResidualBound | src/rtcm.py:52-58 | the buffer never keeps more than 1028 bytes; frames, errors and residual fit in the input |
| Rtcm.RtcmGreedy | src/rtcm.py:43-77 | a greedy leftmost parse of the stream exists, and any has the frames, the errors and the residual of the scan |
| Scanner.GreedyUnique | src/rtcm.py:43-77 | two greedy leftmost parses of a stream have the same frame positions and the same residual |
| Scanner.MissedFrameOverlaps | src/rtcm.py:43-77 | a valid frame in the consumed part that was not emitted overlaps an emitted frame that starts earlier |
| Scanner.ErrorsAreRejections | src/rtcm.py:64-73 | the error count is the number of rejected positions outside the emitted frames |
| Rtcm.FrameAtIsValidFrame | src/rtcm.py:52-74 | the frames of that parse are the valid ones: preamble, whole, right check, payload of at least two bytes, ten-bit length |
| Rtcm.ErrorsAreSkippedPreambles | src/rtcm.py:64-73 | the error count is the number of 0xD3 bytes skipped before the residual |
| Rtcm.DamagedFrameRejected | src/rtcm.py:60-67 | with preamble and length intact, a frame with a detectable error is rejected at its position, whatever follows |
| Scanner.ScanWhole | src/rtcm.py:37-77 | whole frames in front of any bytes are found first, without errors |
| Scanner.ScanCut | src/rtcm.py:37-77 | whole frames cut off anywhere scan without errors into a prefix of them and the cut frame |
| Messages.BitReader.ReadBits | src/rtcm.py:88-98 | reads exactly the next bits as a number, most significant first, and fails exactly at the end of the data |
| Messages.BitReader.ReadBytes | src/rtcm.py:100-109 | aligns, returns the bytes that are there, and advances by the number asked for |
| Messages.ReadSplits | src/rtcm.py:88-98 | reading `a` and then `b` bits splits what reading `a + b` bits gives |
| Messages.FieldReadBack | src/rtcm.py:88-98 | every field of an encoded bit sequence is read back from its place, whatever follows |
| Messages.ParseRtcm1005Or1006 | src/rtcm.py:139-169 | the sequence of reads returns the specified fields and fails exactly on other types and short payloads |
| Messages.StationRoundTrip | src/rtcm.py:139-169 | every station id, signed 38-bit coordinate and height survives encoding and parsing, whatever the skipped bits are |
| Messages.StationParsesIffLaidOut | src/rtcm.py:139-169 | a payload parses to a station exactly when it starts with an encoding of it; other types and short payloads give none |
| Messages.EncodeStation | src/rtcm.py:139-169 | the byte encoding has 19 or 21 bytes and parses back |
| Messages.ReadAntenna | src/rtcm.py:172-185 | the sequence of reads finds the specified descriptors, always reading texts at byte boundaries |
| Messages.ParseRtcm1007Or1008 | src/rtcm.py:172-191 | the result is those descriptors decoded and stripped, and leaves out an empty serial |
| Messages.TextKeptIff | src/rtcm.py:118 | decoding and stripping keeps the characters of a text exactly when it is ASCII without white space around it |
| Messages.TextOfPadded | src/rtcm.py:118 | white space and bytes that are not ASCII around a text are taken away, and nothing of the text |
| Messages.AntennaParsesIffLaidOut | src/rtcm.py:172-191 | messages 1007 and 1008 parse exactly when they are laid out as such, all complete but possibly the serial |
| Messages.AntennaTextsReturned | src/rtcm.py:172-191 | trimmed descriptor and serial come back in their fields, and no serial exactly when it is absent or empty |
| Messages.AntennaRoundTrip | src/rtcm.py:172-191 | descriptors and serials of all lengths 0 to 255 are found again after encoding |
| Messages.ReadReceiver | src/rtcm.py:112-127 | the sequence of reads finds the five texts, always reading texts at byte boundaries |
| Messages.ParseRtcm1033 | src/rtcm.py:112-136 | the result is those five texts decoded and stripped |
| Messages.ReceiverParsesIffLaidOut | src/rtcm.py:112-136 | message 1033 parses to five texts exactly when they stand in the payload, all complete but possibly the last |
| Messages.ReceiverRoundTrip | src/rtcm.py:112-136 | five texts of all lengths 0 to 255 are found again after encoding |
| Messages.ReceiverTextsReturned | src/rtcm.py:112-136 | five trimmed texts put into message 1033 come back each in its own field |
| Tiers.TokenBucket.Consume | src/tiers.py:22-32 | the new bucket and the answer are those of refilling up to the capacity and then paying |
| Tiers.TokenBucket.TimeToAvailable | src/tiers.py:34-44 | refills without paying, and returns the time the missing tokens take |
| Tiers.RefillComposes | src/tiers.py:26-28 | refilling at two moments is refilling at the later one |
| Tiers.RunKeepsValid | src/tiers.py:22-44 | along every run the tokens stay between 0 and the capacity |
| Tiers.QueriesChangeNothing | src/tiers.py:34-44 | extra `time_to_available` calls never change an answer of `consume` |
| Tiers.WindowBound | src/tiers.py:22-32 | in any window of any run at most the capacity plus rate times window passes |
| Tiers.PassesIffWithinRate | src/tiers.py:22-32 | after any run `consume(n)` succeeds exactly when `n` is at most the capacity and, with `n`, neither the whole run nor any window since an operation exceeds its tokens plus rate times time |
| Tiers.UnlimitedPasses | src/tiers.py:23-24 | a bucket without a rate or a capacity lets everything through, at once |
| Tiers.EarnedIsProduct | src/tiers.py:28 | the tokens earned in a time span are its product with the rate |
| Tiers.WaitSuffices | src/tiers.py:34-44 | after the wait it returned, `consume(n)` succeeds if `n` fits in the bucket |
| Tiers.WaitIsLeast | src/tiers.py:34-44 | and after any shorter wait it fails |
| Tiers.WaitPaysMissing | src/tiers.py:40-44 | rate times the wait is what is missing, whatever the amount |
| Tiers.PassesEventuallyIffFits | src/tiers.py:22-32 | `consume(n)` can ever succeed exactly when `n` is at most the capacity |
| Tiers.OffersSpaced | src/tiers.py:54-60 | offers to a gated rover are at least a period apart, the last one before included |
| Tiers.KeptBackIffEarly | src/tiers.py:54-60 | after any data, data is kept back exactly when it comes less than 60/epm seconds after the last offer, the initial one included |
| Tiers.SpacedAllOffered | src/tiers.py:54-60 | data spaced by at least a period is offered completely |
| Tiers.UngatedAllOffered | src/tiers.py:55-56 | without a gate all data is offered |
| Tiers.GateWindow | src/caster.py:315-319 | in any window of length T a gated rover is offered at most floor(T * epm / 60) + 1 chunks |
| ByteQueues.ByteQueue.PutNowait | src/caster.py:86-100 | stores, ignores or refuses the chunk as specified, and schedules one notification when it stores |
| ByteQueues.ByteQueue.SetClosed | src/caster.py:79-84 | closes the queue and schedules a broadcast |
| ByteQueues.ByteQueue.TryGet | src/caster.py:102-110 | takes the oldest chunk, reports the end, or parks |
| ByteQueues.RunKeepsValid | src/caster.py:71-110 | in every run the byte count is exact and bounded, and parked getters have notifications under way |
| ByteQueues.InternalRunEnds | src/caster.py:79-110 | the pending tasks of a queue come to an end after a bounded number of steps |
| ByteQueues.NoLostWakeup | src/caster.py:79-110 | when they have, no getter waits beside a buffered chunk or a closed queue, for any number of getters |
| ByteQueues.Fifo | src/caster.py:86-110 | chunks stored are those handed out and those still buffered, in order |
| ByteQueues.StoredIffRoom | src/caster.py:86-100 | after any run a chunk is stored, behind all others, exactly when the queue is open and it fits beside what is buffered, and refused otherwise |
| ByteQueues.GetsNext | src/caster.py:102-110 | after any run a getter gets the oldest chunk not handed out yet, even from a closed queue; with none it is told the end exactly when the queue is closed |
| ByteQueues.ClosedDrains | src/caster.py:86-110 | a closed queue stores nothing and hands out at most what it holds |
| Hub.MountpointHub.RecordRtcmFrame | src/caster.py:180-189 | the table stays that of all frames recorded, now with one more |
| Hub.RecordedKeys | src/caster.py:180-189 | there are at most 65 keys, and below 64 exactly the distinct types seen |
| Hub.TrackedExactly | src/caster.py:183-189 | every tracked non-zero type has its exact number of occurrences since the start |
| Hub.KeyZeroHoldsTheRest | src/caster.py:186-188 | key 0 counts the frames of type 0 and of all untracked types |
| Hub.TrackedIffEarly | src/caster.py:183-189 | a non-zero type is tracked exactly when fewer than 64 distinct types came before its first frame |
| Hub.CountsAddUp | src/caster.py:180-189 | the counts sum to the number of frames |
| Hub.MountpointHub.AttachSource | src/caster.py:266-280 | succeeds exactly when the slot is free or already shows this address, and then shows it |
| Hub.MountpointHub.DetachSource | src/caster.py:282-293 | frees the slot and closes the queue of every attached rover, and changes nothing else of them |
| Hub.MountpointHub.AddRover | src/caster.py:295-299 | the session joins the rover set |
| Hub.MountpointHub.RemoveRover | src/caster.py:301-306 | only this session leaves the rover set |
| Hub.MountpointHub.OfferTo | src/caster.py:315-324 | gate, queue and drop counters of one rover change as specified |
| Hub.MountpointHub.OnSourceData | src/caster.py:308-324 | every attached rover is offered the chunk once, and the drop counter grows by the sum of what queues refused |
| SourceLoop.RecordFrames | src/caster.py:1704-1721 | every frame of a read is counted by type in order, and the chunk is their concatenation |
| SourceLoop.OnRead | src/caster.py:1696-1722 | one turn of the source loop: parser state, error, receive and drop counters and all rovers end as specified, and what is counted by type is what the frames carry in their bytes |
| SourceLoop.FanOutAgrees | src/caster.py:315-324 | the transition system leaves the attached rovers as the hub's loop does |
| SourceLoop.DetachAgrees | src/caster.py:282-293 | so it does when the source leaves |
| SendLoop.PayTurn | src/caster.py:1994-1997 | one turn of the wait loop pays or returns how long to sleep, with a clock reading for each of its two calls |
| SendLoop.PayAgrees | src/caster.py:1994-1997 | a step of the transition system pays, or refills, as that turn does |
| SendLoop.CountSent | src/caster.py:2008-2009 | a finished write is counted by session and hub |
| Delivery.RunKeepsOk | src/caster.py:1692-1724 | every step of every interleaving keeps the invariant of the whole system |
| Guarantees.EndToEnd | src/caster.py:1989-2009 | in any run, what was written to a rover is whole valid frames, a subsequence in order of what the parser found, and a fresh parser reads exactly those back, without errors and with an empty buffer |
| Guarantees.EndToEndAfterFailure | src/caster.py:1998-2007 | when the last write failed part way, what went out still scans without errors into such frames and one cut frame |
| Guarantees.EndToEndWhileWriting | src/caster.py:1998-2000 | so does what went out while a write is pending, whatever part of the chunk that is |
| Guarantees.Ledger | src/caster.py:308-324 | offered = sent + held + lost + queued + dropped (+ ignored by a queue of size 0); order, bounds, hub totals and received bytes |
| Guarantees.SizeZeroIffNegative | src/caster.py:1605 | a session's queue has size 0 exactly when `max_queue_bytes` is negative |
| Guarantees.VanishesIffSizeZero | src/caster.py:86-92 | one offer: a chunk past the gate misses every counter exactly when the open queue has size 0 |
| Guarantees.ValidatedLedger | src/caster.py:424-430 | with tiers that passed the validation, offered = sent + held + lost + queued + dropped, in any run |
| Deviations.NothingVanishesIff | src/caster.py:428-430 | the check of `max_queue_bytes` is exactly what the ledger needs: over all runs, no byte of a rover of a tier vanishes exactly when the tier passes it |
| Deviations.NegativeQueueLosesFrames | src/caster.py:428-430 | what the check keeps out: without it a rover is offered valid frames, any that two reads deliver, and they are neither queued nor counted as dropped |
| Guarantees.HeldChunkBounded | src/caster.py:1696-1722 | a chunk held by a send loop has between 8 and 5124 bytes |
| Guarantees.WaitLoopEnds | src/caster.py:1994-1997 | one wait suffices for a chunk that fits, and with a rate of at least 2562 every chunk fits |
| Guarantees.OversizeNeverPaid | src/caster.py:1994-1997 | a send loop that holds a chunk larger than its bucket never gets to write again, however the run goes on |
| Guarantees.LeavesWaitLoopIff | src/caster.py:1994-1997 | in any reachable state, the wait loop can be left to write exactly when the chunk fits in the bucket |
| Deviations.CanStallIff | src/caster.py:1594-1605 | some run leaves a rover of a tier in its wait loop for good exactly when a chunk of 8 to 5124 bytes fits in its queue but not in its bucket; with room for 5124 bytes, exactly when the rate is between 1 and 2561 |
| Deviations.StallHappens | src/caster.py:1994-1997 | for every such tier, a run of valid frames in two reads after which the send loop never writes |
| Guarantees.DetachedLoopsReturn | src/caster.py:282-293 | when the source leaves, however the run goes on, the send loop of every rover then attached takes at most buffered chunks + 1 further turns and is over once it has taken them |
| Guarantees.ClosedLoopReturns | src/caster.py:1990-1993 | with a closed queue a send loop returns within buffered chunks + 1 turns |
| Guarantees.SendLoopNeverStuck | src/caster.py:102-110 | no send loop stays parked beside a chunk or a closed queue once the notifications have run |
| RunLimits.GateHolds | src/caster.py:315-319 | in any run of the system, any window of length T offers a gated rover at most floor(T * epm / 60) + 1 chunks |
| RunLimits.OffersInRun | src/caster.py:315-319 | in any run of the system a session is offered what its gate lets through of the data there is for it |
| RunLimits.KeptBackInRun | src/caster.py:315-319 | after any run, data for a gated session is kept back exactly when it comes less than a period after the last it was offered |
| RunLimits.AllOfferedInRun | src/caster.py:315-319 | data spaced by the period, and all data without a gate, is offered completely |
| RunLimits.RateHolds | src/caster.py:1594-1596 | from any reachable state on, a send loop gets at most the capacity plus rate times elapsed time past its bucket |
| RunLimits.SentWasPaid | src/caster.py:1994-2008 | what is written in a run left the bucket in that run, but for one chunk that had left it before |
| RunLimits.WriteRateHolds | src/caster.py:1994-2008 | so what is written is bounded by capacity, rate times elapsed time and one chunk |
| Entitlements.OffersOfTier | src/caster.py:1594-1608 | from its admission on a rover is offered what the gate of its tier lets through of all data |
| Entitlements.DropsIffNoRoom | src/caster.py:320-324 | in any run, a rover of a validated tier that data reaches stores it exactly when its open queue has room for it, and has it dropped otherwise; 0 means room for 262144 bytes |
| Entitlements.MayWriteIff | src/caster.py:1994-1997 | in any run, a rate-limited rover may write its chunk exactly when neither since admission nor since any turn of its wait loop more than two seconds' worth plus rate times time is let through |
| Entitlements.UnlimitedMayWrite | src/caster.py:1594-1596 | without a rate limit it may always write |
| Admissions.NtripCaster.AdmitRover | src/caster.py:1583-1631 | refuses exactly at a limit, raises on a header that does not parse, and otherwise enters the session into hub and counters |
| Admissions.NtripCaster.TeardownRover | src/caster.py:1640-1642 | takes the session out of hub and counters |
| Admissions.AccountsBalance | src/caster.py:1628-1642 | total = sum of per-address counts = sum of rover-set sizes at every suspension point, also when replies raise |
| Admissions.ClampsNeverBind | src/caster.py:1641-1642 | every session torn down is counted, so no `max(..., 0)` ever binds |
| Admissions.LimitsHold | src/caster.py:1583-1592 | under fixed limits neither the total nor any per-address count exceeds its limit |
| Admissions.RefusedIffFull | src/caster.py:1583-1592 | after any run a rover is refused exactly when the sessions there are, or those of its address, are as many as a limit that is set |
| Admissions.CountedAreServedOrStranded | src/caster.py:1632-1642 | the total is the sessions still handled plus the replies that raised; they agree exactly when none did |
| Admissions.StrandedSessionsExhaustLimit | src/caster.py:1585-1588 | once as many replies raised as the limit allows sessions, everyone is refused |
| Admissions.StrandingHappens | src/caster.py:1630-1633 | a two-step run that leaves a session counted for good |
| Sources.ConnectIsAttach | src/caster.py:1680-1685 | past the limit check, answer and slot are those of the hub's `attach_source` |
| Sources.DecidedByConnections | src/caster.py:1672-1685 | while no reply raised, a source is busy exactly when its mountpoint is served, one too many exactly when it is not and as many connections are open as the limit, and accepted otherwise |
| Sources.OneSourcePerMountpoint | src/caster.py:266-280 | in any run at most one open connection has a mountpoint, and its address is the one shown |
| Sources.LimitHolds | src/caster.py:1672-1679 | under a fixed limit the held slots never exceed it |
| Sources.HeldMeansOpen | src/caster.py:1686-1724 | while no reply raises, every held slot has an open connection |
| Sources.StaysMannedIff | src/caster.py:1686-1689 | a step leaves a slot without a connection exactly when it is a reply that raises |
| Sources.AlwaysMannedIff | src/caster.py:1686-1724 | in a run from an idle server, no slot is ever without an open connection exactly when no reply raises |
| Sources.SlotAbandoned | src/caster.py:1680-1689 | a two-step run after which a slot is held, no connection is open, and only the same address is accepted |
| Sources.AbandonedSlotStaysBusy | src/caster.py:1680-1685 | such a slot refuses every other address from then on |
| Geofence.PointInPolygon | src/geofence.py:7-18 | the loop computes the parity of the crossings around the ring |
| Geofence.CrossesBySide | src/geofence.py:15 | for every straddling edge, the division decides the side of the point by a cross product, off by 1e-12 times a height |
| Geofence.InsideIffOddAbove | src/geofence.py:7-18 | for any ring, a point off its edges by that margin is inside exactly when an odd number of edges pass above it |
| Geofence.TriangleIff | src/geofence.py:7-18 | off that margin a point is inside a triangle exactly when it is on the same side of all three edges, whatever the orientation |
| Geofence.MixturesFoundInside | src/geofence.py:7-18 | so every proper mixture of the vertices of a triangle is found inside |
| Geofence.AboveRingIsOutside | src/geofence.py:15-17 | off that margin a point above every vertex of a ring is outside |
| Geofence.MisjudgedWithinMargin | src/geofence.py:15 | a point strictly inside a triangle, within the margin of an edge, that is found outside |
| Geofence.RaisesIffTinyEdge | src/geofence.py:15 | the division raises exactly when a straddling edge spans exactly 1e-12 degrees towards larger longitudes |
| Geofence.RotationInvariant | src/geofence.py:7-18 | where the vertex list starts does not matter, even for the division that raises |
| Geofence.ClosingInvariant | src/geofence.py:7-18 | repeating the first vertex at the end does not matter |
| Geofence.StraddlesEven | src/geofence.py:15 | an even number of edges straddles the point's meridian |
| Geofence.BelowAllCrossingsIsOutside | src/geofence.py:15-17 | a point below every crossing is outside |
| Geofence.OutsideLongitudeRange | src/geofence.py:15-17 | a point with longitude outside the range of the ring is outside |
| Geofence.ReadRings | src/geofence.py:31-48 | returns the outer ring of every polygon that has one, latitude first |
| Geofence.PointsOfPolygon | src/geofence.py:34-39 | a polygon gives its first ring, longitude read from the first coordinate and latitude from the second |
| Geofence.RingsOfMultiPolygon | src/geofence.py:40-48 | a MultiPolygon gives the rings of its polygons, one after the other |
| Geofence.RingWritten | src/geofence.py:51-55 | a ring is written longitude first, and closed exactly when it is not yet |
| Geofence.GeoJsonKeepsInside | src/geofence.py:31-55 | ring to GeoJSON (section 3.1.6 of RFC 7946) and back contains exactly the same points |
| AuditLog.AuditFile.AuditAdd | src/caster.py:555-576 | appends the line and, beyond `max_bytes`, moves every file up by one in place |
| AuditLog.MovedUp | src/caster.py:565-574 | the loop of renames from the highest number down moves every file up by one and overwrites none |
| AuditLog.AddKeepsHistory | src/caster.py:555-576 | the files in order, with the new line, lose only the oldest file, and only when the current one rotates |
| AuditLog.HistoryIsSuffix | src/caster.py:555-576 | after any number of entries the files in order are a suffix of all lines, contiguous, each at most one line too long, and no backup within the bound |
| AuditLog.NoBackupsNoRotation | src/caster.py:557-558 | without backups the current file keeps every line |
| AuditLog.BoundedIffBackups | src/caster.py:557-574 | every file stays within its bound, whatever is written, exactly when there is at least one backup |
| Relay.IoTRelay.FanOut | src/iot.py:152-163 | every subscriber's queue gets the envelope, a full one without its oldest; no queue is found dead |
| Relay.IoTRelay.AddWebsocketQueue | src/iot.py:117-118 | the queue joins the subscribers, last |
| Relay.IoTRelay.RemoveWebsocketQueue | src/iot.py:120-124 | removes this queue only, and an unknown queue changes nothing |
| Relay.RunExplained | src/iot.py:152-160 | in any run a queue holds exactly the latest envelopes, those received precede them in publication order, and any lost one has at least 64 newer |
| Relay.RecentIsNotLost | src/api.py:34-38 | an envelope with fewer than 64 newer ones is queued or was received |
| Relay.Conservation | src/iot.py:152-160 | published since the subscription = received + queued + publications that found the queue full |
| Relay.LosslessIffNeverFull | src/iot.py:155-157 | a subscriber has everything in order exactly when no publication found its queue full |
| Texts.SplitJoin | src/nmea.py:85 | splitting joined fields gives the fields back |
| Texts.ReadPrintInt | src/nmea.py:89-91 | a printed integer is read back by `int` |
| Texts.ReadPrintHex | src/nmea.py:11 | two hexadecimal digits are read back by `int(..., 16)` |
| Texts.ReadHexForms | src/nmea.py:11 | `int(..., 16)` reads digits of either case, also behind the prefix `0x` |
| Texts.ReadPaddedInt | src/nmea.py:89-91 | `int` ignores white space around the digits |
| Texts.ReadSignedInt | src/nmea.py:89-91 | and reads a sign before them |
| Texts.UnderscoreIgnored | src/nmea.py:89-91 | `int` ignores a single underscore between two digits |
| Texts.JunkIsNoNumber | src/nmea.py:89-93 | `int` refuses a text with any character but digits, signs, underscores and white space |
| Gsv.ComputeChecksumOk | src/nmea.py:6-17 | accepts exactly when the number after the last star is the exclusive or of the characters between the first and it |
| Gsv.ChecksumDecides | src/nmea.py:6-17 | two hexadecimal digits behind the last star are accepted exactly when they are the exclusive or of the body |
| Gsv.DamageRefused | src/nmea.py:6-17 | a printed sentence with any one character between the first and the checksum changed is refused |
| Gsv.ReadOnlyIf | src/nmea.py:80-92 | only a line with a dollar sign, the right checksum, three commas and three numbers is read |
| Gsv.JunkGroupSkipped | src/nmea.py:96-108 | a group with a field that is not a number is skipped alone |
| Gsv.LeftoverIgnored | src/nmea.py:96 | up to three fields left over are ignored |
| Gsv.ParseGsvLine | src/nmea.py:80-109 | the checks, the three numbers and the loop over groups of four fields give the specified sentence |
| Gsv.ParsePrinted | src/nmea.py:80-109 | a printed, checksummed sentence is read back with its satellites except those numbered 0, and refused exactly when it has none |
| Gsv.ReadBackIff | src/nmea.py:80-109 | every satellite of a printed sentence is read back exactly when there is one and none is numbered 0 |
| GsvSeries.RoverNmea.OnGsv | src/caster.py:1924-1939 | pending total, number, satellites and the reported values change as specified |
| GsvSeries.SeriesReported | src/caster.py:1926-1939 | sentences 1..N, with satellites in the first and the last, report the mean over exactly the rows read from them, whatever was pending |
| GsvSeries.SeriesReportsMean | src/caster.py:1936-1939 | that is the mean of positive SNRs over exactly the satellites printed, exactly when those numbered 0 are harmless |
| GsvSeries.NoReportWithoutLast | src/caster.py:1936-1939 | without satellites in the last sentence nothing is reported |
| GsvSeries.StaleSatellitesCount | src/caster.py:1929-1934 | without satellites in the first, an unfinished series of the same length is counted in |
| GsvSeries.AlwaysRightIff | src/caster.py:1926-1939 | the mean over exactly the satellites printed is reported in every state some lines lead to, exactly when first and last sentences have satellites and those numbered 0 are harmless |
| GsvSeries.ZeroNumberMisreported | src/nmea.py:104-105 | a single satellite numbered 0 with SNR 40 is reported as 0 |
| RefreshTokens.JwtManager.RevokeJti | src/jwt_auth.py:62-71 | lists the identifier unless its expiry has passed |
| RefreshTokens.JwtManager.IsRevoked | src/jwt_auth.py:73-87 | answers whether a listing is still in force, and deletes it when it is not |
| RefreshTokens.JwtManager.Decode | src/jwt_auth.py:89-101 | accepts exactly an unexpired token of the expected type that is not listed |
| RefreshTokens.JwtManager.RefreshRoute | src/caster.py:1062-1075 | an accepted refresh token is revoked in the same request |
| RefreshTokens.TableMirrors | src/jwt_auth.py:62-87 | in any run the table holds the expiry last written for an identifier, or nothing once that has passed, despite the lazy deletions |
| RefreshTokens.InForceIffFuture | src/jwt_auth.py:73-87 | comparing an expiry with the truncated clock is comparing it with the clock |
| RefreshTokens.AcceptedIff | src/jwt_auth.py:89-101 | after any requests, a token of either kind is accepted exactly when it has not expired, is of the kind asked for, and nothing is in force for its identifier |
| RefreshTokens.KindsApart | src/jwt_auth.py:89-101 | a refresh token never passes as an access token, nor the other way round |
| RefreshTokens.RevokedIsRefused | src/jwt_auth.py:62-101 | a token of either kind is refused as long as the revocation written last for it is in force |
| RefreshTokens.ExchangeIff | src/caster.py:1062-1070 | after any requests at all, a presented refresh token is exchanged exactly when nothing is in force for its identifier at the lookup |
| RefreshTokens.ExchangedOnceIff | src/caster.py:1062-1075 | a token is exchanged at most once exactly when something is in force whenever it is presented after an exchange |
| RefreshTokens.RevocationDecides | src/caster.py:1076-1089 | after a revocation with any expiry not yet passed, the token is exchanged next exactly when that expiry has passed |
| RefreshTokens.ExchangedIsSpent | src/jwt_auth.py:62-87 | with own-expiry revocations, an exchanged token stays listed until it has expired |
| RefreshTokens.ReplayIffStraddles | src/caster.py:1062-1075 | with own-expiry revocations, an exchanged token is exchanged again exactly when it expires between the two checks of that request |
| RefreshTokens.OnceIffNoneStraddles | src/caster.py:1062-1075 | with own-expiry revocations, it is exchanged at most once exactly when no such request follows an exchange |
| RefreshTokens.AtMostTwice | src/caster.py:1062-1075 | with own-expiry revocations, it is never exchanged a third time |
| RefreshTokens.ReplayHappens | src/caster.py:1062-1075 | two requests that exchange the same token |
| RefreshTokens.EarlierExpiryReopens | src/caster.py:1076-1089 | a revocation with an earlier expiry than the token's own lets an exchanged token through again |

## Left out

- Sockets, TLS, HTTP parsing and routing, authentication, logging, metrics, MQTT, Redis, protobuf, PyJWT and hashing are
  not part of this model. A write succeeds, fails or is cancelled, after any number of bytes went out; a read returns
  1 to 4096 bytes.
- Floating point: clocks, token counts, coordinates and means are exact reals, and the scaling by 0.0001 of messages
  1005 and 1006 is left out, so coordinates and heights are raw integers.
- The locks of the hub: no critical section suspends while holding one, so they are never contended.
- SourceLoop.RecordFrames: recording the station information that the message parsers return, and passing frames to the
  relay, are left out.
- SourceLoop.OnRead: recording station information and passing frames to the relay are left out here too.
- Hub.MountpointHub.DetachSource: closing the rovers' writers is left out, as all sockets are.
- Shutdown (`NtripCaster.close`) and configuration reload, other than limits that change between admissions.
- `ecef_to_geodetic`, `haversine_m`, the spoofing and jamming heuristics, alerts, the source table and user administration.
- ByteQueues.RunKeepsValid: a getter cancelled while it waits in the condition is modelled only in `Delivery`, where a
  queue has one getter, as in the source.
- Sources.OneSourcePerMountpoint: peer addresses of connections open at the same time are distinct, as they are for
  sockets; a second connection with the address already shown would be accepted.
- Hub.MountpointHub.OnSourceData: the rover set is a sequence in some order, since the source iterates over a snapshot
  of a set; rovers and queues are never shared between sessions.
- Delivery.RunKeepsOk: the wait between two attempts to consume is any delay, and the rover's read loop appears only as
  the cancellation of its send loop. Such a cancellation may end the loop before or after the session is torn down.
- Tiers.TokenBucket.Consume: rates are integers, as those of tiers are; the admin request limiter, which uses the same
  class with a fractional rate (src/caster.py:645-655), is left out.
- AuditLog.HistoryIsSuffix: file operations succeed, and the in-memory list and event queue of audit items are left out.
- Relay.IoTRelay.FanOut: a queue subscribes at most once, as every connection makes a queue of its own.
- Relay.RunExplained: the relay's own input queue, MQTT publication and serialisation errors happen before the fan-out
  and are left out, so what is published is what reaches it.
- Texts.ReadPrintInt: `int` is modelled on ASCII text, without other decimal digits or white space and without the limit
  of 4300 digits.
- Gsv.ParsePrinted: which talker and sentence names reach `parse_gsv` is decided before it and left out; the header is
  any ASCII text without a comma.
- GsvSeries.AlwaysRightIff: `read_line` ends the session on a line of more than 1024 bytes (src/caster.py:1728), so a
  longer sentence is never parsed; that limit is left out.
- RefreshTokens.ReplayIffStraddles: identifiers are unique and revocations of a token carry its own expiry;
  `ExchangeIff` and `ExchangedOnceIff` assume neither. The clock does not go back.
- `parse_gga`, `parse_gsa`, RMC, VTG and ZDA parsing, bounding boxes, the device shadow and the deployment files would add
  only easy members.
