# A Dafny model of the K230 radio service

The service sits between a host (the consensus node on the Linux core) and a half-duplex
LR2021 radio. Host bytes arrive through a shared-memory ring, a byte-at-a-time parser turns
them into commands, a worker queues frames, sweeps channels, throttles itself when hot, and
sends each frame as a burst of 511-byte `[FB]` packets. This project models those stateful
pieces and proves what they keep over whole runs.

| file | what it models |
|---|---|
| `Bytes.dfy` | 32-bit arithmetic, little-endian fields, the wrapped deadline test |
| `Crc32.dfy` | the burst CRC-32: the code's loops, burst-error detection, meaning as a polynomial remainder |
| `Burst.dfy` | packet layout, header checks, reassembly |
| `BurstTransmit.dfy` | the retry loop of one burst |
| `RxLoop.dfy`, `RxTiming.dfy` | the receive loop of one worker poll; what ends it and when, in real time |
| `IpcRing.dfy` | the ring, its drop-oldest writer and its read-ahead reader |
| `ConcurrentRing.dfy` | the same ring with both sides interleaved step by step, drops included |
| `CommandParser.dfy`, `CommandGrammar.dfy` | the command parser, and the language it accepts |
| `DeviceFrames.dfy` | the frames sent to the host, and a reader of them |
| `WorkerSpec.dfy`, `WorkerSafety.dfy`, `WorkerService.dfy` | the worker as a state machine, what its runs keep, and its code as a class |
| `WorkerEffects.dfy` | what the worker's operations do, in the source's numbers and without the functions that define them |
| `Hysteresis.dfy` | temperature thresholds over whole histories |
| `ServiceSpec.dfy`, `ServiceSafety.dfy` | the whole service as a state machine, and what its runs keep and tell the host |
| `HostView.dfy`, `HostSafety.dfy` | what a host that reads the bytes frame by frame makes of them, resets included |
| `HostServer.dfy` | the server's code: commands, worker callbacks, the poll |
| `Superloop.dfy` | the main loop: each turn extends the run since start-up |
| `Layouts.dfy` | frames, commands and packets byte by byte, texts and constants |
| `HostContract.dfy`, `HostReports.dfy` | each command's answer and effect; scan reports, packets and statistics as the host reads them over whole runs |
| `EndToEnd.dfy` | the composition from host bytes to reassembled payload |
| `Progress.dfy` | bounded response: an accepted frame's terminal after so many turns |

Code that updates state is a class or a method with loops, proved against a specification
function; the results about whole runs are lemmas about those functions. `RxTiming`, `WorkerEffects`,
`Layouts`, `HostContract` and `HostReports` say what these functions do in fields, bytes, numbers
and real time, without calling them by name.

## How the surroundings are modelled

- The radio is an oracle: any start result, any interrupt flags, any FIFO level, any packet.
  For transmission it is a pair of functions of packet, attempt and poll number
  (`BurstTransmit.Radio`); for reception a sequence of observations (`RxLoop.Look`).
- The host's writes to the incoming ring are acts of the service's machine
  (`ServiceSpec.HostAct`), each as one write of the kind `writeAll` makes.
- The clock is an unbounded number of which the code sees the value modulo 2^32.
- What the radio was told, its power pin, what was called back and what was accepted is kept
  in plain fields (`Air`, `TxSide`, `Sweep.reports`), so that statements can speak of it. What
  the host was told is a list of notes (`ServiceSpec.Note`) with the cause of each frame.
- A run of the worker contains only bursts that the transmit loop can produce
  (`WorkerSpec.Enabled`), and a run of the service only operations that a byte or a poll
  performs (`ServiceSpec.May`); the code's methods are proved to perform such steps.
- A 32-bit CRC register is its 32 bits, least significant first.
- The thermal level a source asks for may be any integer.

## Where the code and its documents differ

The model follows the code.

- The TX queue holds 16 frames (`service/src/radio_worker.cpp:301`), not 2 (`docs/protocol.md:35`).
- Idle resynchronisation discards nothing afterwards (`service/src/serial_server.cpp:566`),
  where `docs/protocol.md:20-25` says expected minus received bytes are skipped.
- A finished sweep returns to the earlier frequency (`service/src/radio_worker.cpp:274-278`),
  where `docs/protocol.md:61-62` says it does not; the first dwell listens on the start
  channel (`service/src/radio_worker.cpp:250-255`).
- A scan CONFIG with count 0 means 27 channels and the cap is 64
  (`service/src/serial_server.cpp:359-362`), not 16 (`docs/protocol.md:58-59`).
- `writeAll` treats a corrupt tail as an empty ring but leaves it in the file
  (`service/src/serial_server.cpp:163-172`).

## Properties that hold only under a condition

- **Appending after a counter wraps.** 65520 does not divide 2^32, so a slot number jumps
  when a counter wraps. `IpcRing.AppendsUnlessHeadWrapped`: a write appends every buffer
  that fits if and only if the head counter is not below the tail. Statements about runs
  carry "fewer than 2^32 bytes since start".
- **Drop-oldest against a concurrent reader.** The writer moves the reader's tail to a value
  computed from the header it read earlier. `ConcurrentRing.DropIsSafeExactlyWhenHarmless`: the
  invariant survives a drop if and only if an idle reader's tail is not beyond the new one, and
  everything a busy reader has still to copy or publish is not below it. While all drops are so,
  every returned byte is the one written under its counter value, in order and none twice
  (`ConcurrentRing.HarmlessDropsAreSafe`); without drops the output is a prefix of the input
  (`ConcurrentRing.InterleavingsAreSafe`). Every harmful drop has a continuation that goes wrong
  (`ConcurrentRing.HarmfulDropGoesWrong`). Three runs from the empty ring show the ways it fails:
  a byte torn under the copying reader (`TornFetch`), a byte served twice after the tail moved
  back (`RepeatedByte`), and 65521 unread bytes thrown away as a corrupt header
  (`DiscardedBytes`).
- **Reading back a stream with resets.** A reset is answered by a bare 'G', which the frame
  formats do not know. `HostView.StreamIsReadExactly`: the frames are read back exactly if and
  only if there are at most two resets and nothing follows the first but resets and frames that
  look like three of them; the service never sends such frames (`HostSafety.HostReadsExactly`).
- **Telling terminals apart.** In the bytes a terminal 'G' equals the 'G' that answers CONFIG
  and 'W'. Without those two commands and resets the host finds the terminals in the bytes
  (`HostSafety.HostReadsTerminals`).
- **Staying tuned.** `WorkerSafety.RunStaysTuned`: the radio is tuned to the configured frequency
  in all states of a run if and only if every operation survives: a restart at 915 MHz, or when
  it ends a scan and the tune succeeds; any other operation when it asks for no frequency, for
  the one already tuned, or its tune succeeds. `WorkerSafety.TuningLostToRecovery` is a run that
  loses it to a recovery in which everything succeeds.
- **A CONFIG answered 'G' is in force.** The configuration is stored before the tune may fail
  (`service/src/radio_worker.cpp:218`), and a repeated CONFIG returns early (`:213-216`).
  `WorkerSafety.AcceptedConfigIsInForceExactly` is the exact condition;
  `ServiceSafety.RepeatedConfigIsAnsweredReady` is the failing input: 'E' 0x03 once, then 'G' for
  every repeat, with the radio still on 915 MHz.
- **Power at most as configured.** `WorkerSafety.RunKeepsPower`: commanded power never exceeds
  the configured one if and only if the throttle never takes effect with less than 4 dBm
  configured, no restart with less than 10 dBm, and no CONFIG fails to tune that asks for less
  power than commanded. `WorkerSafety.PowerRaised`: with -5 dBm configured it becomes 4, then 10.
- **Commanding the configured power.** `WorkerEffects.RunMatchesPower`: at level 0 the commanded
  power is the configured one, in all states of a run, if and only if every restart finds 10 dBm
  configured, every other entry to level 0 comes from the throttle or finds a match, and no CONFIG
  fails to tune at level 0 while asking for another power than commanded.
- **Thermal checks 4 s apart.** The last check's clock value 0 means "never". Two changes of the
  level are at least 4 s apart unless the first was made at clock value 0
  (`WorkerEffects.LevelChangesAreSpaced`); `CheckTakesEffectExactly` is the condition for one check.
- **Handing up received packets.** A packet that is no burst packet ends the receive loop and
  discards the burst in progress with itself. `RxLoop.NothingIsLostUnlessForeign`: everything
  read is handed up if and only if no turn of the loop read such a packet.
- **Transmitting without power.** Leaving the cutoff for a transmitting level other than 0
  leaves the power pin low. `WorkerSafety.DarkExactly`: the pin is high wherever transmission is
  allowed, in all states of a run, if and only if no step does that; no burst is then dark.
  `WorkerSafety.DarkEntryTransmits`: otherwise the next frame offered is sent without power, as
  in the run `WorkerSafety.SentInTheDark`. The fallback temperature path never does it (`WorkerSafety.FallbackNeverEntersDark`).
- **The throttle's 4 dBm.** A restart that fails leaves the pin high and 10 dBm commanded while
  the worker still takes the radio for powered down, and throttling then commands nothing.
  `WorkerSafety.LimitHoldsExactly`: a powered radio is limited to 4 dBm while throttled, in all
  states of a run, if and only if the throttle never takes effect on such a radio; it cannot
  while restarts succeed (`WorkerSafety.RestartsKeepTheLimit`).
  `WorkerSafety.ThrottledAtFullPower` is the failing run: levels 2, 0 (restart fails), 1, then a
  burst at 10 dBm with the pin high.
- **A steady host.** The parser sees no gap, whatever is written, if and only if the host's
  longest gap and the longest time a byte may lie unread add up to at most 100 ms
  (`CommandGrammar.SteadyIfPolledInTime`). In the cutoff the loop sleeps 250 ms a turn
  (`service/src/main.cpp:66-68`), so any command split over two turns is then lost.

## Model

| member | source | states |
|---|---|---|
| Crc32.Compute | service/src/burst.hpp:28-40 | The nested byte-and-bit loops return the checksum of the bit-serial register, 0 for an empty payload |
| Crc32.DetectsEveryShortBurst | service/src/burst.hpp:28-40 | Two different payloads of equal length whose differing bits lie within 32 consecutive bits never share a CRC, at any length |
| Crc32.FeedDetectsBurst | service/src/burst.hpp:34-38 | The same for the shift register from any state: equal results force equal bits |
| Crc32.AbsorbWord | service/src/burst.hpp:34-38 | Up to 32 bits fed one by one act like one word combined in and then shifted |
| Crc32.ShiftInjective | service/src/burst.hpp:37 | The shift step loses no information |
| Crc32.PolyIsReflectedGenerator | service/src/burst.hpp:27-37 | 0xEDB88320 is the IEEE 802.3 generator polynomial (section 3.2.9) with its coefficients reflected |
| Crc32.DivisionIsUnique | service/src/burst.hpp:28-40 | Quotient and remainder of the polynomial division are determined by the dividend |
| Crc32.ChecksumIsRemainder | service/src/burst.hpp:28-40 | A register value's complement is the CRC if and only if that value is the reflected remainder of M(x)·x^32 plus the all-ones preset, shifted above the message's low end, modulo the generator |
| Burst.EncodePacket | service/src/burst.hpp:55-73 | Writes exactly header, chunk and zero padding, 511 bytes, and touches nothing beyond them |
| Burst.DecodeHeader | service/src/burst.hpp:84-102 | Accepts exactly the packets with magic, 1 to 105 packets, 1 to 24576 bytes and index below total, and returns their header |
| Burst.ChunkStartsInside | service/src/burst.hpp:62-66 | The unsigned `total_len - off` never underflows for an index of the burst |
| Burst.BurstPacketIsAccepted | service/src/burst.hpp:84-102 | All of the at most 50 packets of a payload pass the receiver's checks and carry its header fields |
| Burst.BurstPacketsCountAsConsensus | service/src/burst.hpp:106-114 | Every acceptable burst packet counts as consensus traffic in a scan |
| Burst.AssembleKeeps | docs/protocol.md:129-132 | Packets of the burst never spoil a byte that is already right |
| Burst.ReassemblyRoundTrip | service/src/burst.hpp:55-73 | Reassembly returns the payload from its packets in any order, with any duplicates, over any initial buffer, once all have arrived |
| BurstTransmit.AwaitTxDone | service/src/radio_worker.cpp:345-357 | Ends for every responsive radio, across the 32-bit clock wrap; reports TX_DONE exactly when a poll made within 25 ms shows it before the radio's timeout, polls every 100 us, and otherwise gives up with that timeout or at the first poll due after 25 ms |
| BurstTransmit.AirPacket | service/src/radio_worker.cpp:335-363 | One to three attempts, all of the same packet, only the last of which completes; failure means three; each started, lasted and completed as the radio's answers to that attempt say |
| BurstTransmit.TransmitBurst | service/src/radio_worker.cpp:310-372 | The trace carries the payload's packets, each attempt for the first packet not yet completed, at most three each, at least 500 us before a retry and 220 us between packets; success exactly when every packet completed, else three failures of the next one; each attempt went as the radio answered it; packets_tx grows by the completed ones |
| BurstTransmit.IndicesNeverDecrease | service/src/radio_worker.cpp:331-371 | Packet indices never decrease along the trace |
| BurstTransmit.CompletedHasWitness | service/src/radio_worker.cpp:331-371 | Every index below the number completed saw TX_DONE |
| BurstTransmit.SuccessfulBurstReassembles | service/src/radio_worker.cpp:310-372 | Whoever hears the completed packets of a successful burst, and any others of its attempts, reassembles the payload |
| RxLoop.PollRadio | service/src/radio_worker.cpp:620-706 | Reads a packet exactly under the code's flag and FIFO conditions, and otherwise stays in a burst exactly when no error ended it |
| RxLoop.Receive | service/src/radio_worker.cpp:616-789 | When the loop ends, the packets handed up are exactly the packets read, in order; if the last one is no burst packet, exactly the prefix up to the last burst-final one; the scan counters count what was read; the loop ends exactly at the first turn after which nothing more is awaited or the burst's deadline has passed; the packets read are, in order, those of exactly the turns without CRC, length or header error that show RX_DONE (or follow a reading turn with a whole packet left), 511 bytes or more and a successful read |
| RxLoop.NothingIsLostUnlessForeign | service/src/radio_worker.cpp:708-789 | For the turns of any loop, everything read is handed up if and only if no turn read a foreign packet; such a packet ends the loop and costs itself and what follows the last burst-final packet |
| RxLoop.PrefixUpToFinalEndsInFinal | service/src/radio_worker.cpp:712-731 | That prefix ends in a burst-final packet and none follows it |
| RxTiming.WaitsAfterRead | service/src/radio_worker.cpp:708-789 | In real time and across clock wraps, after a burst packet quiet turns end the loop exactly when 10 ms have passed if more of the burst is to come; after its last packet, after 5 ms with a whole packet left in the FIFO, 4 ms with a part, at once with nothing |
| RxTiming.FirstTurnWaits | service/src/radio_worker.cpp:628-638 | A first turn that finds part of a packet has the loop wait exactly 4 ms; one that finds nothing ends it |
| RxTiming.ForeignPacketEnds | service/src/radio_worker.cpp:711-720 | A packet read that is no burst packet ends the loop in that turn |
| RxTiming.ErrorsEnd | service/src/radio_worker.cpp:641-705 | A packet with an error, too short or unreadable reads nothing and ends the loop, and so does a CRC, length or timeout flag without a packet |
| RxTiming.TallyCounts | service/src/radio_worker.cpp:676-729 | The counters are the numbers of packets read, of burst-final ones and, while scanning only, of packets and of those that start with `SLRF` or `BF` |
| RxLoop.BestRssiIsMaximum | service/src/radio_worker.cpp:680-682 | For strengths that fit the 8-bit field the scan reports the true maximum |
| IpcRing.SharedRing.WriteAll | service/src/serial_server.cpp:151-186 | For any header values the two split copies lay the buffer cyclically over the ring, and head and tail move as specified |
| IpcRing.SharedRing.constructor | service/src/serial_server.cpp:447-451 | Start-up zeroes both counters |
| IpcRing.IpcReader.ReadByte | service/src/serial_server.cpp:62-119 | Returns the next fetched byte, or fetches up to 4096 oldest bytes in two split copies, or nothing; a corrupt header empties the ring |
| IpcRing.WriteKeepsTheNewest | service/src/serial_server.cpp:162-185 | A write leaves the last min(65520, used + len) bytes of old contents and buffer |
| IpcRing.ReadTakesTheOldest | service/src/serial_server.cpp:80-105 | A read removes exactly the oldest byte and fails exactly on an empty queue |
| IpcRing.RunRefines | service/src/serial_server.cpp:62-119 | Every run of writes and reads below 2^32 bytes answers like a slotless two-part queue, and reaches only states in which neither repair branch applies |
| IpcRing.RunIsFifo | service/src/serial_server.cpp:62-119 | If no write overflows, bytes read plus bytes queued are the bytes written, in order |
| IpcRing.AppendsUnlessHeadWrapped | service/src/serial_server.cpp:173-184 | A write appends every buffer that fits if and only if the head counter is not below the tail |
| IpcRing.WriteLaysTheBuffer | service/src/serial_server.cpp:158-185 | For any header the k-th byte lands in slot (head + k) mod 65520, other slots stay, and the head moves by the length |
| IpcRing.WriteMakesRoom | service/src/serial_server.cpp:162-172 | The tail moves only when the buffer does not fit, and then leaves exactly 65520 bytes unread; a count above 65520 counts as an empty ring and leaves the tail |
| IpcRing.CorruptHeaderHeals | service/src/serial_server.cpp:80-85 | After a header that counts more than 65520 unread bytes a read returns nothing, and what is written next is exactly what the ring shows |
| ConcurrentRing.DropIsSafeExactlyWhenHarmless | service/src/serial_server.cpp:158-172 | A drop keeps the ring's invariant if and only if its new tail is not behind an idle reader and not beyond anything a busy reader has still to copy or publish |
| ConcurrentRing.HarmfulDropGoesWrong | service/src/serial_server.cpp:158-172 | Every other drop that a run reaches has a continuation in which a byte still to be copied is overwritten, a byte is fetched again, or the reader takes the header for corrupt |
| ConcurrentRing.HarmlessDropsAreSafe | service/src/serial_server.cpp:77-104 | In every interleaving with only such drops, each returned byte is the one written under its counter value, in order and none twice; the counters stay within 65520 and no repair is ever due |
| ConcurrentRing.QuiescentRingShowsTheRest | service/src/serial_server.cpp:155-185 | With both sides idle the ring shows exactly the bytes written from the tail on |
| ConcurrentRing.InterleavingsAreSafe | service/src/serial_server.cpp:77-104 | In every interleaving of header reads, byte copies and publications without a drop, bytes returned are a prefix of bytes written |
| ConcurrentRing.QuiescentRingLosesNothing | service/src/serial_server.cpp:155-185 | After such an interleaving, with both sides idle, bytes written are those returned, fetched and still in the ring |
| ConcurrentRing.TornFetch | service/src/serial_server.cpp:167-172 | A run from the empty ring in which a drop under a copying reader makes it return a byte that was never published |
| ConcurrentRing.RepeatedByte | service/src/serial_server.cpp:158-171 | A run in which a drop from a stale header moves the tail back and a byte is returned twice |
| ConcurrentRing.DiscardedBytes | service/src/serial_server.cpp:81-85 | A run in which a reader publishes below the new tail and the next read throws all unread bytes away |
| CommandParser.SerialParser.OnByte | service/src/serial_server.cpp:558-700 | One byte moves the parser, its in-place buffers and the dispatched commands exactly as specified |
| CommandParser.StepYieldsOneBoundedEvent | service/src/serial_server.cpp:577-700 | A byte completes at most one command, of the announced length |
| CommandGrammar.FeedMeetsGrammar | service/src/serial_server.cpp:572-700 | From rest, on any byte string, the parser yields exactly the commands and length errors of the recursive grammar |
| CommandGrammar.StreamMeetsGrammar | service/src/serial_server.cpp:558-700 | The same for timed bytes with no gap over 100 ms, wherever the clock wraps, and nothing counts as killed |
| CommandGrammar.SteadyIfPolledInTime | service/src/main.cpp:62-76 | No gap over 100 ms is seen for any bytes and schedule if and only if the host's longest gap plus the longest time a byte lies unread is at most 100 ms |
| CommandGrammar.FrontOfEncoding | docs/protocol.md:29-83 | The grammar reads the encoding of any command back, whatever follows |
| CommandGrammar.CommandListIsDispatched | service/src/serial_server.cpp:577-700 | Concatenated encodings of any command list are dispatched one by one and leave the parser at rest |
| CommandGrammar.OversizedFrameIsDrained | service/src/serial_server.cpp:639-642 | An oversized 'T' is reported once and swallows exactly its announced length |
| CommandGrammar.ReachableStatesAreValid | service/src/serial_server.cpp:607-698 | In every reachable state each write index is inside its buffer, and in the length states the tag is 'C' or 'T' |
| CommandGrammar.GapResynchronises | service/src/serial_server.cpp:561-569 | From any valid state a gap over 100 ms puts the parser back in step, and the killed counter rises by one exactly for payload, config, window and second length byte |
| CommandGrammar.GapThenCommandIsDispatched | service/src/serial_server.cpp:561-700 | A well-formed command after such a gap is dispatched |
| Layouts.PacketLayout | docs/protocol.md:116-137 | A burst's packet byte by byte: magic, id, index, count, length and CRC in little-endian fields, the payload's bytes from 495 i on, zeros up to 511 |
| Layouts.HeaderTest | service/src/burst.hpp:84-102 | The receiver's test in bytes: `BF`, 1 to 105 packets, 1 to 24576 bytes, index below the count |
| Layouts.CommandLayouts | docs/protocol.md:29-83 | The encodings that the grammar reads back are the documented bytes |
| Layouts.ScanLayout | docs/protocol.md:70-75 | The same for 'Q': count, dwell, then the i-th frequency at offset 6 + 4 i |
| Layouts.ConfigLayout | docs/protocol.md:44-55 | The 15 bytes of a CONFIG body |
| Layouts.UnfitLengths | service/src/serial_server.cpp:628-651 | A 'T' length of 0 or above 24576 yields one error and swallows that many bytes; a CONFIG length other than 15 and 17 yields one error and swallows nothing |
| Layouts.PassedOver | service/src/serial_server.cpp:578-605 | A 'T' without 'X', a 'Q' count of 0 or above 16, and any byte that is no tag yield nothing and the next byte is read as a tag |
| Layouts.FrameLayouts | docs/protocol.md:85-114 | The frames that the reader recovers are the documented bytes |
| DeviceFrames.DeviceWriter.WriteReady | service/src/serial_server.cpp:247-261 | Sends the 'G' frame in one write |
| DeviceFrames.DeviceWriter.WriteError | service/src/serial_server.cpp:263-275 | Sends the 'E' frame, its text cut at 64 bytes |
| DeviceFrames.DeviceWriter.WriteFrame | service/src/serial_server.cpp:212-220 | Sends tag, 16-bit length and payload in two writes, one if the payload is empty |
| DeviceFrames.DeviceWriter.WriteStats | service/src/serial_server.cpp:277-285 | Sends the 'S' frame with its 68-byte body |
| DeviceFrames.DeviceWriter.WriteRx | service/src/serial_server.cpp:287-311 | Sends the 'R' frame in one write up to 512 bytes and in three beyond |
| DeviceFrames.DeviceWriter.WriteDiag | service/src/serial_server.cpp:313-322 | Sends the 9-byte 'D' frame |
| DeviceFrames.StreamIsDecodable | docs/protocol.md:85-114 | A reader of the documented formats recovers any frame sequence exactly |
| HostView.StreamIsReadExactly | service/src/serial_server.cpp:399-405 | With the resets' bare 'G' bytes in it, any stream is read back frame by frame if and only if there are at most two resets and nothing but resets (or frames of three 'G' bytes) after the first |
| HostView.AfterReset | service/src/serial_server.cpp:399-405 | What follows stray 'G' bytes is read back if and only if they and the resets to come are at most two and no other frame comes |
| HostSafety.HostReadsExactly | service/src/serial_server.cpp:212-322 | In every state the service reaches, a host reads back exactly the frames told if and only if at most two resets were answered and nothing was told after the first |
| HostSafety.HostReadsTerminals | docs/protocol.md:85-105 | In every run without CONFIG, 'W' and reset, the 'G' and 'E' 0x05 and 0x06 frames the host reads are the start-up's 'G' and then the terminal of each finished frame, in order |
| DeviceFrames.PiecesKeepTheNewest | service/src/serial_server.cpp:151-186 | However a stream is cut into writes, the ring shows its newest 65520 bytes |
| DeviceFrames.CarriedFramesAreRead | service/src/serial_server.cpp:151-186 | From a ring that was empty and has not overflowed the host reads back exactly the frames written |
| WorkerService.RadioWorker.constructor | service/src/radio_worker.cpp:122-190 | A started worker: 915 MHz, 10 dBm, empty queue, no scan |
| WorkerService.RadioWorker.Init | service/src/radio_worker.cpp:122-190 | A restart drives the power pin high and commands 10 dBm and, if it succeeds, 915 MHz |
| WorkerService.RadioWorker.ApplyConfig | service/src/radio_worker.cpp:201-235 | Clamps power by thermal level, returns early on an unchanged configuration, ends a scan, tunes and sets power as specified |
| WorkerService.RadioWorker.StartScan | service/src/radio_worker.cpp:237-256 | Remembers home only when not already scanning, resets the counters and tunes to the start |
| WorkerService.RadioWorker.ScanTick | service/src/radio_worker.cpp:258-294 | Ends a channel when its dwell is over or consensus was heard, and moves on or goes home |
| WorkerService.RadioWorker.EnqueueTx | service/src/radio_worker.cpp:296-308 | Takes a frame or refuses it, as specified |
| WorkerService.RadioWorker.DrainQueue | service/src/radio_worker.cpp:494-508 | Drops all queued frames and reports one terminal for each, in order |
| WorkerService.RadioWorker.ThermalTick | service/src/radio_worker.cpp:374-540 | At most one check in 4 s; a new level takes effect as specified |
| WorkerService.RadioWorker.ServiceTxQueue | service/src/radio_worker.cpp:542-583 | Sends the oldest frame when allowed, with one terminal, and records a burst that the transmit loop produced from the radio's answers; throttled it rests 15 ms after it |
| WorkerService.RadioWorker.ReceivePackets | service/src/radio_worker.cpp:605-789 | Runs the loop to its end, hands up what is deliverable of the packets read in the turns up to it, and adds them to the scan's counters |
| WorkerService.RadioWorker.UseRadio | service/src/radio_worker.cpp:595-793 | With the radio up and a role byte other than 1 the receive loop runs to its end and hands up what it read; with role 1 nothing is read; then the oldest frame is sent if the role is not 2, no scan is active and the level is below 2; each as its operation |
| WorkerService.RadioWorker.PollOnce | service/src/radio_worker.cpp:585-794 | The thermal check comes first; below level 2 a scan's dwell is looked at, and one that is over adds exactly one report; then the receive loop runs to its end and the oldest frame is sent under UseRadio's conditions; the operations performed are a run of the state machine |
| WorkerSpec.OneTerminalPerFrame | service/src/radio_worker.cpp:296-308 | Over every run accepted frames are finished ones plus queued ones, the i-th terminal is for the i-th accepted frame, and at most 16 wait |
| WorkerSpec.LeadsIsRun | service/src/main.cpp:62-64 | Operations that the code's methods promise to perform one after the other are a run, so the theorems about runs apply to them |
| WorkerSafety.RunIsThermallySafe | service/src/radio_worker.cpp:477-539 | Over every run power is at most 10 dBm; at level 2 the power pin is low and the queue empty; every burst met the 10 dBm limit, below level 2 and outside scans |
| WorkerSafety.LimitHoldsExactly | service/src/radio_worker.cpp:509-519 | Over every run a powered radio is limited to 4 dBm while throttled, and so is every burst, if and only if the throttle never takes effect on a powered radio marked as powered down above 4 dBm |
| WorkerSafety.RestartsKeepTheLimit | service/src/radio_worker.cpp:520-532 | While restarts succeed that never happens |
| WorkerSafety.ThrottledAtFullPower | service/src/radio_worker.cpp:122-153 | The failing run: after a failed restart and the throttle, any frame offered is sent at 10 dBm with the power pin high |
| WorkerSafety.DarkExactly | service/src/radio_worker.cpp:480-538 | Over every run the power pin is high wherever transmission is allowed, and at every burst, if and only if no step enters a transmitting level other than 0 with the pin low |
| WorkerSafety.DarkEntryTransmits | service/src/radio_worker.cpp:509-518 | After such a step the next frame offered is sent with the power pin low |
| WorkerSafety.SentInTheDark | service/src/radio_worker.cpp:509-518 | The run from start-up: cutoff, throttle, then any frame offered is sent with the power pin low |
| WorkerSafety.FallbackNeverEntersDark | service/src/radio_worker.cpp:456-466 | A run whose levels all come from the worker's own temperature path has no such step |
| WorkerSafety.SweepIsExact | service/src/radio_worker.cpp:258-294 | An uninterrupted sweep reports its grid channel by channel, exactly `count` once over, and each report counts exactly the packets, consensus packets and best strength read while that channel was dwelt on |
| WorkerSafety.EachChannelDwells | service/src/radio_worker.cpp:262-266 | A tick ends a channel if and only if its dwell has really passed since the channel started or consensus was counted, across clock wraps |
| WorkerSafety.SweepReturnsHome | service/src/radio_worker.cpp:239-278 | Completing a sweep tunes back to the frequency in force before scanning first became active, restarts included |
| WorkerSafety.TuningIsKeptExactly | service/src/radio_worker.cpp:201-290 | One operation keeps the radio tuned to the configured frequency if and only if it survives: a restart at 915 MHz or ending a scan with a successful tune; any other when it asks for no frequency, for the one tuned, or its tune succeeds |
| WorkerSafety.RunStaysTuned | service/src/radio_worker.cpp:201-290 | Over every run, with any failing tunes, the radio is tuned to the configured frequency in all states if and only if every operation survives in that sense |
| WorkerSafety.TuningLostToRecovery | service/src/radio_worker.cpp:526-532 | The run from start-up: another frequency is configured, then cutoff and recovery, all succeeding, leave the radio at 915 MHz |
| WorkerSafety.AcceptedConfigIsInForceExactly | service/src/radio_worker.cpp:207-233 | An accepted CONFIG is in force if and only if the radio already had what the code took for unchanged: the frequency on an early return, and the power when it equals the configured one |
| WorkerSafety.PowerIsKeptExactly | service/src/radio_worker.cpp:212-229 | One operation keeps the commanded power at or below the configured one if and only if it is no throttle with less than 4 dBm configured, no restart with less than 10, and no CONFIG that fails to tune while asking for less than commanded |
| WorkerSafety.RunKeepsPower | service/src/radio_worker.cpp:509-538 | The same over every run |
| WorkerSafety.PowerRaised | service/src/radio_worker.cpp:509-538 | The run from start-up: -5 dBm configured, 4 dBm when throttled, 10 dBm after cutoff and recovery |
| WorkerEffects.SweepListensOnItsChannels | service/src/radio_worker.cpp:237-294 | In an uninterrupted sweep whose tunes succeed, every state with the sweep active has the radio on (start + idx · step) mod 2^32 |
| WorkerEffects.SweepReportsItsChannels | service/src/radio_worker.cpp:268-272 | The i-th report of a sweep names (start + i · step) mod 2^32 |
| WorkerEffects.ConfigIsAcceptedExactly | service/src/radio_worker.cpp:201-235 | A CONFIG is stored with its power cut to 10 or, from level 1 on, 4 dBm, and accepted if and only if nothing changes outside a scan, no frequency is asked for, or the tune succeeds; a radio that is down takes none |
| WorkerEffects.ConfigEndsTheSweep | service/src/radio_worker.cpp:213-218 | After any CONFIG to a radio that is up, accepted or not, no sweep is active, nothing was reported, and transmission depends on level and role alone |
| WorkerEffects.NoTickUntilNextScan | service/src/radio_worker.cpp:213-218 | From then until the next scan command a run has no active sweep, no tick and no report |
| WorkerEffects.CheckTakesEffectExactly | service/src/radio_worker.cpp:374-379 | A thermal check takes effect if and only if it comes 4 s of real time after the last one or is the first (by its clock value not being 0) |
| WorkerEffects.LevelChangesAreSpaced | service/src/radio_worker.cpp:374-379 | In any run two level changes are at least 4 s apart unless the first was made at clock value 0 |
| WorkerEffects.LevelChangeActs | service/src/radio_worker.cpp:480-538 | Per new level: the cutoff drops pin and queue; the throttle commands 4 dBm; leaving it commands the configured power; a restart is at 10 dBm and ends a scan if it succeeds; nothing else moves |
| WorkerEffects.PowerMatchIsKeptExactly | service/src/radio_worker.cpp:520-537 | One operation keeps commanded and configured power equal at level 0 if and only if a restart finds 10 dBm configured, another entry to level 0 comes from the throttle or finds a match, and no CONFIG at level 0 fails to tune while asking for another power |
| WorkerEffects.RunMatchesPower | service/src/radio_worker.cpp:520-537 | The same over every run |
| WorkerEffects.BurstsAreStartedExactly | service/src/radio_worker.cpp:542-583 | A burst starts exactly in a service with a role other than 2, no scan, a level below 2 and a queued frame; it is of the oldest frame, and its outcome is that frame's terminal |
| WorkerEffects.ReceptionOutsideScans | service/src/radio_worker.cpp:680-688 | Reception changes nothing of the worker unless a scan is active |
| Hysteresis.StageIsFiveLatches | service/src/radio_worker.cpp:441-446 | Over any temperature history the processor stage is at least k exactly when the two-threshold latch of k is on |
| Hysteresis.StageIsMonotone | service/src/radio_worker.cpp:441-446 | The next stage is monotone in stage and temperature, and settles at once |
| Hysteresis.FanIsLatch | service/src/radio_worker.cpp:434-440 | The fan flag is set exactly while the latch 45/38 is on |
| Hysteresis.CutoffIsLatch | service/src/radio_worker.cpp:456-461 | The radio is cut off exactly while the latch 82/55 is on |
| Hysteresis.ThrottleIsLatch | service/src/radio_worker.cpp:456-466 | From any level and over any history it is throttled exactly while the latch 68/60 is on and the cutoff's latch 82/55 is off |
| Hysteresis.FallbackLeavesCutoffForNormal | service/src/radio_worker.cpp:458-461 | The fallback path leaves the cutoff only below 55 degrees and only for level 0 |
| Hysteresis.SwitchingNeedsDrop | service/src/radio_worker.cpp:434-466 | A latch that comes on at one temperature and goes off at a later one needs a drop of more than the distance of its thresholds |
| Hysteresis.StageSwitchNeedsDrop | service/src/radio_worker.cpp:441-446 | A processor stage that rises to k and later falls below it needs a drop of more than 3 degrees |
| ServiceSpec.ConfigRoundTrip | service/src/serial_server.cpp:324-380 | A laid-out CONFIG body is read back field by field, scan form included; the v2 selectors change nothing |
| ServiceSpec.SweepsAreBounded | service/src/serial_server.cpp:353-366 | Any requested sweep has 1 to 64 channels and a dwell of 50 to 25500 ms |
| HostServer.SerialServer.HandleConfig | service/src/serial_server.cpp:324-382 | A CONFIG body performs one scan or configuration on the worker and sends the matching answer |
| HostServer.SerialServer.HandleScanQ | service/src/serial_server.cpp:384-397 | A 'Q' command starts a sweep with the dwell raised to 50 ms, or nothing |
| HostServer.SerialServer.HandleTx | service/src/serial_server.cpp:413-421 | A frame is enqueued and answered by diagnostic 47, or refused with 'E' 0x04 |
| HostServer.SerialServer.HandleReset | service/src/serial_server.cpp:399-411 | Sends the bare 'G' and changes nothing |
| HostServer.SerialServer.OnWorkerRx | service/src/serial_server.cpp:222-224 | A packet handed up is told by an 'R' frame |
| HostServer.SerialServer.OnWorkerTerminal | service/src/serial_server.cpp:226-233 | Success is told by 'G', everything else by 'E' with its code and text |
| HostServer.SerialServer.OnWorkerScan | service/src/serial_server.cpp:235-241 | A channel's result is told by diagnostics 50 to 53 |
| HostServer.SerialServer.MaybeEmitStats | service/src/serial_server.cpp:423-429 | Statistics on request, or unasked once 10 s have passed since the last ones |
| HostServer.SerialServer.Init | service/src/serial_server.cpp:508-513 | Start-up tells 'G', then statistics |
| HostServer.SerialServer.Dispatch | service/src/serial_server.cpp:577-700 | Each command changes the worker by its operation, is answered by its frames, and the outgoing ring carries exactly these |
| HostServer.SerialServer.PollByte | service/src/serial_server.cpp:542-703 | One byte goes from the ring through the parser to at most one handled command and a look at the statistics' cadence, which a drained byte skips |
| HostServer.SerialServer.Poll | service/src/serial_server.cpp:516-704 | A poll hands on exactly the bytes queued, leaves the queue empty, extends the service's run by them, and the outgoing ring carries what was told |
| HostServer.HostReadsWhatIsTold | service/src/serial_server.cpp:151-186 | What was told since the host emptied the ring, while it fits, is read back from the ring frame by frame if and only if resets come last |
| HostContract.ByteIsAnswered | service/src/serial_server.cpp:558-703 | A byte read has the host told exactly the documented answer to the command it completes, codes and texts included, then statistics if 10 s have passed since the last ones; a skipped byte nothing |
| HostContract.ScanCommandSweeps | service/src/serial_server.cpp:384-397 | 'Q' with 1 to 16 frequencies starts a sweep of that many channels on the first one, dwelling at least 50 ms; with others it does nothing |
| HostContract.ScanConfigSweeps | service/src/serial_server.cpp:353-370 | A CONFIG with frequency 0xFFFFFFFF starts the sweep that its fields describe, tuned to its first channel |
| HostContract.ConfigIsStored | service/src/serial_server.cpp:372-382 | Any other CONFIG body ends a sweep and stores its frequency, clamped power and role; a radio that is down takes nothing |
| HostContract.WindowIsStored | service/src/serial_server.cpp:607-621 | 'W' stores slot offset and period and leaves the worker alone |
| HostContract.OthersLeaveTheWorker | service/src/serial_server.cpp:577-700 | A byte that completes no 'T', CONFIG or 'Q' leaves the worker alone |
| HostContract.TerminalsAreTold | service/src/serial_server.cpp:226-233 | In every state the service reaches the i-th terminal told is for the i-th accepted frame: 'G' with 511 if its burst succeeded, otherwise 'E' 6 "tx dropped" |
| HostContract.TerminalCodes | service/src/serial_server.cpp:226-233 | Code and text of each outcome, busy and failed included |
| HostContract.StartIsTold | service/src/serial_server.cpp:508-513 | Every run starts with 'G' 511 and a 68-byte statistics frame |
| HostReports.HostReadsReports | service/src/serial_server.cpp:222-241 | In every state the service reaches, as long as nothing followed a reset, the host reads each packet handed up as one 'R' frame, in order, and each report as diagnostics 50 to 53 with frequency, counts modulo 2^32 and a best strength of -128 to 127 shifted by 128 |
| HostReports.NotTooOften | service/src/serial_server.cpp:423-429 | Statistics that were not asked for come no sooner than 10 s of real time after any others |
| HostReports.NoSilence | service/src/serial_server.cpp:423-429 | While the service looks for bytes at least every 2^31 ms, the host's last statistics are less than 10 s old after each look |
| Superloop.Service.constructor | service/src/main.cpp:56-59 | The service starts in the machine's start state |
| Superloop.Service.PollWorker | service/src/main.cpp:31-47 | A poll of the worker and its callbacks extend the run by the poll's operations |
| Superloop.Service.Turn | service/src/main.cpp:62-64 | A turn of the main loop extends the run since start-up by the queued bytes and then the worker's operations; the outgoing ring carries what was told |
| Superloop.PollTells | service/src/radio_worker.cpp:585-794 | The callbacks of a poll, operation by operation, are its scan reports, the packets handed up and its terminals |
| ServiceSafety.WorkerRuns | service/src/main.cpp:62-64 | Every run of the service contains a run of the worker from start-up |
| ServiceSafety.ServiceIsSafe | service/src/main.cpp:62-64 | In every state the service reaches the worker is thermally safe and every accepted frame is finished or queued, in order |
| ServiceSafety.InputIsFifo | service/src/serial_server.cpp:62-119 | Over any stretch of a run of the service in which the ring does not overflow, what was queued and written is what was read and is still queued, in order |
| ServiceSafety.ServiceMeetsGrammar | service/src/serial_server.cpp:542-703 | From start-up, on any bytes read without a gap and with any polls in between, the commands handled are exactly those of the grammar |
| ServiceSafety.RepeatedConfigIsAnsweredReady | service/src/radio_worker.cpp:213-227 | The failing input: a CONFIG whose tune fails is answered by 'E' 0x03, and its repeats by 'G' while the radio stays on 915 MHz |
| ServiceSafety.HostIsTold | docs/protocol.md:31-38 | In every state the service reaches, the host has been sent exactly one 'E' 0x04 per refused frame, a diagnostic 47 per accepted frame and a terminal frame per finished frame, each in order; launches are terminals plus queued frames |
| EndToEnd.FrameReachesWorker | service/src/serial_server.cpp:516-704 | In any run of the service a payload that the host writes as a 'T' frame in any pieces, without overflow or gap, is handed on as exactly one transmit command |
| EndToEnd.FrameIsOffered | service/src/radio_worker.cpp:296-308 | A stretch of a run that completes one transmit command offers its payload once; it is taken exactly when the radio is up, the level below 2 and fewer than 16 frames wait, and is counted as refused otherwise |
| EndToEnd.RunProves | service/src/radio_worker.cpp:542-583 | Over every run the successes reported and the bursts completed are the same frames, one for one and in order |
| EndToEnd.SuccessReachesTheAir | service/src/radio_worker.cpp:542-583 | The i-th terminal's success has a burst of its own behind it, from whose completed packets the i-th accepted frame is reassembled, each under its CRC |
| EndToEnd.ReadyMeansDelivered | service/src/serial_server.cpp:226-233 | In every run of the service, if the m-th terminal callback told the host 'G', a burst of its own delivered the m-th accepted frame |
| EndToEnd.HostReadsDelivery | docs/protocol.md:31-38 | The same read off the bytes: without CONFIG, 'W' and reset, if the m-th terminal frame that the host decodes is a 'G', the m-th accepted frame was delivered |
| EndToEnd.PayloadReachesTheAir | service/src/main.cpp:62-64 | In any run of the service, from the host's ring writes to the reassembled payload, or to the refusal |
| Progress.PollFinishesOldest | service/src/radio_worker.cpp:542-583 | A completed poll after which the worker may send has given the oldest frame its terminal |
| Progress.BoundedResponse | docs/protocol.md:31-38 | An accepted frame with k frames ahead of it has its terminal after k + 1 turns of the loop that each end able to send |

## Left out

- BurstTransmit.AwaitTxDone: assumes that no single poll stalls for 2^31 ms or longer, which the signed deadline test cannot tell from an earlier time.
- IpcRing.SharedRing.WriteAll: requires at most 65520 bytes, as all of its callers give it; a longer buffer would leave the ring's region.
- IpcRing.IpcReader.ReadByte: models the zero timeout its only caller passes; the waiting loop is not part of this model.
- RxLoop.Receive: takes the packets a poll may see as a finite sequence and speaks of delivery when the loop ends within it; it does not say that the loop ends.
- WorkerService.RadioWorker: groups the scan's, the queue's and the radio's fields in one record each, replaced as a whole; its packet counters are unbounded.
- Progress.BoundedResponse: counts turns that end able to send; a frame may wait without bound while a scan is active or the role is receive-only, and the receive loop of a turn is not shown to end.
- Superloop.Service.Turn: promises the extended run when the receive loop ends within the given observations; its clock is read once per byte for arrival and commands, once for the statistics' cadence, and once per poll.
- UART and TCP transports, file opening and seeking, mutexes: plumbing around the same bytes.
- The LR2021 driver, FIFO and interrupt set-up, GPIO and power-management calls: foreign code, kept as an oracle.
- Reading the thermal state file and the temperature polynomial: level and temperature are inputs.
- Mixing the burst id from the clock: any 16-bit value, with 0 replaced by 1.
- The contents of the statistics, including `pending_tx_valid`, which `startScan` clears while frames may still be queued: no other behaviour reads them.
- Storing the v2 CONFIG selectors and the explicit frequency list of 'Q': the code parses both and uses only the first frequency.
- The fan pin: it follows the fan flag, but start-up and the cutoff drive it too.
- The loop's sleeps: they only bound how long a byte may lie unread.
- The Python stand-in for the device: its formats and resynchronisation differ from the service's.
