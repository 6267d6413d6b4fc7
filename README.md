# Unicorn headset protocol engine, modelled in Dafny

This project models the protocol engine of the Android driver for the g.tec
Unicorn EEG headset (`Unicorn.java`). The engine turns the byte stream from
the headset into 17-value samples. It does this in four steps:

- It frames the start and stop commands with the driver's own 16-bit checksum.
- It checks the acknowledgements.
- It finds 45-byte frames in a byte fifo, and decodes their channels.
- It fills gaps in the frame counter with interpolated samples, and hands out
  one sample at a time from a flat value fifo.

Modules, in dependency order:

- `Protocol` (`protocol.dfy`): wire constants, the frame layout and the
  error outcomes.
- `Crc` (`crc.dfy`): the checksum, written bit for bit on `bv16`. It has the
  looping method `GetCrc16Ccitt`, proved equal to the pure `Crc16`, and
  `FormMessage`. Its partner `CommandOf` checks a received command frame.
- `Payload` (`payload.dfy`): the frame decoder `Decode`. The looping method
  `ConvertRawPayload` is proved equal to it. Its partner is the device-side
  encoder `EncodeFrame`; decoding an encoded frame gives back the values.
- `Sync` (`sync.dfy`): the receive pipeline as pure functions on values:
  - `Pass` is one pass of the do-while loop;
  - `Drain` repeats passes;
  - `Receive` is one `ReadData`;
  - `Pump` is `GetData`'s wait loop.

  This module also holds the properties of the frame synchronizer and of
  gap interpolation.
- `Session` (`session.dfy`): the class `Unicorn`. Its fields are the
  driver's:
  - the byte fifo and the value fifo, as `seq` fields;
  - the previous payload, as an `array<int>` that is rewritten in place;
  - the acquisition flag;
  - the time of the last keep-alive write.

  Its methods have the driver's loops. Each method is proved to move the
  state exactly as the matching `Sync` function says. The invariant
  `Valid()` says the value fifo holds whole samples whose indicator is 0
  or 1.

Bytes have two types, as they are used in the driver. The checksum works on
the bit patterns of Java `byte`s, as `bv8`, and so does the record `written`
of what is sent. The fifos and the decoder hold each Java byte as its
unsigned value `b & 0xFF`, the value the decoder shifts, as `Protocol.Byte`
(the integers 0 to 255). Comparing two bytes gives the same answer in either
form.

The model works on the driver's raw integers: 24-bit EEG, 16-bit
accelerometer and gyroscope, the battery nibble and the 32-bit counter. The
driver multiplies these by float scale factors; the model does not. The
transport is given as data:

- every byte written to the output stream is appended to the field `written`;
- each read receives the bytes the input stream delivered;
- the clock is a parameter `now`;
- the one-second wait loop is given as `chunks`, the successive reads made
  before the time budget runs out.

## Model

Source paths are relative to the repository root.

| member | source | states |
|---|---|---|
| Protocol.LayoutIsContiguous | UnicornAndroidAPI/unicorn/src/main/java/gtec/java/unicorn/Unicorn.java:57-77 | each field length is channels times bytes per channel, each offset is the sum of the lengths before it, and the fields tile the 45-byte frame |
| Crc.RoundFromZero | UnicornAndroidAPI/unicorn/src/main/java/gtec/java/unicorn/Unicorn.java:341-348 | from a zero accumulator, one round of the xor-and-shift steps gives the table entry `y ^ (y << 12) ^ (y << 5)` with `y = b ^ (b >> 4)` |
| Crc.RoundIsDivision | UnicornAndroidAPI/unicorn/src/main/java/gtec/java/unicorn/Unicorn.java:341-348 | on a one-byte message the round equals the bit by bit division by the CRC-CCITT polynomial 0x1021, so the driver's checksum is CRC-16/CCITT with initial value 0 |
| Crc.OneMoreRound | UnicornAndroidAPI/unicorn/src/main/java/gtec/java/unicorn/Unicorn.java:339-349 | the checksum of a message with one more byte is one more round on the checksum before it, the step the loop takes |
| Crc.CommandFrame | UnicornAndroidAPI/unicorn/src/main/java/gtec/java/unicorn/Unicorn.java:321-332 | a command frame is 3 bytes: the command, then the high and low byte of the CRC-CCITT remainder of the command byte |
| Crc.SwapBytes | UnicornAndroidAPI/unicorn/src/main/java/gtec/java/unicorn/Unicorn.java:341 | the first step of a round exchanges the high and low byte of the accumulator |
| Crc.CrcBytes | UnicornAndroidAPI/unicorn/src/main/java/gtec/java/unicorn/Unicorn.java:350-351 | the two checksum bytes are bits 15..8, then bits 7..0, and they rebuild the accumulator |
| Crc.CrcOverAppend | UnicornAndroidAPI/unicorn/src/main/java/gtec/java/unicorn/Unicorn.java:339-349 | the checksum of a concatenation is the checksum of the second part, started from the accumulator of the first |
| Crc.GetCrc16Ccitt | UnicornAndroidAPI/unicorn/src/main/java/gtec/java/unicorn/Unicorn.java:335-353 | the loop over `data[offset..offset+size]` returns the two bytes of the checksum of exactly that slice, starting from 0 |
| Crc.FormMessage | UnicornAndroidAPI/unicorn/src/main/java/gtec/java/unicorn/Unicorn.java:318-333 | the message is exactly 3 bytes: the command, then the high and low byte of one checksum round from 0 |
| Crc.CommandOfInvertsFrame | UnicornAndroidAPI/unicorn/src/main/java/gtec/java/unicorn/Unicorn.java:318-353 | a receiver that checks the checksum accepts every frame the driver builds, with its command, and accepts nothing else for that command |
| Crc.ChecksumSeparatesCommands | UnicornAndroidAPI/unicorn/src/main/java/gtec/java/unicorn/Unicorn.java:335-353 | two different command bytes never share a checksum, so a command byte paired with another command's checksum is rejected |
| Crc.CommandFrameVectors | UnicornAndroidAPI/unicorn/src/main/java/gtec/java/unicorn/Unicorn.java:41-44 | the start command is sent as `61 7C 87` and the stop command as `63 5C C5` |
| Payload.IsValidFrame | UnicornAndroidAPI/unicorn/src/main/java/gtec/java/unicorn/Unicorn.java:403-406 | a block is accepted exactly when it is 45 bytes long, its header field holds `C0 00` and its footer field holds `0D 0A` |
| Payload.Eeg24 | UnicornAndroidAPI/unicorn/src/main/java/gtec/java/unicorn/Unicorn.java:454-460 | an EEG value is a signed 24-bit value in [-2^23, 2^23), negative exactly when bit 23 of its first byte is set |
| Payload.Int16Le | UnicornAndroidAPI/unicorn/src/main/java/gtec/java/unicorn/Unicorn.java:468-469 | an accelerometer or gyroscope value is a signed 16-bit value, negative exactly when the high byte has bit 7 set |
| Payload.Int32Le | UnicornAndroidAPI/unicorn/src/main/java/gtec/java/unicorn/Unicorn.java:486 | the counter is a signed 32-bit Java int, negative exactly when its last byte has bit 7 set |
| Payload.Battery | UnicornAndroidAPI/unicorn/src/main/java/gtec/java/unicorn/Unicorn.java:483 | the battery channel is the low nibble of its byte, in [0, 16) |
| Payload.Channel | UnicornAndroidAPI/unicorn/src/main/java/gtec/java/unicorn/Unicorn.java:451-486 | channel `k` lies in the range of its kind (EEG, 16-bit, battery, counter), and the indicator channel is 0 |
| Payload.Decode | UnicornAndroidAPI/unicorn/src/main/java/gtec/java/unicorn/Unicorn.java:449-488 | a decoded frame has 17 values and its indicator is left at 0 |
| Payload.DecodeLayout | UnicornAndroidAPI/unicorn/src/main/java/gtec/java/unicorn/Unicorn.java:451-486 | EEG channel i comes from bytes 3+3i..5+3i, accelerometer i from 27+2i, gyroscope i from 33+2i, battery from the low nibble of byte 2, and the counter from bytes 39..42 |
| Payload.Eeg24RoundTrip | UnicornAndroidAPI/unicorn/src/main/java/gtec/java/unicorn/Unicorn.java:454-460 | EEG decoding and the big-endian two's complement encoding are inverse in both directions |
| Payload.Int16LeRoundTrip | UnicornAndroidAPI/unicorn/src/main/java/gtec/java/unicorn/Unicorn.java:468-469 | 16-bit decoding and the little-endian encoding are inverse in both directions |
| Payload.Int32LeRoundTrip | UnicornAndroidAPI/unicorn/src/main/java/gtec/java/unicorn/Unicorn.java:486 | counter decoding and the little-endian encoding are inverse in both directions |
| Payload.DecodeEegAt | UnicornAndroidAPI/unicorn/src/main/java/gtec/java/unicorn/Unicorn.java:452-462 | a frame whose bytes at EEG channel i encode v decodes to v at index i |
| Payload.DecodeInt16At | UnicornAndroidAPI/unicorn/src/main/java/gtec/java/unicorn/Unicorn.java:465-480 | a frame whose bytes at accelerometer or gyroscope channel i encode v decodes to v at index 8+i or 11+i |
| Payload.DecodeEncodeFrame | UnicornAndroidAPI/unicorn/src/main/java/gtec/java/unicorn/Unicorn.java:403-406 | every frame built from in-range channel values passes the header and footer check and decodes to exactly those values |
| Payload.ConvertRawPayload | UnicornAndroidAPI/unicorn/src/main/java/gtec/java/unicorn/Unicorn.java:447-489 | the three fill loops and the two single assignments give a fresh array equal to `Decode` of the frame |
| Sync.AlignedAppend | UnicornAndroidAPI/unicorn/src/main/java/gtec/java/unicorn/Unicorn.java:426-436 | appending whole samples keeps the value fifo a sequence of whole samples with indicator 0 or 1 |
| Sync.AlignedDropSample | UnicornAndroidAPI/unicorn/src/main/java/gtec/java/unicorn/Unicorn.java:272-274 | removing the 17 oldest values keeps the value fifo made of whole samples |
| Sync.ScanFrom | UnicornAndroidAPI/unicorn/src/main/java/gtec/java/unicorn/Unicorn.java:381-392 | the scan never drops fewer bytes than it started with, or more than the fifo holds |
| Sync.Scan | UnicornAndroidAPI/unicorn/src/main/java/gtec/java/unicorn/Unicorn.java:381-392 | one scan searches only the first half of the fifo (rounded up): it stops at the first header byte there, or drops that whole half |
| Sync.JavaIntCast | UnicornAndroidAPI/unicorn/src/main/java/gtec/java/unicorn/Unicorn.java:412 | the `(int)` cast is the identity on the int range, saturates at 2^31-1 above it and at -2^31 below it, and keeps the sign: positive, negative or zero exactly as its argument |
| Sync.SamplesLost | UnicornAndroidAPI/unicorn/src/main/java/gtec/java/unicorn/Unicorn.java:412 | the gap is an int, positive exactly when the new counter exceeds the old one by more than 1, and equal to the counter difference minus 1 whenever that is below 2^31, saturated at -2^31 |
| Sync.Filler | UnicornAndroidAPI/unicorn/src/main/java/gtec/java/unicorn/Unicorn.java:421-424 | an interpolated sample keeps the 15 data channels of the previous payload, advances its counter by k and sets the indicator to 0 |
| Sync.Fillers | UnicornAndroidAPI/unicorn/src/main/java/gtec/java/unicorn/Unicorn.java:415-429 | the interpolation loop pushes 17 values per lost sample |
| Sync.FillersAt | UnicornAndroidAPI/unicorn/src/main/java/gtec/java/unicorn/Unicorn.java:418-428 | value c of the k-th interpolated sample is value c of the previous payload, with counter prev+k+1 and indicator 0 |
| Sync.FillersBlock | UnicornAndroidAPI/unicorn/src/main/java/gtec/java/unicorn/Unicorn.java:418-428 | the k-th block of 17 values is the previous payload with counter prev+k+1 and indicator 0 |
| Sync.FillersAligned | UnicornAndroidAPI/unicorn/src/main/java/gtec/java/unicorn/Unicorn.java:418-428 | interpolated samples are whole samples with indicator 0 |
| Sync.Emitted | UnicornAndroidAPI/unicorn/src/main/java/gtec/java/unicorn/Unicorn.java:412-436 | an accepted payload pushes 17 values per lost sample plus 17, ending with the payload marked valid, and only the payload when `lost <= 0` |
| Sync.EmittedAligned | UnicornAndroidAPI/unicorn/src/main/java/gtec/java/unicorn/Unicorn.java:412-436 | what one payload pushes is made of whole samples |
| Sync.EmittedBlocks | UnicornAndroidAPI/unicorn/src/main/java/gtec/java/unicorn/Unicorn.java:412-436 | for `lost > 0`, block k (k < lost) is the previous payload with counter prev+k+1, in increasing order, marked interpolated |
| Sync.GapExamples | UnicornAndroidAPI/unicorn/src/main/java/gtec/java/unicorn/Unicorn.java:412-436 | from counter 5 to 9 the fifo gets counters 6, 7, 8, 9 with indicators 0, 0, 0, 1; from 5 to 6 or to 4 it gets only the payload |
| Sync.Accept | UnicornAndroidAPI/unicorn/src/main/java/gtec/java/unicorn/Unicorn.java:409-439 | a valid frame leaves the byte fifo alone, appends its fillers and payload, and becomes the previous payload with indicator 1 |
| Sync.Pass | UnicornAndroidAPI/unicorn/src/main/java/gtec/java/unicorn/Unicorn.java:377-441 | a pass removes bytes only from the front, strictly shrinks a fifo of more than 45 bytes, only appends samples, and keeps the fifo of whole samples |
| Sync.PassAtHeader | UnicornAndroidAPI/unicorn/src/main/java/gtec/java/unicorn/Unicorn.java:395-440 | with the header byte at d and more than 45 bytes from there, a pass pops exactly those 45 bytes; a valid frame is accepted, and any other block is dropped whole without touching samples or previous payload |
| Sync.PassEmitsOnlyValidFrames | UnicornAndroidAPI/unicorn/src/main/java/gtec/java/unicorn/Unicorn.java:403-440 | a pass either leaves samples and previous payload alone, or accepts a valid frame popped at the header position |
| Sync.Drain | UnicornAndroidAPI/unicorn/src/main/java/gtec/java/unicorn/Unicorn.java:374-443 | draining a fifo of more than 45 bytes leaves at most 45, it only removes bytes from the front, only appends samples, and does nothing to a fifo of at most 45 bytes |
| Sync.Receive | UnicornAndroidAPI/unicorn/src/main/java/gtec/java/unicorn/Unicorn.java:355-445 | a read appends its bytes at the back; bytes are then removed only from the front; at most 45 remain when the drain ran; nothing else happens when 45 or fewer are queued |
| Sync.Pump | UnicornAndroidAPI/unicorn/src/main/java/gtec/java/unicorn/Unicorn.java:257-265 | the wait loop only appends samples and does not read when a whole sample is already queued |
| Sync.ResyncAfterGarbage | UnicornAndroidAPI/unicorn/src/main/java/gtec/java/unicorn/Unicorn.java:374-443 | bytes before a frame that hold no header byte are skipped, over as many passes as needed, and the frame is then accepted, if at least one byte follows it |
| Sync.LoneFrameWaits | UnicornAndroidAPI/unicorn/src/main/java/gtec/java/unicorn/Unicorn.java:374 | a fifo holding exactly one complete frame and nothing else is not consumed |
| Sync.FrameConsumedByNextByte | UnicornAndroidAPI/unicorn/src/main/java/gtec/java/unicorn/Unicorn.java:374-443 | that frame is accepted as soon as one more byte arrives |
| Session.Unicorn.constructor | UnicornAndroidAPI/unicorn/src/main/java/gtec/java/unicorn/Unicorn.java:137-141 | a new session has empty fifos, an all-zero previous payload, acquisition stopped and no write yet |
| Session.Unicorn.StartAcquisition | UnicornAndroidAPI/unicorn/src/main/java/gtec/java/unicorn/Unicorn.java:187-203 | sends `61 7C 87`; a short read fails with IncompleteRead and a wrong acknowledgement with AckMismatch, both leaving the flag unchanged; only `{0,0,0}` sets it |
| Session.Unicorn.StopAcquisition | UnicornAndroidAPI/unicorn/src/main/java/gtec/java/unicorn/Unicorn.java:205-231 | sends `63 5C C5`; succeeds exactly when the stream has three zero bytes in a row, after reading up to the first such run, and clears the flag; the comparison after the loop can never fail |
| Session.Unicorn.ScanForHeader | UnicornAndroidAPI/unicorn/src/main/java/gtec/java/unicorn/Unicorn.java:378-392 | the scan loop drops exactly what `Scan` drops and reports whether a header byte is at the front |
| Session.Unicorn.PushValues | UnicornAndroidAPI/unicorn/src/main/java/gtec/java/unicorn/Unicorn.java:426-427 | queues the values of an array in order, changing nothing else |
| Session.Unicorn.InterpolateLost | UnicornAndroidAPI/unicorn/src/main/java/gtec/java/unicorn/Unicorn.java:417-429 | the in-place interpolation loop queues exactly `Fillers` of the previous payload, and leaves the previous payload rewritten as the last filler (counter advanced by the number lost, indicator 0), or untouched when nothing was lost |
| Session.Unicorn.PushPayload | UnicornAndroidAPI/unicorn/src/main/java/gtec/java/unicorn/Unicorn.java:411-439 | queues exactly `Emitted` for the payload, and the previous payload becomes the payload with indicator 1 |
| Session.Unicorn.StorePayload | UnicornAndroidAPI/unicorn/src/main/java/gtec/java/unicorn/Unicorn.java:439 | the previous payload becomes a copy of the payload |
| Session.Unicorn.PollFrame | UnicornAndroidAPI/unicorn/src/main/java/gtec/java/unicorn/Unicorn.java:398-400 | the 45 front bytes move into a fresh frame buffer |
| Session.Unicorn.DrainOnce | UnicornAndroidAPI/unicorn/src/main/java/gtec/java/unicorn/Unicorn.java:377-441 | one iteration of the do-while moves the state exactly as `Pass` does and keeps `Valid` |
| Session.Unicorn.ReadData | UnicornAndroidAPI/unicorn/src/main/java/gtec/java/unicorn/Unicorn.java:355-445 | the new state is exactly `Receive` of the old one with the bytes read, and `Valid` holds |
| Session.Unicorn.PollSample | UnicornAndroidAPI/unicorn/src/main/java/gtec/java/unicorn/Unicorn.java:272-274 | removes and returns the 17 oldest values in fifo order, whose indicator is 0 or 1 |
| Session.Unicorn.GetData | UnicornAndroidAPI/unicorn/src/main/java/gtec/java/unicorn/Unicorn.java:233-278 | fails with AcquisitionNotStarted and changes nothing when stopped; otherwise it writes one zero byte and records the time only after more than 1000 ms, then returns the 17 oldest values of `Pump`'s result or fails with AcquisitionTimeout |

## Left out

- Bluetooth adapter, bonding and socket setup are left out: `GetAvailableDevices`, the pairing loop of the constructor, `InitializeAndCheckBluetoothAdapter` and `GetBondUnicornDevices` (lines 98-136, 280-316). They are operating-system calls. The constructor is modelled from the point where the streams are open.
- `finalize` (lines 146-185) is left out. It closes streams during garbage collection.
- Floating point is left out:
  - the EEG, accelerometer, gyroscope and battery scale factors (lines 50-56, 462, 471, 479, 483);
  - the float arithmetic of the counter and of the gap (lines 412, 417, 421).

  The model keeps exact raw integers. The driver scales the battery channel after masking the nibble. In the model that channel is the nibble itself, An interpolated sample copied from the initial all-zero payload carries 0 in both, but the values mean different things. The driver's 0.0 is a percentage that no received frame can produce, since nibble 0 already scales to about 71.4 %. The model's 0 is nibble 0, the same value a real frame with an empty battery carries.
- Stream failures are left out: the `IOException`s of `write` (lines 191, 209, 250), `read` (lines 194, 216, 363) and `available()` (line 357). `Error` has no case for them, and every read and write of the model succeeds. With them goes one visible effect: `GetData` records the keep-alive time (line 248) before the write (line 250), so a failing write still moves `_prevWriteTimestamp`.
- Crc.RoundIsDivision: the agreement of the round with the bit by bit division is proved for a zero accumulator only, which covers every checksum the driver computes (always over one command byte). For an arbitrary accumulator the bit-vector proof exceeds the solver's resource limit; `CrcOverAppend` and `OneMoreRound` still tie longer messages to the round.
- Fifo capacities (lines 137-138) are left out. `ArrayDeque` grows, so the capacities are only hints.
- The null checks of `GetData` on socket and streams (lines 238-243) are left out. After the constructor has opened the streams they cannot fail.
- Session.Unicorn.GetData: the clock and `Thread.sleep` (lines 246-265) are replaced by parameters. It takes one timestamp `now` for both clock reads of the keep-alive. It takes the reads of the wait loop as `chunks`, one per `ReadData` call before 1000 ms elapse.
- The exception messages are left out, because errors are values of `Error`. One of them is misleading: the short read in `StartAcquisition` (line 197) reports "Could not stop data acquisition".
- Session.Unicorn.StopAcquisition: the driver blocks for ever when the stream never delivers three zero bytes in a row. The model receives a finite stream, and if that stream runs out it returns `Fail(AckNotReceived)`.
- `MainActivity.java` is not part of this model: user interface, permissions and the receiver thread.
