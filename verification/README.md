# Door controller: a model with proofs

Two boards share a door. A K230 camera controller (MicroPython) recognises a face and asks an
STM32F407 (C, RT-Thread) over a serial line to open an electromagnetic lock. This project models the
code that decides whether the door opens, together with the driver code that moves bytes and computes
register values, and proves what that code promises.

`dafny verify dfyconfig.toml` checks everything. Operations that update state are classes and methods,
each proved against a function of the inputs or of the old state; the lemmas are about those functions.

## What is proved

**The serial protocol** (`Crc16`, `FrameCodec`, `FrameStream`, `FrameParsers`, `UnlockLink`).
The byte-wise checksum is shown to be the bit-serial one; it is linear, its step is a bijection, and a
block followed by its own checksum bytes leaves zero. So any burst of at most 16 bits and any odd number
of flipped bits between LEN and ETX is caught, in particular any damage to two neighbouring bytes.
The parser is sound on every timed byte stream, complete on every sequence of encoded frames with
STX-free noise and detectably damaged frames between them, and idle again after 70 STX-free bytes from
any state; 70 is the least such number. After a pause it parses everything that follows, from any state. Damage to LEN, which the checksum does not cover, is described
exactly. The C and the Python parser emit the same frames although they keep time differently and reset
different fields. Over a lossy line `wait_ack` can be answered True exactly when an OK acknowledgement with
its number is under way; the open event was then posted for the request it answers, which is the latest one
exactly when the acknowledgement is at most 255 sends old. This holds wherever earlier polling, a timeout
that reset the parser inside a frame, or an answer that threw away the rest of what was read has left the
parser, as long as answers have one payload byte, as all answers to the requests of this controller have; a
run with a heartbeat answer shows what goes wrong otherwise. With other answers it holds on a line the parser
has seen whole. `RequestToDoor` puts the line and the door thread together: a request answered True opens the
door at the first iteration without CLOSE after the post.

**The door thread** (`DoorLock`), as atomic sections interleaved with posters, observers and the timer:
what observers see agrees with the relay, open requests survive any number of close batches, a door that
was opened or asked for again without an alarm always has its timer running or CLOSE pending, and an alarm
opening stays open.

**The unlock gate and the verdict counters** (`AccessGate`, `FatigueFilter`), over whole traces: exactly
which evaluation unlocks, how far apart unlocks are, and the leaky counters as a maximum over suffixes.

**Drivers**: Ethernet gather and scatter (`EthernetDma`), on-chip flash (`OnChipFlash`), circular-DMA
accounting in two drivers (`UartDma`), the BMP writer (`BmpCapture`), PWM arithmetic (`PwmTimer`) and the
busy wait (`BusyWait`). `Machine`, `Division`, `Slices` and `Wrappers` hold the machine widths, shared facts
about numbers and slices, and a datatype.

## Where the code and its documentation disagree

The model follows the code.

- The README of the repository speaks of 15 stable recognitions; the code needs 10 and gives up after 3
  misses in a row. It does not ask that the ten be of one user.
- The comment on `k230_parser_feed` promises -1 for bad frames; it returns only 0 or 1. A byte refused as
  LEN is dropped, not looked at again as STX. The buffer-overflow branch of both parsers cannot be reached.

## Where a promise fails

Each of these has a lemma or method with a concrete run, and most an exact condition.

- The cooldown ends at once with a frame without a face (`AccessGate.StepAwayAndBack`); exactly how long it
  lasts is in `AccessGate.CooldownExact`.
- LEN is outside the checksum. A frame whose LEN was made smaller is reported, cut to that length, exactly if
  its bytes there are the checksum and ETX of the shortened frame (`FrameStream.ShorterLen`), which does occur
  (`FrameStream.LenDamageAccepted`); with a larger LEN nothing is reported (`FrameStream.LongerLen`,
  `FrameStream.RefusedLen`).
- An acknowledgement 256 sends old is accepted for the current request (`UnlockLink.StaleAckAccepted`);
  it is for the current one exactly up to 255 (`UnlockLink.GrantIsCurrent`).
- A wait that times out inside a heartbeat answer lets the next one take the rest of it, with noise, for an
  acknowledgement nobody sent (`UnlockLink.HeartbeatForges`).
- An OPEN_ALARM in the same batch as CLOSE is dropped (`DoorLock.IterationOutcome`,
  `DoorLock.AlarmDropped`). On STOP the relay is released but the recorded state is left as it was, so it can say OPEN (`DoorLock.StopWhileOpen`).
- The flash range test lets through ranges outside the bank, in exactly two cases
  (`OnChipFlash.RangeTestExact`, `OnChipFlash.RangeTestFails`). An erase then clears exactly the sectors the
  range meets if and only if the last byte lies in the bank and the range does not come round the address
  space from inside it (`OnChipFlash.EraseExactIff`).
- The newer serial driver reports a whole buffer that never came for each completion interrupt served with
  nothing outstanding (`UartDma.BytesConserved`, `UartDma.PhantomRun`); the older one is wrong whenever the
  unreported bytes pass the end of the buffer (`UartDma.Report1Right`).
- `drv_pwm_get` multiplies in 32 bits: a period, or a pulse between its bounds, is read back wrong exactly when
  its product wraps (`PwmTimer.PeriodBack`, `PwmTimer.PulseBack`, `PwmTimer.FiftyMilliseconds`), and a pulse can
  then be read back longer than its period (`PwmTimer.PulseBeyondPeriod`), exactly as `PwmTimer.PulseLongerIff` says.
- `rt_hw_us_delay` returns early, by about 4.29 million cycles or more on some schedule, exactly when its 32-bit
  product wraps (`BusyWait.NeverEarlyIff`, `BusyWait.WaitTooShort`, `BusyWait.LongWaitWraps`).
- An Ethernet frame longer than the four transmit buffers is accepted when all are free and overwrites its own
  beginning (`EthernetDma.TooLongAccepted`); every content reads back exactly up to the size of the ring
  (`EthernetDma.ReadsBackIff`).

## Model

| member | source | states |
|---|---|---|
| `Crc16.Compute` | STM32/applications/k230_uart.c:39-55 | The nested checksum loops over a buffer compute the recursive checksum of that slice. |
| `Crc16.CrcIsSerial` | STM32/applications/k230_uart.c:44-53 | The byte-wise checksum equals a shift register fed the bits in wire order, for every start value and block. |
| `Crc16.ModbusExample` | STM32/applications/k230_uart.c:38-55 | The message 02 07 has checksum bytes 41 12, the example frame of the MODBUS over Serial Line guide. |
| `Crc16.BitCrcLinear` | STM32/applications/k230_uart.c:46-52 | The registers of two messages differ by the register of their bitwise difference. |
| `Crc16.ShiftsEqual` | STM32/applications/k230_uart.c:46-52 | Any number of shift steps is injective on registers. |
| `Crc16.ZeroResidue` | STM32/applications/k230_uart.c:132-137 | A block followed by two bytes leaves zero exactly when the two bytes are its checksum, low byte first. |
| `Crc16.ShortResidue` | STM32/applications/k230_uart.c:44-53 | Up to 16 bits bring the register to zero only if it held exactly those bits. |
| `Crc16.StepParity` | STM32/applications/k230_uart.c:46-52 | Each step preserves parity: the polynomial has the factor x + 1. |
| `Crc16.DetectableLeavesResidue` | STM32/applications/k230_uart.c:39-55 | A burst of at most 16 bits, or an odd number of flipped bits, never leaves zero. |
| `Crc16.ErrorDetected` | STM32/applications/k230_uart.c:135-137 | A zero-residue block that suffers such an error no longer has residue zero. |
| `FrameCodec.IntactIsEncoded` | STM32/applications/k230_uart.c:126-150 | Bytes that pass the checks on arrival of ETX are exactly the sender's encoding of the frame reported. |
| `FrameCodec.ParserSound` | STM32/applications/k230_uart.c:73-164 | On every timed stream each emitted frame is the encoding of its own contiguous block, with no late byte inside, and blocks are disjoint and in order. |
| `FrameStream.RunConcat` | STM32/applications/k230_uart.c:73-164 | Parsing a stream in two pieces is parsing it whole. |
| `FrameStream.RoundTrip` | STM32/applications/k230_uart.c:167-187 | Every frame with up to 64 payload bytes, sent and received promptly, is parsed back to itself, once. |
| `FrameStream.ParserComplete` | K230/face_access_control.py:141-163 | Any encoded frames, with STX-free noise and detectably damaged frames anywhere between, parse to exactly the undamaged ones, ending idle. |
| `FrameStream.Resynchronises` | STM32/applications/k230_uart.c:89-124 | From any parser state, 70 STX-free bytes lead back to waiting with at most one stray frame; all later frames are recovered. |
| `FrameStream.ResyncIsTight` | STM32/applications/k230_uart.c:98-124 | 69 such bytes can leave the parser inside a frame. |
| `FrameStream.LateStart` | STM32/applications/k230_uart.c:78-95 | From any state, a stream whose first byte comes after a pause is parsed as from idle: the byte that reveals the timeout is not lost. |
| `FrameStream.FrameAfterPause` | K230/face_access_control.py:229-241 | A frame sent after a pause is recovered whatever half frame the parser was in. |
| `FrameStream.AllAfterPause` | STM32/applications/k230_uart.c:78-95 | And so is everything after it: frames among noise and damaged frames parse to exactly the undamaged ones. |
| `FrameStream.IntactIffResidue` | STM32/applications/k230_uart.c:129-137 | The checksum comparison passes exactly when the collected bytes from CMD on have residue zero. |
| `FrameStream.DamagedFrameRejected` | STM32/applications/k230_uart.c:126-160 | A frame hit between LEN and ETX by a short burst or an odd number of flips is swallowed: nothing emitted, parser idle. |
| `FrameStream.TwoByteDamageRejected` | STM32/applications/k230_uart.c:126-160 | The same for any nonzero change confined to two neighbouring bytes from CMD to the checksum. |
| `FrameStream.ShorterLen` | STM32/applications/k230_uart.c:98-150 | A frame of which the line made only LEN smaller is reported at that length if and only if its bytes there are the checksum and ETX of the shortened frame, and then it is that frame. |
| `FrameStream.LongerLen` | STM32/applications/k230_uart.c:106-124 | With a larger LEN the whole frame goes unreported and the parser waits for more. |
| `FrameStream.RefusedLen` | STM32/applications/k230_uart.c:99-104 | With a LEN above 64 the parser is idle at once. |
| `FrameStream.LenDamageAccepted` | STM32/applications/k230_uart.c:127-150 | For every command and number there is a frame that, with one bit of LEN flipped, is reported as another frame. |
| `FrameParsers.StmParser.Feed` | STM32/applications/k230_uart.c:73-164 | The C parser takes exactly the specified step, with its unsigned 32-bit timeout. |
| `FrameParsers.K230Parser.Feed` | K230/face_access_control.py:229-277 | The Python parser takes exactly the specified step, with its signed wrapped timeout. |
| `FrameParsers.K230Parser.Reset` | K230/face_access_control.py:223-227 | Reset forgets what was collected and keeps the time of the last byte. |
| `FrameParsers.CheckFrame` | STM32/applications/k230_uart.c:127-150 | The checks and copies on ETX, read back from the buffer, agree with the specified outcome. |
| `FrameParsers.ClocksAgree` | STM32/applications/k230_uart.c:78-85 | Both timeout tests see the true gap while it is below 2^32 and below half the MicroPython period, whatever both clocks started from. |
| `FrameParsers.ParseBoth` | K230/face_access_control.py:209-277 | On every stream with the same arrival times both parsers emit the same frame sequence, and it is the specified one. |
| `UnlockLink.StmSendFrame` | STM32/applications/k230_uart.c:167-193 | Sends exactly the encoding, or returns -1 and sends nothing. |
| `UnlockLink.K230Link.SendFrame` | K230/face_access_control.py:141-163 | Sends the encoding under the next sequence number, or refuses an over-long payload without using one. |
| `UnlockLink.K230Link.SendFaceUnlockReq` | K230/face_access_control.py:165-167 | Sends the encoding of the unlock request for a user and a confidence under the next sequence number. |
| `UnlockLink.RequestReads` | STM32/applications/k230_uart.c:213-220 | What the receiver parses from a request on the wire: the command, the number, the user modulo 65536 with the high byte first, and the confidence modulo 256. |
| `UnlockLink.RequestBytes` | K230/face_access_control.py:141-167 | The ten bytes of the request for user 1 with confidence 90. |
| `UnlockLink.DeliveredInTime` | K230/face_access_control.py:178-190 | The bytes a wait reads are those of the polling rounds before the first that comes the timeout or more after the start, by true times. |
| `UnlockLink.K230Link.WaitAck` | K230/face_access_control.py:177-191 | Answers True exactly when the first matching acknowledgement among the bytes that came in time says OK, and leaves the parser idle. |
| `UnlockLink.VerdictStable` | K230/face_access_control.py:183-187 | Later bytes cannot change a verdict once reached. |
| `UnlockLink.DispatchUnlock` | STM32/applications/k230_uart.c:213-232 | Short requests are answered ERROR; otherwise OPEN is posted and OK sent, or BUSY if posting fails; with the port closed nothing is sent and the post stays. |
| `UnlockLink.UnlockAnswerReads` | STM32/applications/k230_uart.c:213-232 | What an unlock answer says on arrival: 1 exactly for a request of fewer than three bytes, otherwise 0 if it was posted and 2 if not, under the number of the request. |
| `UnlockLink.OkMeansPosted` | STM32/applications/k230_uart.c:213-232 | The answer to a request, received promptly, makes the wait for it True exactly when the open event was posted. |
| `UnlockLink.ReachableInv` | K230/face_access_control.py:145-146 | Over every run of sends, losses, answers and reads, each acknowledgement under way carries the number of its request, and an OK one belongs to a posted request. |
| `UnlockLink.SameSeqNo` | K230/face_access_control.py:145-146 | Sends with equal 8-bit numbers are the same send exactly when they are at most 255 apart. |
| `UnlockLink.Dispatch` | STM32/applications/k230_uart.c:203-283 | Every command gets its answer, or none: one byte, or four for a heartbeat. |
| `UnlockLink.AnswersRead` | STM32/applications/k230_uart.c:203-283 | Which commands are answered and what each answer holds; a heartbeat is answered with the seconds modulo 2^32, highest byte first. |
| `UnlockLink.OwnFrame` | STM32/applications/k230_uart.c:196-274 | On a line of noise and intact one-byte answers, any stretch of bytes that encodes an OK acknowledgement is one of the frames. |
| `UnlockLink.AckMeansPosted` | K230/face_access_control.py:177-191 | On a line that loses frames and adds noise, wherever polling, resets and bytes thrown away have left the parser, a True answer means an OK acknowledgement with that number is under way and OPEN was posted for its request, the latest one exactly when it is at most 255 sends old. Answers have one byte, or the parser has seen the line whole, which may then also damage frames detectably. |
| `UnlockLink.RequestsGetOneByte` | K230/face_access_control.py:165-167 | If only unlock requests are sent, all answers have one byte. |
| `UnlockLink.AckOnAnyLine` | K230/face_access_control.py:177-191 | The same on lines that also cut frames or add STX, as long as no stretch of bytes forges an acknowledgement. |
| `UnlockLink.GrantedIff` | K230/face_access_control.py:183-187 | Some such arrival makes the wait for a number True exactly when an OK acknowledgement with it is under way. |
| `UnlockLink.GrantIsCurrent` | K230/face_access_control.py:185-187 | An acknowledgement with the latest number is for the latest request exactly when it is at most 255 sends old. |
| `UnlockLink.WaitForOne` | K230/face_access_control.py:177-191 | A wait into which the bytes of one acknowledgement come answers what it says. |
| `UnlockLink.StaleAckAccepted` | K230/face_access_control.py:185-187 | A reachable run and a wait on the bytes of a 256-old acknowledgement that is answered True for a request that never arrived. |
| `UnlockLink.HeartbeatForges` | K230/face_access_control.py:177-191 | Two waits, the first timing out inside a heartbeat answer that noise follows: the second, for the latest request, is answered True though nothing was ever posted. |
| `RequestToDoor.PostOpensDoor` | STM32/applications/door_lock.c:120-190 | After an unlock request is posted the door is open at the end of the first iteration without CLOSE from the next batch on. |
| `RequestToDoor.GrantedRequestOpensDoor` | STM32/applications/k230_uart.c:224-225 | In every joint run without STOP, a wait answered True had its request posted before, and the door opens as above. |
| `RequestToDoor.FirstRequestOpens` | STM32/applications/k230_uart.c:213-232 | A joint run from the first request through its grant to the open door. |
| `DoorLock.DoorLock.Resume` | STM32/applications/door_lock.c:108-195 | Each atomic section of the door thread takes the specified step. |
| `DoorLock.DoorLock.TimerCallback` | STM32/applications/door_lock.c:98-102 | The one-shot timer is spent and CLOSE is posted. |
| `DoorLock.DoorLock.Send` | STM32/applications/door_lock.c:203-236 | Posting adds one event bit and changes nothing else; before start-up it reports an error. |
| `DoorLock.DoorLock.GetState` | STM32/applications/door_lock.c:241-249 | What an observer may conclude: an error before start-up; between iterations OPEN exactly when the relay is energised; OPEN means energised until the thread has exited, LOCKED released and no timer, the passing states an iteration under way. |
| `DoorLock.DoorLock.IsOpen` | STM32/applications/door_lock.c:251-259 | False before start-up; between iterations true exactly when the relay is energised, and true means energised until the thread has exited. |
| `DoorLock.ObservationsAreSafe` | STM32/applications/door_lock.c:136-181 | In every interleaving, observed OPEN implies relay on (until the thread has exited), LOCKED implies relay off and timer unarmed, OPENING and CLOSING occur only inside an iteration. |
| `DoorLock.StopKeepsRecordedState` | STM32/applications/door_lock.c:127-130 | After STOP the relay is off, and the recorded state says OPEN exactly if the relay was on when the batch was taken. |
| `DoorLock.StopEnds` | STM32/applications/door_lock.c:127-130 | From a batch with STOP on no further batch is taken, and the recorded state stays. |
| `DoorLock.LeavesOnStop` | STM32/applications/door_lock.c:120-130 | The thread leaves its loop only for a batch with STOP. |
| `DoorLock.StopWhileOpen` | STM32/applications/door_lock.c:193-195 | A run that ends with the relay off and the recorded state OPEN. |
| `DoorLock.OpenRequestNeverLost` | STM32/applications/door_lock.c:136-157 | Once a batch holds KEY or OPEN, the door is open at the end of the first later iteration whose batch has no CLOSE, without STOP. |
| `DoorLock.IterationOutcome` | STM32/applications/door_lock.c:120-190 | An iteration ends with the door open exactly when its batch has no CLOSE; a CLOSE batch sends KEY and OPEN again and nothing else. |
| `DoorLock.AlarmDropped` | STM32/applications/door_lock.c:152-156 | A run in which an alarm in one batch with CLOSE leaves the door locked and nothing pending. |
| `DoorLock.PostedRequestOpens` | STM32/applications/door_lock.c:120-190 | From the post of OPEN on, the door is open at the end of the first iteration without CLOSE from the next batch on. |
| `DoorLock.OneShot` | STM32/applications/door_lock.c:98-102 | The timer is one-shot: between two expiries the thread has started it again. |
| `DoorLock.TimerOutcome` | STM32/applications/door_lock.c:160-190 | After an iteration without CLOSE and STOP the timer runs unless the batch has an alarm; an alarm that opens the door leaves it stopped, and an alarm on an open door leaves it as it is. |
| `DoorLock.AutoCloseHolds` | STM32/applications/door_lock.c:167-189 | With the policy told from the batches taken: at the loop head a door to be closed has its timer running or CLOSE pending, one to stay open has no running timer. |
| `DoorLock.OpenDoorHasPolicy` | STM32/applications/door_lock.c:167-189 | At the loop head every open door has such a policy: that of the last batch that opened it or asked without an alarm. |
| `DoorLock.EvacuationHolds` | STM32/applications/door_lock.c:181-188 | A door opened from LOCKED by an alarm stays open, untimed, until someone posts something other than an alarm. |
| `AccessGate.AccessController.Process` | K230/face_access_control.py:1362-1503 | One camera frame changes the gate as specified: no face, too many faces, models not loaded, or an evaluation every third frame; one request goes out exactly when it unlocks. |
| `AccessGate.AccessController.Evaluate` | K230/face_access_control.py:1505-1532 | One evaluation updates counters, cooldown and status as specified, and sends a request exactly when it unlocks. |
| `AccessGate.AccessController.DoUnlock` | K230/face_access_control.py:1534-1552 | Sends the request under the next number and waits 500 ms for its acknowledgement; whatever the answer, and without a line, the cooldown starts after the wait and the counters are cleared. |
| `AccessGate.TraceChain` | K230/face_access_control.py:1505-1532 | Over every trace the log of evaluations forms a chain whose last entry agrees with the gate. |
| `AccessGate.LogTold` | K230/face_access_control.py:1353-1354 | Every frame counts, whatever it shows, and each entry of the log is the frame of the trace at its place, with the clock readings of that frame. |
| `AccessGate.ClearedTold` | K230/face_access_control.py:1362-1378 | An entry is marked cleared exactly when some frame since the evaluation before shows no face. |
| `AccessGate.EvaluatedIff` | K230/face_access_control.py:1390-1496 | A frame is evaluated exactly when it has faces, is not the first, and comes at least three frames after the last one evaluated. |
| `AccessGate.StatusTold` | K230/face_access_control.py:1354-1532 | The display says stabilising exactly while successes are counted and the face is in sight. |
| `AccessGate.UnlockIff` | K230/face_access_control.py:1505-1532 | An evaluation unlocks exactly when it is the tenth authorised one of an unbroken run without three misses in a row, an unlock, or an evaluation in the cooldown of an earlier unlock, all told from the trace; such a run is at most 28 evaluations long. |
| `AccessGate.CooldownExact` | K230/face_access_control.py:1508-1548 | Up to the next unlock the gate holds back exactly as long as every frame since has a face and no evaluation finds more than 5 s passed since the wait for the acknowledgement ended. |
| `AccessGate.GatedIff` | K230/face_access_control.py:1508-1511 | The machine skips an evaluation exactly when it falls into the cooldown of an earlier unlock, as told from the trace. |
| `AccessGate.UnlocksThirtyFramesApart` | K230/face_access_control.py:1390-1496 | Any two unlocks of any trace are at least 30 frames apart. |
| `AccessGate.UnlocksFiveSecondsApart` | K230/face_access_control.py:1508-1548 | With a clock that does not run backwards, of two successive unlocks without a no-face frame between the second comes more than 5 s after the wait of the first ended. |
| `AccessGate.StepAwayAndBack` | K230/face_access_control.py:1362-1378 | With one no-face frame, two unlocks come exactly 30 frames apart and no time apart. |
| `FatigueFilter.FatigueAnalyzer.Analyze` | K230/face_access_control.py:1158-1194 | One geometry reading updates window and counter and answers as specified. |
| `FatigueFilter.EmotionAnalyzer.Postprocess` | K230/face_access_control.py:748-788 | The same for the emotion reading, with its uncertain and failed cases. |
| `FatigueFilter.MeanJoins` | K230/face_access_control.py:773 | The smoothed value is the mean: of one score it is that score, and scores joined have the mean of their means, weighed by their numbers. |
| `FatigueFilter.MeanBetween` | K230/face_access_control.py:773 | It lies between any bounds of the scores. |
| `FatigueFilter.WindowIsLastScores` | K230/face_access_control.py:1166-1168 | Over every trace the window is exactly the last at most six scores. |
| `FatigueFilter.CounterIsMaxSurplus` | K230/face_access_control.py:1171-1174 | The leaky counter is the largest ups-minus-downs over all suffixes of the trace, and is attained. |
| `FatigueFilter.VerdictIff` | K230/face_access_control.py:780-785 | Fatigue or illness is answered exactly when the last reading is over threshold and some suffix has the required surplus; illness when the mean is also severe. |
| `FatigueFilter.SteadyAnswers` | K230/face_access_control.py:1166-1190 | Scores that stay at or above a threshold from the start are answered accordingly from the third on for the geometry, from the second on for the emotion, and with normal before; scores that stay below it always with normal. |
| `FatigueFilter.OtherAnswers` | K230/face_access_control.py:743-788 | When each analyser answers uncertain or unknown, and what else an unscored or missing reading gets. |
| `EthernetDma.Ring.GatherPbuf` | STM32/drivers/drv_eth.c:218-250 | Copies one pbuf across buffers; terminates though a full buffer makes an iteration copy nothing. |
| `EthernetDma.SlotsInOrder` | STM32/drivers/drv_eth.c:227-228 | Each link leads to the next descriptor of the ring, the last to the first. |
| `EthernetDma.Ring.Transmit` | STM32/drivers/drv_eth.c:207-251 | Fails exactly when a needed descriptor is still owned by the DMA; otherwise the buffers hold the concatenated payloads, the length is their total, and the rest of the ring is untouched. |
| `EthernetDma.Ring.TransmitFrame` | STM32/drivers/drv_eth.c:264 | Hands over exactly the buffers the frame fills, with their sizes, for frames of any length; the next frame starts in the descriptor behind its last. |
| `EthernetDma.NextFrameApart` | STM32/drivers/drv_eth.c:207-264 | Gathering the next frame leaves one handed over before it in the ring, byte for byte, when both fit. |
| `EthernetDma.CountMatchesLinks` | STM32/drivers/drv_eth.c:223-264 | The number of buffers handed over is the number the gathering filled. |
| `EthernetDma.Ring.Scatter` | STM32/drivers/drv_eth.c:326-353 | The pbufs of any segmentation together hold the bytes of the frame in order. |
| `EthernetDma.Ring.HandBack` | STM32/drivers/drv_eth.c:355-366 | Exactly the descriptors of the frame return to the DMA. |
| `EthernetDma.Ring.Receive` | STM32/drivers/drv_eth.c:316-377 | Copies if there is memory, and hands the descriptors back either way. |
| `EthernetDma.StoredReadsBack` | STM32/drivers/drv_eth.c:207-353 | What gathering stored, scattering reads, byte for byte. |
| `EthernetDma.TooLongOverwrites` | STM32/drivers/drv_eth.c:223-245 | A frame longer than the ring has overwritten its first byte by one of a later round. |
| `EthernetDma.ReadsBackIff` | STM32/drivers/drv_eth.c:207-353 | Every content of a length reads back as gathered if and only if it fits the ring. |
| `EthernetDma.TooLongAccepted` | STM32/drivers/drv_eth.c:207-251 | A run of the gathering on a frame longer than the ring: accepted, and not read back. |
| `EthernetDma.Loopback` | STM32/drivers/drv_eth.c:192-377 | Any chain that finds free descriptors comes back equal in any other segmentation of the same length. |
| `OnChipFlash.SectorContains` | STM32/drivers/drv_flash_f4.c:58-169 | The sector number names the one sector that contains the address. |
| `OnChipFlash.SectorSizes` | STM32/drivers/drv_flash_f4.c:26-39 | The sectors have 16, 64 and 128 KB and fill the bank. |
| `OnChipFlash.WholeSectors` | STM32/drivers/drv_flash_f4.c:334-343 | An erase clears sectors whole: every byte of a sector of the run, no byte of another. |
| `OnChipFlash.SectorRunIsMinimal` | STM32/drivers/drv_flash_f4.c:334-337 | The sectors erased for a range of the bank are exactly those it meets. |
| `OnChipFlash.EraseExactIff` | STM32/drivers/drv_flash_f4.c:313-343 | For all 32-bit arguments the sectors cleared are exactly those the range meets, if and only if its last byte is in the bank and it does not come round to there from inside. |
| `OnChipFlash.RangeTestExact` | STM32/drivers/drv_flash_f4.c:185-189 | For all 32-bit arguments, a range not inside the bank passes exactly when it starts below the bank and ends by its end, or its end wraps to a small value. |
| `OnChipFlash.RangeTestFails` | STM32/drivers/drv_flash_f4.c:217-221 | A range of each kind that passes, whose erase clears sector 0, which it does not meet. |
| `OnChipFlash.PlanTiles` | STM32/drivers/drv_flash_f4.c:232-284 | The program operations cover exactly the range, in order, each naturally aligned and the widest that fits. |
| `OnChipFlash.Flash.Read` | STM32/drivers/drv_flash_f4.c:181-197 | Copies the bytes at all addresses of a range that passes the test, in the bank and outside; otherwise leaves the buffer alone. |
| `OnChipFlash.Flash.Write` | STM32/drivers/drv_flash_f4.c:210-297 | For all 32-bit ranges: succeeds exactly when every hardware call does, no bit of the bank would have to be set again, and operations outside the bank read back equal; then the bank holds the buffer. Nothing of the bank outside the range changes in any case. |
| `OnChipFlash.HeldRange` | STM32/drivers/drv_flash_f4.c:210-297 | For a range inside the bank that is equality with the buffer. |
| `OnChipFlash.Flash.Erase` | STM32/drivers/drv_flash_f4.c:309-360 | For all 32-bit ranges that pass the test: clears the run from the sector of the first byte to that of the last, none if these are in the wrong order, or its first part when the hardware fails. Done on a range of the bank, every byte of each sector the range meets is 0xFF and all others are as before. |
| `OnChipFlash.Flash.EraseWriteRead` | STM32/drivers/drv_flash_f4.c:181-360 | For every range of the bank and every buffer, erase then write then read returns the buffer; sectors the range does not meet are unchanged. |
| `OnChipFlash.ErasedRange` | STM32/drivers/drv_flash_f4.c:334-343 | After erasing for a range whose sectors are those it meets, every buffer can be programmed there. |
| `UartDma.Driver2.DmaRecvIsr` | STM32/drivers/drv_usart_v2.c:383-425 | The counter arithmetic reports the stated function of the true totals, and the mark moves exactly on a nonzero report. |
| `UartDma.Driver1.UartIsr` | STM32/drivers/drv_usart.c:616-630 | The idle branch reports the 32-bit difference of buffer positions. |
| `UartDma.Driver1.DmaIsr` | STM32/drivers/drv_usart.c:695-725 | The half and complete interrupt does too, except at the end of the buffer. |
| `UartDma.Report2Right` | STM32/drivers/drv_usart_v2.c:396-416 | A newer-driver report is nothing or exactly the bytes since the last, unless a completion finds nothing outstanding. |
| `UartDma.Report2Complete` | STM32/drivers/drv_usart_v2.c:396-416 | When each kind of interrupt reports everything outstanding. |
| `UartDma.Report1Right` | STM32/drivers/drv_usart.c:616-725 | The older driver is right exactly when the span stays in one lap or ends at the end of the buffer and the DMA interrupt reports it. |
| `UartDma.Replay` | STM32/drivers/drv_usart_v2.c:383-425 | On any sequence of bytes and interrupts both drivers report the specified lengths. |
| `UartDma.BytesConserved` | STM32/drivers/drv_usart_v2.c:418-422 | In every run with at most a buffer outstanding the reports add up to the bytes before the mark plus one buffer for each empty completion; each byte is reported exactly once if and only if there is none. |
| `UartDma.IdleReportsAll` | STM32/drivers/drv_usart_v2.c:398-403 | An idle interrupt with less than a buffer outstanding brings the account up to the last byte. |
| `UartDma.PhantomBuffer` | STM32/drivers/drv_usart_v2.c:410-412 | An idle interrupt just before the completion makes the driver announce a buffer that never came. |
| `UartDma.PhantomRun` | STM32/drivers/drv_usart_v2.c:383-425 | A run of both drivers in which two bytes come and the newer one reports four. |
| `UartDma.DriversAgree` | STM32/drivers/drv_usart.c:695-725 | If completions are served as soon as the buffer is full, both drivers report the same lengths, each exact. |
| `BmpCapture.SampleInBounds` | K230/face_access_control.py:1581-1588 | The sampled coordinate lies in the source and is the nearest one at or before the exact share. |
| `BmpCapture.Mix` | K230/face_access_control.py:1618-1622 | A blended colour lies between the two it mixes, up to one step below, so it fits a byte. |
| `BmpCapture.BlendIsMixture` | K230/face_access_control.py:1608-1623 | Opacity weighs the drawing: the blend is the exact mixture or less than two steps below; from 250 on it is the drawing alone, at zero what is under it. |
| `BmpCapture.FillCamera` | K230/face_access_control.py:1577-1592 | The plane loops fill the buffer with the sampled camera picture, or give up exactly when some sample lies past the camera data. |
| `BmpCapture.FullPlanesFit` | K230/face_access_control.py:1577-1592 | With three full planes all samples are in bounds. |
| `BmpCapture.BlendOsd` | K230/face_access_control.py:1594-1623 | The in-place loops blend the drawing over the picture up to the first pixel whose drawing data is missing, or to the end; an empty drawing changes nothing. |
| `BmpCapture.FullDrawingStops` | K230/face_access_control.py:1594-1623 | With full drawing data the end is reached. |
| `BmpCapture.PutOsd` | K230/face_access_control.py:1608-1623 | One pixel that is not transparent is replaced or mixed by its opacity; all other bytes stay. |
| `BmpCapture.HeaderReads` | K230/face_access_control.py:1627-1647 | A reader of the header finds the stated sizes, offset, depth and dimensions, modulo 2^32. |
| `BmpCapture.SaveBmp` | K230/face_access_control.py:1649-1654 | The file is the header and the rows from the bottom up. |
| `BmpCapture.FileShows` | K230/face_access_control.py:1625-1654 | Every pixel of the blended picture is found where a reader looks for it. |
| `BmpCapture.ReaderSees` | K230/face_access_control.py:1577-1623 | In terms of the camera and drawing bytes: a reader sees blue, green and red from the three planes where nothing is drawn, and mixed with the colours of the drawing where something is. |
| `BmpCapture.CaptureScreen` | K230/face_access_control.py:1575-1656 | A file is saved exactly when the camera data covers all samples; for all dimensions it decodes to the camera sample with the drawing blended over it as far as the drawing goes, and its recorded size is true exactly below 2^32 bytes. |
| `PwmTimer.Timer.Set` | STM32/drivers/drv_pwm.c:310-333 | The registers are those computed without any bound on integers: no 32-bit conversion loses anything. |
| `PwmTimer.Timer.Get` | STM32/drivers/drv_pwm.c:272-276 | Reads period and pulse back through the 32-bit product. |
| `PwmTimer.Timer.SetThenGet` | STM32/drivers/drv_pwm.c:272-333 | Set then get: a period of three clocks or more is close to the request exactly when its product does not wrap; the pulse is no longer than the period when both products wrap equally often, in particular below 2^32. |
| `PwmTimer.DivisorIsLeast` | STM32/drivers/drv_pwm.c:312 | The divisor is the least that brings the count below the largest period. |
| `PwmTimer.RegistersFit` | STM32/drivers/drv_pwm.c:310-333 | Prescaler and reload fit 16 bits and the compare value never passes the reload, for every request and clock up to 168 MHz. |
| `PwmTimer.PeriodBack` | STM32/drivers/drv_pwm.c:272-333 | A period of three clocks or more is read back at most the request and short by less than one divided clock plus 1 ns, exactly when the product does not wrap; a shorter one is read back as three clocks. |
| `PwmTimer.PulseBack` | STM32/drivers/drv_pwm.c:321-331 | A pulse that meets neither clamp is read back close exactly when its product does not wrap. |
| `PwmTimer.CompareIs` | STM32/drivers/drv_pwm.c:321-331 | The compare value counts the whole divided clocks of the pulse, no fewer than two and no more than the period has. |
| `PwmTimer.PulseWithinPeriod` | STM32/drivers/drv_pwm.c:275-276 | Read back, the pulse is no longer than the period when both products wrap equally often. |
| `PwmTimer.PulseLongerIff` | STM32/drivers/drv_pwm.c:275-276 | The exact condition, on how often each product wraps and how far they lie apart, for the pulse read back to be longer than the period. |
| `PwmTimer.PulseBeyondPeriod` | STM32/drivers/drv_pwm.c:275-276 | 26 ms with a 13 ms pulse at 168 MHz is read back as 0.43 ms with a 13 ms pulse. |
| `PwmTimer.FullDuty` | STM32/drivers/drv_pwm.c:321-330 | A pulse as long as the period gives full duty, and nothing shorter than the period by a divided clock or more does. |
| `PwmTimer.FiftyMilliseconds` | STM32/drivers/drv_pwm.c:275 | 50 ms at 168 MHz is read back as about 24 ms. |
| `BusyWait.CountIsSafe` | STM32/drivers/drv_common.c:158-170 | Over any polls the count is at most the cycles passed less the timer reloads, and equal to that exactly when no poll comes a period late. |
| `BusyWait.NeverEarlyIff` | STM32/drivers/drv_common.c:145-173 | On every schedule of polls the wait is less than two cycles (and under a cycle more for reload values below 1000) short of the time asked for, if and only if the product fits 32 bits. |
| `BusyWait.LessThanTwoCyclesEarly` | STM32/drivers/drv_common.c:151 | A sufficient count means that less than that is missing, though the period is one longer than the reload value. |
| `BusyWait.FrequentPollsEnd` | STM32/drivers/drv_common.c:154-172 | Polled at least once a period, the loop stops as soon as the wanted cycles and one for each reload have passed. |
| `BusyWait.EarlySchedule` | STM32/drivers/drv_common.c:151 | Whenever the product wraps, a schedule stops the wait at least 2^32 - 1000 thousandths of a cycle early. |
| `BusyWait.WaitTooShort` | STM32/drivers/drv_common.c:145-173 | The loop itself, run on such a schedule, comes back that early. |
| `BusyWait.Delay` | STM32/drivers/drv_common.c:145-173 | The loop, with its 32-bit counter, stops exactly at the first poll whose exact count suffices. |
| `BusyWait.NeverEarly` | STM32/drivers/drv_common.c:145-173 | Where it stops, the wanted cycles and one for each reload have passed. |
| `BusyWait.LongWaitWraps` | STM32/drivers/drv_common.c:151 | 25566 microseconds at 168 MHz return after 95 cycles instead of 4 295 088. |

## Left out

- STM32/linkscripts/applications: copies of STM32/applications with other settings.
- Neural networks, face geometry and the user database: scores are arbitrary numbers, recognition is an input of each frame.
- WiFi, OneNET, MQTT, HTTP uploads, cJSON and console commands: input and output over other libraries. The picture capture does not queue an upload.
- Kernel internals: an event object is a set of bits, a mutex section is atomic, and the timer's expiry and its callback's post are one step, because the timer thread has a higher priority (4) than the door thread (5) on a single core.
- The steps of start-up of the door module (`door_lock_init`), the servo sweep, the watchdog and the MQ2 sensor: a move is any post at any time, and the servo call is a point where others run.
- UnlockLink.AckMeansPosted: does not cover a line with damaged frames, or with heartbeat answers, that the parser has not seen from its start; bytes can then come together as an acknowledgement nobody sent (`UnlockLink.HeartbeatForges`), and `UnlockLink.AckOnAnyLine` says what holds if they do not.
- UnlockLink.AckOnAnyLine: does not cover a line that forges the encoding of an acknowledgement.
- UnlockLink.Dispatch: what the door, the alarm and the LED are told by commands other than the unlock request is not modelled; in `RequestToDoor` such posts are moves of their own.
- 8-bit positions and lengths in the C parser: they are unbounded numbers here, and proved to stay below 72.
- EthernetDma.Ring.TransmitFrame: models the descriptor hand-over of the hardware layer, not its checksum and segment flags.
- OnChipFlash.Flash.Write: what an operation does to memory outside the bank is not modelled, only whether it reads back equal; the lock and flag registers are not modelled, and a failed operation may clear any of the bits it was asked to clear.
- UartDma.Driver1.UartIsr: the shift of the length into the event word is not modelled.
- PwmTimer.Timer.Get: the clock is given in megahertz; reading it from the clock tree and its division setting is not modelled.
- BusyWait.Delay: polls are a finite schedule; `BusyWait.FrequentPollsEnd` says when it is long enough.
- FatigueFilter.FatigueAnalyzer.Analyze: scores are real numbers, without floating-point rounding.
