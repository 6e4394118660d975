# Driver labs and race protocol, verified

A Dafny model of the parts of this repository that are algorithms over unbounded input: the race handshake of
the typing game in `proj/`, the mouse, keyboard and KBC code of `lab3/` and `lab4/`, and the drawing, pattern and
animation code of `lab5/`.

- **Race** (`RacePeer`, `RaceSession`, `RaceOutcome`, `RaceLedger`, `RaceHaste`, `RaceBytes`). `RacePeer.Racer` is one machine with
  the program's globals: the button, the serial-port branch of the main loop, and the assembly of numbers from single
  bytes. Its methods are proved against functions on a `Peer` value; `RaceSession` joins two peers by two FIFO lines
  and proves what every session keeps; `RaceOutcome` says exactly which sessions leave a player alone or give two
  winners; `RaceLedger` keeps the accounts: everything said is heard, every win is announced, the button toggles;
  `RaceHaste` is a session of impatient presses; `RaceBytes` carries the session to lines of single bytes.
- **Mouse** (`MousePackets`, `Gesture`, `MouseTests`). Framing and decoding of the byte stream, the S/U/V/D/E
  recogniser with its 16-bit accumulators, and the three event loops around them.
- **Keyboard and KBC** (`Keyboard`, `Kbc`). The scancode assembler by interrupt, by polling and with a timeout; the
  bounded-retry port protocol against arbitrary hardware.
- **Screen** (`Screen`, `Colors`, `Pattern`, `Motion`, `Animation`). Drawing into a flat byte array of any depth,
  colour packing, the tiled pattern, and the erase-and-redraw animation.
- `CTypes` holds the fixed-width C integers (conversions written out as wrap-around), `Interrupts` the event
  sequences that the loops read.

The outside world is an input: an `Event` says whether a notification carries a timer tick and a device interrupt
and what reading the device gave; `Ports` is built over an arbitrary function from access number to reply; the
clock is an argument of the button. Loops that wait for events end when the event sequence does, so every
contract holds after every prefix of a run.

What the proofs found:

- The race can leave a player alone: one generates text, the other does not (`UnreadyLeavesAlone`: a player takes his
  readiness back, and the opponent gets ready before hearing of it). This happens if and only if somebody presses
  un-ready while the opponent's ready message is on its way, or ready while his un-ready is (`WhoRaces`); the harm
  is then done for good (`RunOutcome`).
- Two players cannot both lose, but both can win: if and only if one types the last character after the other has
  won, which of two finished players is so exactly when no news of a win reached a player who was typing (`WhoWins`,
  `BothWin`). News that comes during the countdown is ignored, like news that comes after the end.
- `SeedAgreement` holds when no unready player presses while one of his requests or its acknowledgement is in
  flight. A press made earlier can give the players different texts (`HastyPressDisagrees`), and the flag the program keeps for
  waiting is no sufficient guard (`GuardNotEnough`): the acknowledgement of a seed clears the wait of the next
  press. The rule is sufficient and not necessary, so the theorem goes one way: an early press can also do no harm,
  as when the opponent never gets ready.
- The comment above `checkIfReady` has the text generated from the calculated seed; `generateText` takes an
  `unsigned`, so only the low 32 bits of the 64-bit sum count. The model follows the code (`TextSeed`).
- A gesture accumulator holds a true sum exactly when the sum fits into 16 bits, as it does up to 127 packets
  (`Accumulators`). A released stroke is lost exactly when its wrapped sums are not steep (`UpReleased`,
  `DownReleased`), so that a long stroke can be lost though its true sums are steep (`LongStrokeLost`). The recogniser
  runs like one with unbounded counters exactly as long as no release is misjudged in this way (`IdealExactness`).
- After a failed read outside a number, a byte that announces a number and is still held is taken once more
  (`Racer.Taken`); when even the interrupt identification cannot be read, the byte held counts as newly received
  (`Racer.SerialPortIh`).
- The pattern can have more tiles than asked for (`TileCount`), and its loops do not end when a tile is empty or
  there are more than 255 of them (`LoopEnds`).
- The closed form of the animation's motion holds exactly when a step from the target does not leave the 16-bit
  range and a slow speed fits the 8-bit frame counter (`MotionExact`).
- Erasing works exactly for sprites that are black outside 100 by 100 pixels (`EraseExact`).

## Model

| member | source | states |
|---|---|---|
| RaceSession.SeedAgreement | proj/src/proj.c:174-180 | after any interleaving of ready, un-ready and ready again, both players that left unready generated text exactly once and from the same seed, the low 32 bits of the sum of their seeds; a player is unready exactly while it has generated nothing |
| RaceSession.RunKeepsInv | proj/src/proj.c:310-351 | every reachable session keeps the invariant: framed ready messages, awaited acknowledgements, each belief about the opponent true or about to be corrected |
| RaceSession.RaceTogether | proj/src/proj.c:174-180 | with nothing left in flight, a racing player has a racing opponent if and only if the opponent still holds him ready; a step towards RaceOutcome.WhoRaces |
| RaceOutcome.WhoRaces | proj/src/proj.c:310-351 | with nothing left in flight, both have left unready or neither has, if and only if nobody pressed un-ready while the opponent's ready message was on its way, or ready while his un-ready was |
| RaceOutcome.WhoStarts | proj/src/proj.c:174-180 | with nothing left in flight, of two players who are confirmed ready one has left unready, for any number of presses; without a colliding press each has left if and only if both are confirmed ready |
| RaceOutcome.RunOutcome | proj/src/proj.c:310-351 | after such a press one player has left or is bound to and the other never will; without one the players stay together |
| RaceOutcome.CrossedByPress | proj/src/proj.c:491-501 | an un-ready and a ready message are ever on the opposite lines at once if and only if there was such a press |
| RaceSession.UnreadyLeavesAlone | proj/src/proj.c:319-323 | a session of permitted presses that ends with one player ready to race and the other unready |
| RaceSession.HastyPressDisagrees | proj/src/proj.c:491-501 | without the rule on pressing, a session in which both race on different texts |
| RaceHaste.GuardNotEnough | proj/src/proj.c:336-350 | a session in which nobody presses while the waiting flag is set, and both race on different texts |
| RaceSession.RaceProgress | proj/src/proj.c:263-351 | if each player presses once with a nonzero clock, the session ends within 18 moves, and once all is delivered both have left unready with the same text |
| RaceSession.SessionLength | proj/src/proj.c:263-351 | a weighted count of what is in flight bounds every session by five moves a press plus eight |
| RaceSession.SomebodyWins | proj/src/typing/typing.c:126-135 | two finished players have not both lost |
| RaceOutcome.WhoWins | proj/src/proj.c:324-330 | both have won if and only if a player finished after the other had won, and a player has lost if and only if the news of a win reached him while typing |
| RaceOutcome.BothWin | proj/src/proj.c:324-330 | of two finished players one has won, and both have if and only if no news of a win ever reached a player who was typing |
| RaceLedger.Ledger | proj/src/proj.c:310-323 | in every session, what one player has said, message by message, is what the other has taken in and what is still on the line, in this order |
| RaceLedger.WinsAnnounced | proj/src/typing/typing.c:132-135 | as often as a player has finished, the other has taken in a win or has one on his line |
| RaceLedger.WinsHeard | proj/src/typing/typing.c:91-94 | a player has won if and only if he has finished, which he does at most once, and with his line empty the other has heard of it |
| RaceLedger.ButtonToggles | proj/src/proj.c:491-501 | while nobody has left unready and once all is delivered, a player is ready, and known to be, if and only if he has pressed an odd number of times; his seed on both sides is the time of his last press |
| RaceSession.BothCanWin | proj/src/proj.c:324-330 | a session after which both players have won; exactly which sessions end so is RaceOutcome.WhoWins |
| RaceBytes.ByteRunRefines | proj/src/lib/drivers/serialPort/serialPort.c:30-50 | every run over single bytes is a run over whole messages, whatever the interleaving |
| RaceBytes.ByteSeedAgreement | proj/src/lib/drivers/serialPort/serialPort.c:103-110 | seed agreement on the wire |
| RaceBytes.ByteSessionLength | proj/src/lib/drivers/serialPort/serialPort.c:103-110 | a session of single bytes takes at most nineteen moves a press plus sixteen |
| RaceBytes.ByteRaceProgress | proj/src/lib/drivers/serialPort/serialPort.c:30-50 | if each player presses once, every schedule of single bytes ends within 54 moves, and once all bytes are delivered both have left unready with the same text |
| RacePeer.Racer.SerialInterrupt | proj/src/proj.c:263-354 | what one interrupt, failed reads included, gives to the frame assembler or straight to the peer, and, when a message is complete, the peer's reaction and the encoded answer; what reactions amount to is SeedAgreement, WhoRaces and WhoWins |
| RacePeer.Racer.RaceReadyButton | proj/src/proj.c:491-501 | the new globals and the bytes sent are those of the message-level press |
| RacePeer.Racer.ReadNumber | proj/src/lib/drivers/serialPort/serialPort.c:157-215 | a payload byte is buffered, or completes the little-endian number and frees the buffer; a failed read changes nothing |
| RacePeer.Racer.SerialPortIh | proj/src/lib/drivers/serialPort/serialPort.c:30-50 | a byte counts if it was available, read, and announces no number, or if the interrupt identification could not be read; an announcing byte, even a stale one, starts a number |
| RacePeer.Racer.SendULong | proj/src/lib/drivers/serialPort/serialPort.c:103-110 | the announcing byte and the eight bytes of the number, lowest first |
| RacePeer.Racer.CheckIfReady | proj/src/proj.c:174-180 | the program's check is the peer's CheckReady; that it runs at most once, and on the same 32-bit seed for both players, is RaceSession.SeedAgreement |
| RacePeer.Racer.AckByte | proj/src/proj.c:336-350 | the program's branch is the peer's Acknowledged, in which any byte ends the wait; what follows from that is RaceHaste.GuardNotEnough |
| RacePeer.OwnReadinessIs | proj/src/proj.c:336-346 | own readiness and seed after any message |
| RacePeer.OtherReadinessIs | proj/src/proj.c:267-275 | the opponent's readiness and seed after any message |
| RacePeer.WaitIs | proj/src/proj.c:336-350 | exactly which messages leave a player waiting for an acknowledgement |
| RacePeer.TextIs | proj/src/proj.c:174-180 | exactly which messages generate text, and from which seed |
| RacePeer.StageIs | proj/src/proj.c:324-330 | the stage of the race and the loss after any message |
| RacePeer.ExitForgets | proj/src/proj.c:331-335 | the opponent's leaving resets the race in whatever state the player is |
| RacePeer.WireIs | proj/src/lib/drivers/serialPort/serialPort.h:11-25 | the bytes of every message, a seed lowest byte first |
| RacePeer.MeaningIs | proj/src/lib/drivers/serialPort/serialPort.h:11-25 | the meaning of every byte outside a number |
| RaceBytes.NumberFrame | proj/src/lib/drivers/serialPort/serialPort.c:157-215 | a number of any kind ends after its four or eight bytes and not before |
| MousePackets.FrameConservation | lab4/mouse.c:26-29 | on every stream, bytes in = bytes skipped + 3 * packets + bytes buffered, and at most two bytes are buffered between interrupts |
| MousePackets.FrameSnoc | lab4/mouse.c:26-29 | cutting a stream into packets at once is taking its bytes one at a time |
| MousePackets.FramingRoundTrip | lab4/mouse.c:26-41 | encoded reports come back whole, also behind garbage with bit 3 clear |
| MousePackets.DecodeEncode | lab4/mouse.c:31-41 | decoding an encoded report gives its buttons, overflow bits and 9-bit deltas |
| MousePackets.EncodeDecode | lab4/mouse.c:31-41 | encoding a decoded packet gives its bytes, for every first byte with bit 3 |
| MousePackets.DecodeIs | lab4/mouse.c:31-41 | the packet by the weights of the bits of its bytes, and the bytes themselves |
| MousePackets.Driver.MouseSyncBytes | lab4/mouse.c:26-29 | a byte is dropped or appended, inside the three-byte buffer |
| MousePackets.Driver.Interrupt | lab4/lab4.c:61-68 | interrupt by interrupt, failed reads included, the packets completed are those of framing everything heard |
| Gesture.GestureExactness | lab4/lab4.c:140-188 | the recogniser first reaches E with packet n if and only if the first n packets are spoiled attempts followed by a gesture word with its sum constraints |
| Gesture.FollowGesture | lab4/lab4.c:140-188 | from S, a gesture word leads to E, and not before its last packet |
| Gesture.PauseExact | lab4/lab4.c:163-173 | in V, a packet leads back to S if and only if it has the left or middle button or both its deltas lie outside the tolerance, and otherwise to D or V by the right button |
| Gesture.Decompose | lab4/lab4.c:140-188 | every history that did not pass E is spoiled attempts and then the word the state describes |
| Gesture.EStays | lab4/lab4.c:186 | E is final |
| Gesture.Accumulators | lab4/lab4.c:137-184 | in U and D the 16-bit counters are, modulo 2^16, the sums of the stroke that entered the state, y negated in D, and the sums themselves if and only if they fit, as they do up to 127 packets |
| Gesture.UpReleased | lab4/lab4.c:158-160 | a released up-stroke is lost if and only if its wrapped sums are not steep |
| Gesture.DownReleased | lab4/lab4.c:181-183 | a released down-stroke completes the gesture if and only if its wrapped sums are steep, and is lost otherwise |
| Gesture.TrueExactness | lab4/lab4.c:140-188 | when no up-stroke or down-stroke has sums that overflow, the recogniser first reaches E with packet n if and only if it is in S at some packet and the packets from there to n are a gesture by their true sums |
| Gesture.IdealExactness | lab4/lab4.c:137-188 | the recogniser is in the state of one with unbounded counters after every packet if and only if no stroke is released whose true sums and wrapped sums differ in being steep |
| Gesture.ShortStrokes | lab4/lab4.c:137-138 | no stroke's sums overflow when no up-stroke or down-stroke is longer than 127 packets |
| Gesture.LongStrokeLost | lab4/lab4.c:155-160 | a stroke of 129 packets, steep by its true sums, is thrown away at its release |
| Gesture.Recogniser.MouseStateUpdate | lab4/lab4.c:140-188 | the globals change as the machine does whose runs GestureExactness and TrueExactness characterise |
| MouseTests.MouseTestGesture | lab4/lab4.c:198-222 | the loop stops with exactly the event whose byte completes the packet at which framing, decoding and folding the whole stream first accepts |
| MouseTests.MouseTestPacket | lab4/lab4.c:50-73 | the packets of the stream are shown in order, and the loop stops with the event that completes the last one asked for |
| MouseTests.MouseTestAsync | lab4/lab4.c:87-125 | the loop stops with the first event at which 60 * idle_time ticks have passed since the last mouse interrupt, a shared tick not counted, and never when idle_time is zero |
| MouseTests.MouseIdleSince | lab4/lab4.c:103-113 | the counter decides the timeout at every event |
| Keyboard.ScancodeRoundTrip | lab3/lab3.c:47-92 | of a list of codes with E0 only as prefix, exactly the codes up to the first ending in 0x81 are reported |
| Keyboard.ShownRoundTrip | lab3/lab3.c:75-85 | the bytes shown of such a list are the bytes of the stream up to the first code ending in 0x81, each scancode a make code exactly when its last byte is below 0x80 |
| Keyboard.RepeatedPrefix | lab3/lab3.c:75-76 | repeated E0 bytes act as one |
| Keyboard.SameCodes | lab3/lab3.c:98-113 | on error-free reads the polling scanner reports what the interrupt scanner reports |
| Keyboard.KbdTestScan | lab3/lab3.c:47-92 | the scanner shows the codes of everything heard up to and including the first 0x81, as make codes exactly when the last byte is below 0x80 |
| Keyboard.KbdTestPoll | lab3/lab3.c:98-113 | the codes of the bytes read well, up to the first stored byte that is 0x81, as make codes exactly when the last byte is below 0x80 |
| Keyboard.KbdTestTimedScan | lab3/lab3.c:129-165 | the scan stops with the first event at which 60 * n ticks have passed since the last key, a shared tick counted, or the byte held is 0x81; make codes are those whose last byte is below 0x80 |
| Keyboard.KeyIdleSince | lab3/lab3.c:152-160 | the two counters decide the timeout at every event |
| Interrupts.HeardAt | lab4/mouse.c:22-24 | every device interrupt and nothing else is heard, as the byte read or, after a failed read, as the byte heard before |
| Interrupts.TicksAre | lab4/lab4.c:103-105 | ticks are the events that carry one |
| Kbc.CommandTraceBound | lab4/mouse.c:43-55 | every trace of mouse_write has at most 200 polls, 20 writes and 10 answers; writes alternate D4 to 0x64 and the command to 0x60, each right after a poll showing the input buffer empty; success exactly when the last access reads the first acknowledgement |
| Kbc.GivesUp | lab4/mouse.c:43-55 | when no access fails, mouse_write gives up only after ten answers or after ten polls in a row of a full input buffer |
| Kbc.ReadGivesUp | lab4/KBC.c:10-26 | when no access fails, nothing is read only after ten polls of an empty output buffer or a poll that shows an error or the wrong device |
| Kbc.StatusIs | lab4/i8042.h:14-18 | the status bits by their weights |
| Kbc.Ports.MouseWrite | lab4/mouse.c:43-55 | whatever the hardware replies, the accesses made form such a trace |
| Kbc.Ports.WriteKBCCommand | lab4/KBC.c:28-41 | the exact shape of the polls and the write |
| Kbc.Ports.ReadKBCOutput | lab4/KBC.c:10-26 | a byte is read only after a poll that shows one without errors from the right device, and nothing is stored otherwise |
| Screen.PixelInFrame | lab5/graphics.c:27-28 | every valid pixel lies inside the mapped frame |
| Screen.PixelsDisjoint | lab5/graphics.c:45-51 | the byte ranges of distinct pixels are disjoint |
| Screen.WriteIsSetPixel | lab5/graphics.c:45-51 | writing the bytes of a pixel updates the coordinate-to-colour map at that pixel and nowhere else |
| Screen.PictureDeterminesFrame | lab5/graphics.c:27-28 | the map determines every byte of the frame |
| Screen.Display.DrawPixel | lab5/graphics.c:40-54 | fails exactly off the screen, changing nothing, and otherwise writes the bytes of the colour, lowest first, at (xRes * y + x) * b and nothing else, for the least b with 8 * b bits enough |
| Screen.PictureAt | lab5/graphics.c:48-51 | the bytes of a pixel of the picture are those of the frame at that place |
| Screen.Stuck | lab5/graphics.c:56-64 | the first off-screen pixel ends a drawing with the stated progress; 16-bit truncation of coordinates never matters |
| Screen.Display.DrawHLine | lab5/graphics.c:56-59 | success exactly when the line is empty or fits, and exactly the visible part is drawn |
| Screen.Display.DrawRectangle | lab5/graphics.c:61-64 | success exactly when empty or fitting; otherwise the visible part of the first row, or the visible rows, and nothing else changes |
| Screen.RectangleExact | lab5/graphics.c:61-64 | the outcome of a rectangle in inequalities, pixel by pixel |
| Screen.Display.PrintXpm | lab5/graphics.c:66-79 | the same for a sprite; on success it is all on the screen, and pixel (px, py) holds texel (py - y) * width + (px - x) |
| Colors.PackUnpack | lab5/graphics.c:89-91 | for fields that do not overlap, every channel of a packed colour reads back |
| Colors.DirectIs | lab5/graphics.c:89-91 | a packed colour is the sum of its channels, each with the weight of its field |
| Colors.DirectBits | lab5/graphics.c:89-91 | the bits of a packed colour for any fields whatever |
| Colors.UnpackIs | lab5/graphics.c:109-119 | unpacking divides by the weight of the field and takes the remainder modulo its range |
| Colors.ChannelAdvances | lab5/graphics.c:97-107 | a channel starts at its value in the first colour and advances by the step modulo 2^size, in spite of 32-bit overflow |
| Colors.SteppedAdvances | lab5/graphics.c:93-95 | so does an indexed colour with the number of the tile |
| Colors.NormalizedReadsBack | lab5/graphics.c:81-87 | a normalized colour fits its pixel and reads back from the bytes drawn |
| Colors.NormalizeIs | lab5/graphics.c:81-87 | a normalized colour is the remainder modulo the number of colours |
| Pattern.GridColors | lab5/lab5.c:92-96 | over the grid, red depends on the column, green on the row and blue on their sum |
| Pattern.IndexedColors | lab5/graphics.c:93-95 | in the indexed mode tile (col, row) has the first colour and row * n + col steps, modulo the number of colours |
| Pattern.DirectColors | lab5/graphics.c:97-119 | in a direct mode the colour of a tile is the sum of its channel values in their fields |
| Pattern.InkIs | lab5/lab5.c:88-98 | the bytes of every tile of the pattern test, in numbers |
| Pattern.PatternAt | lab5/lab5.c:86-98 | pixel (px, py) of the grid of xRes / width by yRes / height tiles has the ink of tile (px / width, py / height), and the others are unchanged |
| Pattern.VideoTestPattern | lab5/lab5.c:77-100 | the loops draw the closed-form image, no rectangle fails, and pixels outside the grid keep their colour |
| Pattern.LoopEnds | lab5/lab5.c:86-87 | a loop with an 8-bit counter ends exactly when tiles are not empty and at most 255 |
| Pattern.TileCount | lab5/lab5.c:84-87 | there are n + (W mod n) / (W div n) tiles, which is n exactly when W mod n < W div n |
| Motion.MotionExact | lab5/lab5.c:153-173 | the coordinate follows the closed form at every tick if and only if a step from the target stays in 16 bits and a slow speed is at most 255 or there is no way to go |
| Motion.MovedIs | lab5/lab5.c:155-160 | one step in numbers: modulo 2^16, and the target if that is passed |
| Motion.ClosedWhenSteady | lab5/lab5.c:153-173 | start moved by k * speed, or floor(k / speed), towards the target and clamped there |
| Motion.Arrival | lab5/lab5.c:153-173 | the closed form is at the target from ceil(gap / speed) ticks on, or gap * speed slow ones, and not before |
| Motion.Monotone | lab5/lab5.c:153-173 | it never turns back |
| Animation.Plan | lab5/lab5.c:122-131 | a journey exists exactly along an axis with a nonzero speed, and leads from one end to the other |
| Animation.VideoTestMove | lab5/lab5.c:115-180 | refuses a journey off the axes or without speed and a frame rate below 19, and otherwise fails exactly when some shape along the path does not fit; until then the picture is a black screen with the sprite drawn at the current position; stops with the first event after which the byte held is 0x81 |
| Animation.PlanFollows | lab5/lab5.c:122-131 | the direction and the amount chosen on entry are those of the journey |
| Animation.EraseExact | lab5/lab5.c:151 | erasing the box gives back the black screen if and only if the sprite is black outside 100 by 100 |
| Animation.EndsDecide | lab5/lab5.c:142-176 | for steady motion, everything fits along the path when it fits at both ends, and only then once the end has been left standing |
| Animation.ReachesTheEnd | lab5/lab5.c:153-173 | the sprite is at the far end from the tick stated on, and at no tick before |
| Animation.OnTheWay | lab5/lab5.c:153-173 | on a steady journey the sprite is k * speed pixels, or k / -speed, along its axis and never beyond the end |
| Animation.BlackFrame | lab5/lab5.c:151 | a frame of zero bytes, and no other, is a black screen |

## Left out

- RacePeer.Racer.SerialInterrupt: does not model serialPortClearFIFO, which may drop bytes that have arrived; the lines are lossless.
- RacePeer.Racer.AckByte: the same holds for the FIFO cleared in the default case.
- RacePeer.Racer.SendULong: sending does not fail; the retry loop of serialPortSendByte is not modelled, and the waiting flag is set by the button.
- RacePeer.Racer.CheckIfReady: records the seed given to generateText and the new status, not the text itself (the dictionary and random() are outside) and not the start time.
- RaceSession.SeedAgreement: holds when no unready player presses while a request of his or its acknowledgement is in flight; HastyPressDisagrees and GuardNotEnough show why. Leaving the race, the reset button and the acknowledgement timeout are not moves of a session.
- RaceOutcome.WhoRaces: makes the same assumption, and that the clock does not show zero when the button is pressed.
- Pattern.VideoTestPattern: assumes that the loops end; LoopEnds says exactly when each does.
- Pattern.GridColors: assumes channel fields inside 32 bits that do not overlap. A mask of 31 or 32 bits is taken as that many low bits, although the shift in its C expression is then not defined.
- Screen.Display.constructor: takes the mode as given and the frame as blank; asking the BIOS for the mode, mapping memory and setting the mode are not part of this model, nor is a frame of 2^31 bytes or more.
- Screen.Display.PrintXpm: takes the loaded image; a failing xpm_load is not modelled.
- Animation.VideoTestMove: a failing driver_receive or xpm_load ends the program and is not modelled; what a failed drawing leaves on the screen is stated by the drawing methods and not repeated.
- MouseTests.MouseTestAsync: the tick counter starts at zero and does not reach 2^31.
- Keyboard.KbdTestTimedScan: the tick counter and the byte held start at zero.
- Subscribing to interrupts, driver_receive failing, and the commands sent before and after the loops: calls into the operating system.
- mouse_test_remote: a loop of delays and commands whose outcome is up to the mouse.
- The timer configuration and display code, the menus, themes, text drawing and statistics of the typing game: no property beyond what one body says.
