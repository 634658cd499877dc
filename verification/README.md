# Pattern matcher memory game, modelled in Dafny

The firmware in `src/main.c` runs a memory game on an STM32 board. It waits
for the start button. It draws ten random bits, reports them on the serial
line as a line of `'0'`/`'1'` digits, and shows them on the LED as long
(1000 ms) and short (250 ms) flashes. It then reads ten button presses back,
timing each one with the millisecond tick counter. A press held 25 ticks or
less is ignored. A press held longer than 750 ticks reads as long, any other
registered press as short. Each registered reading is echoed on the serial
line. Finally it compares the two patterns. A mismatch flashes the LED twice
and restarts the game; a match leaves the LED on and ends the loop.

The model keeps the decision logic and makes the hardware's effects into a
trace of events (`Board.Event`: start press seen, LED on/off, delay, serial
byte). The modules follow the steps of the loop:

- `Ticks`: 32-bit tick readings and the unsigned difference `end - start`
  (`Ticks.Elapsed`, line 88).
- `Presses`: one press and its reading (ignored, short, long).
- `Serial`: the ASCII digits (`Serial.Digits`) and the line with its
  carriage return (`Serial.EncodeLine`), with a decoder as the inverse.
- `Display`: the flashes that show a pattern, with an observer that reads
  them back.
- `Input`: the capture loop as a fold over the stream of presses, and as the
  firmware's nested loops (`CapturePresses`).
- `Compare`: the early-exit comparison, as a function and as a loop.
- `Game`: one round, the outcome signals, and the game loop over a sequence
  of drawn patterns. `Game.Effects` puts a round's effects together from its
  opening, its capture and its outcome. `Game.RoundTrace` gives the effects
  of one round, and `Game.Trace` those of the whole run.
- `Seqs` and `Wrappers`: general facts about concatenated sequences, and
  the optional value.

The registration threshold follows the code, not its comment. The comment
says a push shorter than 0.025 s is not registered. The test is
`end - start > 25`, so a press of exactly 25 ticks is ignored as well.

## Model

| member | source | states |
|---|---|---|
| Ticks.ElapsedIsModularDifference | src/main.c:82-88 | `Elapsed(start, end)` equals `(end - start) mod 2^32`, the value of the `uint32_t` subtraction at line 88. |
| Ticks.ElapsedLeadsToEnd | src/main.c:82-88 | advancing the start reading by the measured time gives the end reading |
| Ticks.ElapsedMeasuresHold | src/main.c:82-88 | a press shorter than 2^32 ticks measures exactly its length, also when the counter wraps between press and release |
| Ticks.ElapsedIsUnique | src/main.c:82-88 | the measurement is the only count below 2^32 that leads from the start to the end reading |
| Ticks.Advance | src/main.c:82-86 | the counter wraps to 0 after 2^32 - 1: the later reading is `t + d`, less 2^32 once that passes the top |
| Presses.Hold | src/main.c:82-86 | a press held `d` ticks from any start reading measures `d` |
| Presses.Classify | src/main.c:73-90 | a time is ignored iff it is at most 25; it is short iff it lies in 26..750 and long iff it is above 750 |
| Presses.Read | src/main.c:82-90 | a press registers iff its unsigned held time exceeds 25, and reads long iff that time exceeds 750 |
| Presses.Boundaries | src/main.c:73-90 | 25 ticks are ignored, 26 and 750 read short, 751 reads long |
| Presses.ReadIgnoresWrap | src/main.c:82-90 | a reading depends only on the held time, not on where the counter stood |
| Serial.Digit | src/main.c:47 | a bit is sent as `'0'` (48) or `'1'` (49), `'1'` exactly for true |
| Serial.Digits | src/main.c:44-48 | the digits of a pattern are one byte per bit and nothing else |
| Serial.EncodeLine | src/main.c:44-49 | a line is one byte per bit followed by the carriage return 13 |
| Serial.DigitsAt | src/main.c:44-48 | the k-th byte sent is 48 plus the k-th bit |
| Serial.DigitsAppend | src/main.c:94 | sending bits one after another sends the digits of the concatenation |
| Serial.EncodeLineBytes | src/main.c:44-49 | a line is one digit per bit in order, each 48 or 49, then the carriage return 13 |
| Serial.DecodeEncode | src/main.c:44-49 | decoding an encoded line gives back the bits |
| Serial.EncodeDecode | src/main.c:44-49 | every line that decodes is the encoding of what it decodes to |
| Serial.DecodeDigitsOfDigits | src/main.c:44-48 | the digits of any bits decode back to those bits |
| Serial.DigitsOfDecodeDigits | src/main.c:44-48 | any digit string that decodes is the digits of its decoding |
| Serial.AlternatingLine | src/main.c:44-49 | the pattern true, false, … is reported as the text "1010101010\r" |
| Board.Emit | src/main.c:47-49 | the serial output of the emitted bytes is exactly those bytes, one event each |
| Board.OutputAppend | src/main.c:44-96 | the serial output of two traces back to back is the two outputs concatenated |
| Display.OnTime | src/main.c:52-65 | a long flash stays lit 1000 ms and a short one 250 ms |
| Display.Flash | src/main.c:56-67 | showing one bit sends nothing on the serial line |
| Display.Show | src/main.c:55-68 | showing a pattern takes four effects per bit and sends nothing on the serial line |
| Display.ShowFlashesInOrder | src/main.c:55-68 | the i-th group of four effects is LED on, the on-time of bit i, LED off, the 1000 ms gap |
| Display.ReadBackShow | src/main.c:55-68 | an observer of the LED always recovers the displayed pattern |
| Display.ShowReadBack | src/main.c:55-68 | whatever the observer reads was produced by showing exactly that pattern |
| Input.Contribution | src/main.c:88-94 | a press adds at most one bit, and adds none exactly when it is ignored |
| Input.RegisteredAppend | src/main.c:76-95 | the readings of two press streams back to back are the two readings concatenated |
| Input.RegisteredStep | src/main.c:78-93 | taking one more press appends its contribution to the readings |
| Input.CaptureFrom | src/main.c:76-95 | a finished capture holds ten bits and has used presses within the stream |
| Input.CaptureFromFills | src/main.c:76-95 | from any position, capture appends the readings of exactly the presses it consumes |
| Input.CaptureFromStops | src/main.c:88-91 | capture stops right after a press that registers |
| Input.Capture | src/main.c:76-95 | a finished capture holds ten bits taken from at least one press |
| Input.CaptureReadsFirstTen | src/main.c:76-95 | capture completes iff ten presses register; the user pattern is the readings of the first ten, in order; capture stops right after the tenth; an incomplete capture holds every reading |
| Input.IgnoredPressIsInvisible | src/main.c:78-93 | an ignored press inserted anywhere changes neither whether capture completes nor what it captures |
| Input.IgnoredPressAddsNothing | src/main.c:88-92 | an ignored press adds nothing to the readings |
| Input.PressEffect | src/main.c:81-94 | one press sends the digit of its reading if it registers and nothing otherwise |
| Input.PressEffects | src/main.c:76-95 | the capture sends the digits of the registered readings, in order |
| Input.AwaitRegistered | src/main.c:78-93 | the inner loop stops at the first press from its position on that registers, and returns that press's reading; it reports running out when no later press registers |
| Input.CapturePresses | src/main.c:76-95 | the nested capture loops complete iff ten presses register; they collect the first ten readings and stop right after the press that registers tenth |
| Compare.FirstMismatch | src/main.c:99-107 | the scan finds nothing iff the remaining positions agree; otherwise it gives the first position where they differ |
| Compare.WrongPattern | src/main.c:99-107 | `wrongPattern` stays 0 iff the user pattern equals the generated one |
| Compare.ComparePatterns | src/main.c:99-107 | the loop with `break` reports a mismatch iff the patterns differ |
| Compare.LastPositionMismatch | src/main.c:100-106 | a difference only at the last position is found there |
| Game.FailFlashes | src/main.c:116-122 | n flashes of 100 ms on and 100 ms off, one group of four effects each |
| Game.FailSignal | src/main.c:111-124 | the failure signal has nine effects and sends nothing on the serial line |
| Game.FailSignalShape | src/main.c:113-123 | the failure signal is exactly two 100/100 flashes and then a 1000 ms cooldown |
| Game.SuccessSignal | src/main.c:125-128 | on success the LED is switched on and nothing is sent |
| Game.Opening | src/main.c:39-68 | the opening has its fixed length: the start press, eleven bytes, and four effects per flash |
| Game.OpeningReportsThenShows | src/main.c:39-68 | a round starts with the start press; the generated line is everything the opening sends; the LED then shows the pattern |
| Game.Round | src/main.c:76-107 | a finished round has used at least one press and no more than exist |
| Game.RoundDecides | src/main.c:76-107 | a round finishes iff ten presses register; it then holds the first ten readings and is won iff they equal the generated pattern |
| Game.EffectsShape | src/main.c:96-129 | a round's effects begin with the opening; a lost round ends with the failure signal and a won round with the LED on |
| Game.EffectsOutput | src/main.c:44-96 | a round sends the opening's bytes, then the capture's, then a carriage return once capture finishes |
| Game.RoundOutput | src/main.c:44-96 | a finished round sends the generated line, then the captured line; a blocked round sends the generated line and the digits read so far |
| Game.RoundEffects | src/main.c:37-129 | every round starts with its opening; a lost round ends with the failure signal; a won round ends with the LED on |
| Game.Play | src/main.c:37-130 | at most one round per drawn pattern; a run waiting for a start press has played every pattern |
| Game.PlayLosesBeforeLast | src/main.c:111-130 | every round before the last was lost, and so were all rounds of a run still waiting |
| Game.PlayLastRound | src/main.c:125-130 | the last round of a won run was matched; that of a stuck run blocked |
| Game.LostRoundRestarts | src/main.c:111-124 | a lost round ends with the failure signal, and play goes on from the next pattern with the presses left over |
| Game.EndsLitAppend | src/main.c:127 | effects that end with the LED on still do so with anything placed before them |
| Game.WonRunEndsLit | src/main.c:125-129 | the effects of a won run end with the LED switched on |
| Game.WinIsFinal | src/main.c:125-130 | after a won round no further round is played: later patterns change neither the rounds nor the effects |
| Game.RegisteredOfBands | src/main.c:88-90 | presses held in the band of each bit read back as exactly those bits |
| Game.LastRegisters | src/main.c:88-91 | a press that registers adds one reading |
| Game.ReproducingCaptures | src/main.c:73-95 | presses held in the bands of a pattern are captured as that pattern after exactly ten presses |
| Game.ReproducingWins | src/main.c:52-129 | pressing in the bands of the generated pattern wins that round; it sends the same line twice; the loop ends and later presses are left alone |
| Game.TraceOfFirstWin | src/main.c:125-129 | when the first round is won, the run's effects are that round's effects |
| Game.DisplayLengthsReadBack | src/main.c:52-90 | holding the button as long as the LED was lit reproduces the bit |
| Game.Mimic | src/main.c:52-90 | presses held for the display's on-times reproduce the pattern, whatever the counter reads at each start |
| Game.MimicWins | src/main.c:37-129 | copying the display wins in one round for every pattern, and the serial line carries the generated line twice |

## Left out

- Hardware set-up is not modelled: `HAL_Init`, the GPIO clock enables, `SerialSetup(9600)` and `InitializePin` (lines 13-35). They decide nothing.
- Random numbers are not modelled: `srand(HAL_GetTick())` and `random() % 2` (lines 43-46). The drawn patterns are an input to `Game.Play`, one per round, and every pattern is allowed.
- Busy-wait loops on the button pin (lines 40, 81 and 85) are not modelled. A press is the pair of tick readings taken at its edges. The start press becomes the `StartPressed` event and carries no timing.
- Real time is not modelled: `HAL_Delay` is a `Delay(ms)` event, and `SysTick_Handler` (lines 135-139) only advances the counter that the press readings come from.
- Game.Play: the firmware loops forever. The model plays a finite list of drawn patterns, so a run can also end `Waiting`, after losing every drawn pattern.
- Game.Round: when the presses run out during capture, the firmware would wait for ever. The model ends that round as `Blocked`, and the run as `Stuck`.
- Input.PressEffect: the LED on and off of a press is recorded, but not the time between them. The held time lives in the press's tick readings.
- Game.Opening: the output's effects are recorded in program order, but the 9600-baud transmission time of each byte is not modelled.
