# LTC decoder model

A Dafny model of the linear timecode (SMPTE LTC) decoder in the `TimeCode`
panel of `TimecodeReader`. The panel gets captured audio one block at a
time, in `process`. Each block goes through four stages:

- The bytes become signed 16-bit samples (module `Pcm`).
- A biphase-mark demodulator watches the zero crossings of the samples. It
  tells a '0' from a '1' by comparing each interval between transitions with
  the previous one, and it swallows the transition in the middle of a '1'
  (module `Biphase`, with Java's `int` range and overflow in `JavaInt`).
- Every decoded bit is shifted into the 16-bit register `frameWord`, which
  is compared with the sync word `0xBFFC` after every bit. Between syncs,
  each run of 16 bits is stored in the next of four word slots. A sync hands
  the slots on only when all four were filled (module `Assembler`, with the
  register arithmetic in `Bits`).
- `decodeFrame` rejects four words whose units digits are not decimal.
  Otherwise it extracts the BCD time, six flag bits and eight user-bit hex
  digits (module `Frame`) and updates the frame-rate and drop-frame
  estimates (module `Estimator`). It then shows the time as `HH:MM:SS:FF`
  (`;` before the frames for drop frame) and, as the log setting asks,
  appends the time and/or the raw words to the log. The raw words are
  written with `toHex` (module `Hex`).

Module `Decoder` puts the stages together in two forms:

- `State`, `StepModel` and `Run` describe the effect of one sample, and of a
  sequence of samples, on values.
- The class `LtcDecoder` keeps the same state in fields and a four-slot
  `frame` array and updates them in place, as the Java fields are. Each of
  its methods is proved to do what the functions say.

Every stage has a partner that it is proved against:

- the demodulator against a biphase-mark modulator (`DemodulatesModulated`);
- the assembler against the 80-bit LTC frame layout (`SyncPayload`,
  `Resynchronises`);
- the frame decoder against an encoder, in both directions (`DecodeEncode`,
  `EncodeDecode`);
- the timecode text against its parser (`TimecodeTextReads`);
- `toHex` against hex parsing (`PaddedHex`);
- the estimates against counted and drop-frame timecode runs
  (`CountsFrames`, `DetectsDropFrame`, `NonDropKeepsFlag`).

Java's `>>` and `& (2^k - 1)` are written as Euclidean `/` and `%` by powers
of two. On two's-complement values the two agree, whatever the sign. `int`
overflow of the interval counters is written out with `Int32`.

## Model

| member | source | states |
|---|---|---|
| `Pcm.CombineIsSigned16` | src/TimecodeReader.java:194-203 | the high byte shifted left by 8 and combined with the low byte masked to 8 bits is in [-32768, 32767] and is the two's-complement reading of the byte pair |
| `Pcm.Samples` | src/TimecodeReader.java:192-203 | a block of bytes gives one sample per byte pair (its readings are stated by `SamplesAreReadings`) |
| `Pcm.SamplesAreReadings` | src/TimecodeReader.java:192-203 | sample k of a block is the two's-complement reading of bytes 2k, 2k+1 (big-endian) or 2k+1, 2k (little-endian) |
| `Pcm.LittleIsSwappedBig` | src/TimecodeReader.java:194-203 | the little-endian reading of a block is the big-endian reading of the block with every byte pair swapped |
| `Pcm.SamplesInRange` | src/TimecodeReader.java:192-203 | every sample of a block is a signed 16-bit value |
| `Pcm.ToSamples` | src/TimecodeReader.java:191-204 | the conversion loop fills a new array of `count / 2` samples, which are exactly `Samples` of the first `count` bytes |
| `Bits.Shift` | src/TimecodeReader.java:226-237 | `(frameWord >> 1)`, plus `0x8000` for a one, keeps a 16-bit register 16-bit; bit 15 of the result is the new bit and bits 14..0 are the old register's bits 15..1 |
| `Bits.WordOf` | src/TimecodeReader.java:224-237 | the register after any sequence of bits shifted into a cleared register stays in [0, 0xFFFF] |
| `Bits.ShiftBit` | src/TimecodeReader.java:224-237 | one shift puts the new bit in bit 15 and moves bits 15..1 to 14..0 |
| `Bits.WordOfBit` | src/TimecodeReader.java:224-237 | after the bits since the last clear, bit i of the register is the bit received 15 - i shifts ago, and clear when fewer bits arrived |
| `Bits.WordOfWindow` | src/TimecodeReader.java:224-237 | bits older than the last 16 do not affect the register |
| `JavaInt.Int32` | src/TimecodeReader.java:224-228 | Java `int` arithmetic: the result is a 32-bit value congruent to the exact one, and equal to it when that fits |
| `Biphase.IsTransition` | src/TimecodeReader.java:216-219 | a transition: the samples differ by more than 10 and lie on different sides of zero, `> 0` against `<= 0` |
| `Biphase.Classify` | src/TimecodeReader.java:224-240 | the bit of a transition that is not skipped; where nothing wraps, the shift thresholds mean: a '0' is an interval over 1.5 times the last, a '1' one under 0.75 times the last, otherwise the last bit repeats |
| `Biphase.DemodStep` | src/TimecodeReader.java:215-264 | one sample always becomes `lastSample`; it completes a bit exactly when it is a transition (the samples differ by more than 10 and lie on different sides of zero, `> 0` against `<= 0`) and `skipBit` is clear; a completed bit is `Classify` of the interval, the last interval and the last bit, and is also the new `bitValue` and the new `skipBit`; when no bit is completed (a skipped transition or no transition) `bitValue` is kept |
| `Biphase.DemodIntervals` | src/TimecodeReader.java:259-263 | every transition, skipped or not, sets `lastInterval := interval` and `interval := 0`; any other sample adds one to `interval` (as a Java `int`) and keeps both flags |
| `Biphase.DemodSkip` | src/TimecodeReader.java:220-222 | a transition with `skipBit` set yields no bit and clears the flag |
| `Biphase.DemodRun` | src/TimecodeReader.java:215-264 | the demodulator state after a block and the bits the block completed, in order; a block yields at most one bit per sample |
| `Biphase.DemodRunAppend` | src/TimecodeReader.java:215-265 | demodulating two runs of samples one after the other is demodulating their concatenation; the bits are concatenated |
| `Biphase.DemodulatesBit` | src/TimecodeReader.java:220-240 | the samples of one modulated bit take a locked demodulator to the next locked state and yield exactly that bit |
| `Biphase.DemodulatesModulated` | src/TimecodeReader.java:215-265 | a demodulator locked onto a biphase-mark signal recovers exactly the bits that were modulated |
| `Assembler.PushBit` | src/TimecodeReader.java:241-257 | one bit: a payload is handed on iff the shifted register is the sync word and `frameIndex == 4`, and it is the four slots; a sync clears register and counters; otherwise the register is shifted, the position advances by one modulo 80, `frameIndex` stays in [0, 4] and no other slot changes; the 16th bit of a word stores the shifted register in slot `frameIndex` and advances `frameIndex`, or, with all four slots full, leaves the slots alone and sets `frameIndex` to 0; any earlier bit leaves the slots alone |
| `Assembler.Feed` | src/TimecodeReader.java:241-257 | any sequence of bits keeps the register 16-bit, `bitCount` in [0, 15] and `frameIndex` in [0, 4] |
| `Assembler.Payloads` | src/TimecodeReader.java:241-257 | every payload handed on is four 16-bit words |
| `Assembler.AlignedStep` | src/TimecodeReader.java:241-257 | a bit that does not complete a sync keeps register, counters and filled slots aligned with the 16-bit groups of the bits received |
| `Assembler.FeedAligned` | src/TimecodeReader.java:241-257 | from a cleared assembler and without a sync, the register is the window on the bits received, the position counts them modulo 80 and slot k holds group k of the current cycle |
| `Assembler.SyncPayload` | src/TimecodeReader.java:242-249 | a sync clears register and counters, and hands on a payload exactly when at least 64 bits of the current cycle arrived; the payload is the cycle's four 16-bit groups |
| `Assembler.AlignedPayload` | src/TimecodeReader.java:242-247 | a sync after a full cycle hands on the four groups of that cycle, in order |
| `Assembler.Resynchronises` | src/TimecodeReader.java:241-257 | whatever the state, a sync followed by one LTC frame (64 data bits, the last 16 of at most 80 bits ending in the sync word) hands on exactly the frame's four data words |
| `Hex.HexString` | src/TimecodeReader.java:377-378 | `Integer.toHexString` of a natural number is a non-empty lower-case hex text |
| `Hex.ToHexString` | src/TimecodeReader.java:377-378 | `Integer.toHexString` of a Java `int` has 1 to 8 hex digits |
| `Hex.ParseHexString` | src/TimecodeReader.java:377-378 | the hex text of a number parses back to the number |
| `Hex.ParseZeros` | src/TimecodeReader.java:379-381 | zeros inserted at the front do not change the value of a hex text |
| `Hex.PaddedHex` | src/TimecodeReader.java:377-383 | the padded text has exactly 8 hex digits and parses back to the unsigned value of the `int` |
| `Hex.ToHex` | src/TimecodeReader.java:377-383 | the loop inserting `'0'` in front until the length is 8 returns `PaddedHex` of the value |
| `Frame.DecodeFields` | src/TimecodeReader.java:297-331 | no frame iff some word's units nibble (`& 0x0F`) exceeds 9; a decoded frame has decimal units, tens within their masks (frames and hours at most 3, seconds and minutes at most 7) and 8 lower-case hex user digits |
| `Frame.UserBitsText` | src/TimecodeReader.java:323-331 | the user-bit text is 8 lower-case hex digits (which nibble each one reads is stated by `DecodedNibble`) |
| `Frame.DecodedNibble` | src/TimecodeReader.java:322-331 | user digit i of a decoded frame is bits 15-12 (even i) or bits 7-4 (odd i) of word 3 - i / 2, so the text runs over words 3, 2, 1, 0 |
| `Frame.EncodeFields` | src/TimecodeReader.java:268-294 | the encoder of the bit map: four 16-bit words |
| `Frame.UserBitsEncoded` | src/TimecodeReader.java:322-331 | the user-bit text read from bits 15-12 and 7-4 of words 3, 2, 1 and 0 of an encoded frame is the frame's own user-bit text |
| `Frame.DecodeEncode` | src/TimecodeReader.java:296-331 | decoding the encoding of a well-formed frame gives that frame |
| `Frame.EncodeDecode` | src/TimecodeReader.java:296-331 | encoding a decoded frame gives back the four 16-bit words: the decoder reads every bit |
| `Frame.TimecodeText` | src/TimecodeReader.java:348-360 | the time text has exactly 11 characters |
| `Frame.TimecodeTextReads` | src/TimecodeReader.java:348-360 | the time text has the form `DD:DD:DD?DD` and reads back as hours, minutes, seconds and frame number, with `;` as separator exactly when the drop-frame bit 10 is set |
| `Frame.RawText` | src/TimecodeReader.java:369 | the raw-frame line is 36 characters: words 3, 2, 1, 0 each as 8 hex digits of their unsigned value, separated by `:` and ended by a newline |
| `Frame.RawFrameLine` | src/TimecodeReader.java:369 | building the line with `toHex` gives `RawText` |
| `Frame.LogEntry` | src/TimecodeReader.java:362-372 | "None" appends nothing and is the only setting that does; "Timecode" appends the time and a newline; "Raw Frame" the raw line; "TC + Raw Frame" the time, ` - ` and then the raw line (the case falls through) |
| `Frame.RecordName` | src/TimecodeReader.java:508 | the menu name of each log setting |
| `Frame.RecordSetting` | src/TimecodeReader.java:506-515 | a name of one of the three logging settings selects that setting; any other name, "None" included, selects the setting that logs nothing, as the switch at line 362 matches no case for it |
| `Frame.RecordNameRoundTrip` | src/TimecodeReader.java:506-515 | every setting stored under its menu name reads back as itself |
| `Estimator.Max` | src/TimecodeReader.java:347 | `Math.max`: the result is one of the two arguments and at least both |
| `Estimator.Observe` | src/TimecodeReader.java:333-347 | `lastFrame` becomes the frame number; `dropDetect` changes only on a frame 2 not preceded by frame 1, to `minutes % 10 != 0`; a report is made iff the seconds units changed, with `frameCount + 1` fps; the count restarts on that report and ends as the maximum with the frame number |
| `Estimator.ObserveBounds` | src/TimecodeReader.java:343-347 | for two-digit frame numbers the count stays in [0, 39] and every reported rate is in [1, 40] |
| `Estimator.ObserveAll` | src/TimecodeReader.java:333-347 | after a sequence of frames the last frame and last second are those of the newest frame |
| `Estimator.ObserveAllAppend` | src/TimecodeReader.java:333-347 | observing two sequences of frames one after the other is observing their concatenation; the reports are concatenated |
| `Estimator.WithinSecond` | src/TimecodeReader.java:340-347 | the frames of one second, entered from another, make exactly one report, of the previous count plus one, and leave the highest frame number of the second as the count |
| `Estimator.MeasuresRate` | src/TimecodeReader.java:340-347 | the first frame of the next second reports one more than the highest frame number of the second before |
| `Estimator.CountsFrames` | src/TimecodeReader.java:340-347 | a signal whose seconds hold frames 0 to n - 1 is reported as n fps |
| `Estimator.NonDropKeepsFlag` | src/TimecodeReader.java:334-337 | frames that never skip into frame 2 never change the drop-frame guess, and every report carries the old guess |
| `Estimator.DropFrameSkips` | src/TimecodeReader.java:334-337 | in 30-frame drop-frame counting, a skip into frame 2 happens only in a minute that is not a multiple of ten, and does happen at the start of every such minute |
| `Estimator.DropFrameKeepsFlag` | src/TimecodeReader.java:334-337 | once set, the drop-frame guess stays set for a drop-frame counter |
| `Estimator.DetectsDropFrame` | src/TimecodeReader.java:334-337 | a drop-frame counter crossing into a minute that is not a multiple of ten sets the guess, and it stays set for the rest of the run |
| `Estimator.DecimalText` | src/TimecodeReader.java:343 | `Integer.toString` of a natural number is a non-empty text of decimal digits |
| `Estimator.ParseDecimalText` | src/TimecodeReader.java:343 | the `Integer.toString` text of a natural number reads back as that number |
| `Estimator.IntText` | src/TimecodeReader.java:343 | `Integer.toString` of any `int`: a non-negative number is a non-empty run of decimal digits that reads back as it; a negative one is `-` followed by decimal digits that read back as its magnitude |
| `Estimator.RateText` | src/TimecodeReader.java:343 | the rate label starts with the rate in decimal, followed by ` fps` and by ` (drop frame)` exactly when the guess is drop frame |
| `Decoder.ObservePanel` | src/TimecodeReader.java:333-347 | the estimates see the frame: the last frame and last second become the frame's; the count stays in [0, 39]; the rate label changes only when the seconds units changed; display and log are untouched |
| `Decoder.ApplyFrame` | src/TimecodeReader.java:296-374 | a rejected frame changes nothing, estimates included; an accepted one is shown, is logged with the entry its setting asks for, and keeps the panel invariant |
| `Decoder.ShowsEncodedFrame` | src/TimecodeReader.java:296-331 | every frame the encoder produces is shown as that frame |
| `Decoder.ApplyAll` | src/TimecodeReader.java:296-374 | any sequence of frames keeps the panel invariant |
| `Decoder.TakeBit` | src/TimecodeReader.java:241-257 | a decoded bit keeps the assembler's ranges and the panel invariant |
| `Decoder.TakeSync` | src/TimecodeReader.java:242-249 | a bit completing the sync clears the assembler and decodes the slots iff all four are filled |
| `Decoder.TakeWord` | src/TimecodeReader.java:250-257 | any other bit moves only the assembler on; the panel is unchanged |
| `Decoder.StepModel` | src/TimecodeReader.java:215-265 | one sample keeps the assembler's ranges and the panel invariant |
| `Decoder.Run` | src/TimecodeReader.java:215-265 | a sequence of samples keeps the assembler's ranges and the panel invariant |
| `Decoder.RunSnoc` | src/TimecodeReader.java:215-265 | the samples with one more are the run followed by one step |
| `Decoder.RunFactors` | src/TimecodeReader.java:215-265 | the decoder is the three stages in a row: demodulator state, assembler state and panel after a run are those reached by demodulating the samples, feeding the bits to the assembler and decoding exactly the payloads it hands on |
| `Decoder.Initial` | src/TimecodeReader.java:47-101 | the state after construction keeps the invariant, and the frame it shows is the one four zero words decode to |
| `Decoder.InitialState` | src/TimecodeReader.java:97-100 | the frame shown after construction reads `00:00:00:00` |
| `Decoder.ConstructorDecode` | src/TimecodeReader.java:97-100 | decoding four zero words on the freshly zeroed panel gives the initial panel |
| `Decoder.LtcDecoder.constructor` | src/TimecodeReader.java:47-101 | the fields start at zero or false, the rate label at `--`, the log empty and set to "None"; then four zero words are decoded; the result is `Initial()`, and the four-slot `frame` array is new, so the decoder's own methods may update it |
| `Decoder.LtcDecoder.DecodeZeros` | src/TimecodeReader.java:100 | `decodeFrame(new int[4])` on the zeroed panel gives the initial panel |
| `Decoder.LtcDecoder.SelectInput` | src/TimecodeReader.java:112-115 | the chosen format becomes the format blocks are read in; the decoder state is unchanged |
| `Decoder.LtcDecoder.Restart` | src/TimecodeReader.java:167-169 | the start of the decoding thread clears `dropDetect`, `skipBit`, `bitValue` and `frameWord` and nothing else |
| `Decoder.LtcDecoder.DecodeFrame` | src/TimecodeReader.java:296-374 | the panel fields become `ApplyFrame` of the old panel and the four words |
| `Decoder.LtcDecoder.Show` | src/TimecodeReader.java:333-372 | once the digits are checked, the estimates observe the frame, the frame is shown and its log entry appended |
| `Decoder.LtcDecoder.Estimate` | src/TimecodeReader.java:333-347 | the estimate fields and the rate label become what `Observe` gives |
| `Decoder.LtcDecoder.SetRecord` | src/TimecodeReader.java:506-515 | choosing a setting from the Record menu, or reading the stored one at start-up, sets the log setting to `RecordSetting` of its name and changes nothing else |
| `Decoder.LtcDecoder.Record` | src/TimecodeReader.java:362-372 | the log gets exactly the entry `LogEntry` gives for the setting |
| `Decoder.LtcDecoder.Step` | src/TimecodeReader.java:215-265 | one loop iteration keeps the invariant and takes the fields to `StepModel` of the old state |
| `Decoder.LtcDecoder.DecodeBit` | src/TimecodeReader.java:223-257 | a transition that is not skipped classifies the bit, sets `bitValue` and `skipBit` to it, and takes assembler and panel to `TakeBit` |
| `Decoder.LtcDecoder.Demodulate` | src/TimecodeReader.java:224-239 | the bit is `Classify` of the intervals and the last bit; the register is shifted with it; `bitValue` and `skipBit` become it |
| `Decoder.LtcDecoder.Assemble` | src/TimecodeReader.java:241-257 | the sync test and the word store take assembler and panel to `TakeBit` of their state before the shift |
| `Decoder.Accepts` | src/TimecodeReader.java:191-205 | the conditions under which `process` gets through a block without an exception: a format is selected and is mono signed 16-bit PCM (`PCM_SIGNED`, one channel, two-byte frames), and `count` is -1 or an even number within the buffer (`Process` returns normally exactly when they hold) |
| `Decoder.LtcDecoder.Process` | src/TimecodeReader.java:190-266 | it returns normally iff a supported format is selected and `count` is -1 or an even number within the buffer; then the fields become `Run` of the old state over the samples of the first `count` bytes (none for -1); otherwise nothing changes |

## Left out

- The level meter (lines 207-213) is not modelled. It uses `double` arithmetic and does not affect decoding.
- Audio capture, the pipe between the capture and decoding threads, and the thread loop of `run` (lines 170-187) are not modelled. `Process` is called with each block as the loop would pass it.
- `Decoder.LtcDecoder.SelectInput` models only the format fields; the mixer port and volume control (lines 118-139) are foreign audio calls.
- Swing output is modelled by its effect, not its widgets:
  - the time label, the six flag check boxes and the user-bits label become the `shown` frame;
  - the rate label is a string field;
  - the log text area is a string field;
  - `repaint` (line 373) is left out.
- The menus, preference storage and file saving of the outer class are not modelled. The log setting (line 25) is a field of the decoder; `SetRecord` models how the menu action and the stored preference (lines 506-515) change it. The `recording` flag (lines 507, 517) is left out: nothing in the decoder reads it.
- The log setting is a free string in Java. `RecordMode` keeps the four named settings; any other stored string is read as `RecordNone`, which logs nothing, exactly as the switch does for an unknown string.
- `Decoder.LtcDecoder.Process` models an exception (an unsupported format or no format, a count below -1, an odd count, or one beyond the buffer) as `ok == false` with the state unchanged. In Java the exception ends the decoding thread. Lines 191-204 throw before any field is touched, so the state is unchanged in Java too.
- The frame-rate-dependent meaning of bits 27, 43 and 59 exists only in tooltips and comments (lines 72-78, 287-293). The code applies none, and neither does the model.
- The label texts the widgets have before the constructor's own `decodeFrame` call are not modelled. That call overwrites them.
- There is no single end-to-end lemma from modulated samples to a displayed frame. The three steps are each proved: `Biphase.DemodulatesModulated`, `Assembler.Resynchronises` and `Decoder.ShowsEncodedFrame`. `Decoder.RunFactors` composes the stages.

## Behaviour worth knowing

- A fifth 16-bit word between two syncs is not stored: `frameIndex` wraps to 0, and the next word overwrites slot 0 (`Assembler.PushBit`).
- `process` throws for an unsupported format (line 205). `run` catches only `IOException` (line 178), so the first throw ends the decoding thread until capture is restarted. The model returns `ok == false` with the state unchanged instead (see `Decoder.LtcDecoder.Process` under "## Left out").
