# Dragon Stop Motion trigger library and stepper tester, in Dafny

This project models two small pieces of serial-protocol logic.

- **The DragonStopMotion Arduino library.** It holds a table of up to 16
  trigger pins. Each pass of `processPins` scans the table with a 500 ms
  debounce. When a pin goes to its active level, the library prints a
  one-line command for Dragon Stop Motion: `S <n>`, `D`, `P` or `L`.
  `processSerial` is a parser with seven states. It takes one byte per call
  and reads the host's `SH`, `DE`, `PF` and `CC` lines. It stores the frame
  number, the exposure number, the exposure name (at most 16 bytes, kept
  NUL-terminated) and the stereo index.
  - `Dragon.DragonStopMotion` is a class. Its fields and arrays are those of
    the C++ object, and its methods update them in place.
  - Each method is proved against value-level functions in
    `DragonProtocol`. `Step`/`Advance` cover the parser and
    `ScanEntry`/`ScanLine` cover the pin scan.
  - `DragonProperties` proves what those functions do over whole inputs.
- **The Python stepper tester.** `stepperAxis` remembers a commanded
  position and the last position it sent. `update` sends a
  `GO <axis> <target> <distance>` line only when the two differ.
  `getMessage` and `flushSerial` frame replies: the first by newline, the
  second by the `ACK ALIVE` suffix. `readPosition` asks for the position.
  The `motion_test.py` script drives one axis 32 times out and back and
  takes a picture after each pass.
  - The serial port is `SerialPort.Port`, a class. It holds the bytes the
    device will still send and a log of every write.
  - `Stepper.StepperAxis` is a class with the three fields of the Python
    object.
  - `MotionTest.RunScript` runs the script. It is proved to produce exactly
    the writes in `ScriptWrites(32)` and the pictures in `ScriptShots(32)`.

Supporting modules:

- `Decimal` covers decimal text: `str()` of an integer, and reading digits
  back.
- `PyText` covers the Python 2 string behaviour the client uses: slices,
  `endswith`, `int()` and `'%010d'`. The client never calls `strip`. The
  whitespace trimming in `PyText` (`TrimLeft`, `TrimRight`) models the
  whitespace that `int()` skips around the text and after the sign.
- `Wrappers` defines `Option`.

Inputs from outside the program become parameters:

- `digitalRead` is a sequence of 16 readings.
- `millis()` is a number `now`.
- `port.available()`/`port.read()` is an `Option<char>`.
- `port.print` appends to the `sent` field.
- On the Python side, a read that times out is a device that has nothing left to send.

## Model

| member | source | states |
|---|---|---|
| DragonProtocol.PinCommandsNonzero | DragonStopMotion/DragonStopMotion.h:22-25 | Every pin command code is nonzero, so a zero `command` entry marks an unused pin |
| DragonProtocol.MessageCodesDistinct | DragonStopMotion/DragonStopMotion.h:27-30 | The four message codes are distinct and none is 0, so 0 from processSerial means no message |
| DragonProtocol.InitialParser | DragonStopMotion/DragonStopMotion.cpp:33-40 | The parser fields as constructed satisfy the parser invariant and are in the start state |
| DragonProtocol.Advance | DragonStopMotion/DragonStopMotion.cpp:161-256 | The state dispatch for a byte that does not end a line keeps the invariant: a known state, a 17-byte name buffer, an index of at most 16 that points at a NUL, and a pending message that is 0 or a message code. It leaves the stereo index alone |
| DragonProtocol.Step | DragonStopMotion/DragonStopMotion.cpp:145-261 | One byte keeps the invariant. A nonzero result happens only on '\n' right after '\r' and is a message code. That line end returns the pending message, goes back to the start state, takes the stereo number only from the stereo state, and does not record the '\n' as the last value. Any other byte becomes the last value |
| DragonProtocol.Run | DragonStopMotion/DragonStopMotion.cpp:145-261 | Any run of bytes keeps the parser invariant |
| DragonProtocol.CString | DragonStopMotion/DragonStopMotion.h:57 | The exposure name read as a C string is a NUL-free prefix of the buffer, followed by a NUL when shorter than the buffer |
| DragonProtocol.Emission | DragonStopMotion/DragonStopMotion.cpp:121-138 | A command prints something exactly when it is one of the four pin command codes |
| DragonProtocol.EmissionIsOneLine | DragonStopMotion/DragonStopMotion.cpp:70-91 | Each pin command prints exactly one "\r\n"-terminated line with no other line break. The shoot line is "S " followed by the argument in decimal, and it reads back as that argument |
| DragonProtocol.ScanEntry | DragonStopMotion/DragonStopMotion.cpp:104-120 | An unused pin's entry is untouched. A used pin always records its reading, even when the activation is suppressed. lastActivation becomes `now` exactly for an activation outside the debounce window. Command, level and argument never change |
| Dragon.DragonStopMotion.constructor | DragonStopMotion/DragonStopMotion.cpp:20-41 | The five per-pin arrays have 16 entries, are distinct and are all zero. The parser is in its initial state. Nothing has been printed |
| Dragon.DragonStopMotion.ActivatePin | DragonStopMotion/DragonStopMotion.cpp:43-46 | Same as the four-argument form, with argument 0 |
| Dragon.DragonStopMotion.ActivatePinWithArg | DragonStopMotion/DragonStopMotion.cpp:48-60 | A pin inside the table gets the command, the argument, the active level and the current reading, and keeps its last activation time. Every other pin is unchanged. A pin outside [0, 16) changes nothing |
| Dragon.DragonStopMotion.DeactivatePin | DragonStopMotion/DragonStopMotion.cpp:62-68 | Only the pin's command becomes 0. Its level, argument, value and activation time stay, and so does every other pin. A pin outside [0, 16) changes nothing |
| Dragon.DragonStopMotion.ShootFrame | DragonStopMotion/DragonStopMotion.cpp:70-75 | Prints "S <frames>\r\n" |
| Dragon.DragonStopMotion.DeleteFrame | DragonStopMotion/DragonStopMotion.cpp:77-80 | Prints "D\r\n" |
| Dragon.DragonStopMotion.TogglePlay | DragonStopMotion/DragonStopMotion.cpp:82-85 | Prints "P\r\n" |
| Dragon.DragonStopMotion.GoToLive | DragonStopMotion/DragonStopMotion.cpp:88-91 | Prints "L\r\n" |
| Dragon.DragonStopMotion.ProcessPins | DragonStopMotion/DragonStopMotion.cpp:94-143 | Each table entry becomes ScanEntry of its old self. The printed text is the lines of the activating pins, in pin order. The object invariant is kept |
| Dragon.DragonStopMotion.ScanPin | DragonStopMotion/DragonStopMotion.cpp:104-141 | The loop body for one pin: that pin's entry becomes ScanEntry of the old one and the rest of the table is unchanged. It prints that pin's line exactly when the pin activates |
| Dragon.DragonStopMotion.ProcessSerial | DragonStopMotion/DragonStopMotion.cpp:145-261 | With no byte available it returns 0 and no parser field changes. Otherwise the fields and the result are those of Step. The invariant is kept, so every name write stays inside the 17-byte buffer |
| Dragon.DragonStopMotion.Dispatch | DragonStopMotion/DragonStopMotion.cpp:161-258 | The in-place state dispatch leaves the fields that Advance computes |
| DragonProperties.NoNewlineReturnsZeros | DragonStopMotion/DragonStopMotion.cpp:151-160 | Bytes without a '\n' make processSerial return 0 for every one of them |
| DragonProperties.OtherBytesIgnored | DragonStopMotion/DragonStopMotion.cpp:210-256 | In the frame, exposure and stereo states, a byte that is neither a digit nor a field-ending space only becomes the last value |
| DragonProperties.DigitsRun | DragonStopMotion/DragonStopMotion.cpp:218-221 | Digits read in a number state, from 0, accumulate to their decimal value by `10*n + digit` |
| DragonProperties.NameRun | DragonStopMotion/DragonStopMotion.cpp:243-248 | Name bytes keep their first 16 bytes, NUL-terminated, with the index at min(length, 16). Nothing else changes except the last value |
| DragonProperties.PrefixSteps | DragonStopMotion/DragonStopMotion.cpp:161-203 | From the start state, "SH ", "PF " or "CC " takes the parser through CH1 and PREFRAME to the frame state, with the message code pending and the fields cleared |
| DragonProperties.HeadRead | DragonStopMotion/DragonStopMotion.cpp:161-203 | The same three bytes as one run |
| DragonProperties.SpaceEndsNumber | DragonStopMotion/DragonStopMotion.cpp:210-230 | A space in the frame or exposure state stores the number and moves to the next field |
| DragonProperties.FieldRead | DragonStopMotion/DragonStopMotion.cpp:210-235 | A frame or exposure number followed by a space is stored as its decimal value |
| DragonProperties.SpaceEndsName | DragonStopMotion/DragonStopMotion.cpp:238-242 | A space ends the name and starts the stereo index at 0 |
| DragonProperties.NameFieldRead | DragonStopMotion/DragonStopMotion.cpp:236-249 | A name followed by a space keeps its first 16 bytes and starts the stereo index |
| DragonProperties.LineEndStep | DragonStopMotion/DragonStopMotion.cpp:151-160 | Restates the line-end clause of `Step`'s contract as one equation, for use in the proofs of whole lines: '\n' after '\r' returns the pending message, goes back to the start state and takes the stereo number only from the stereo state |
| DragonProperties.StereoRead | DragonStopMotion/DragonStopMotion.cpp:250-258 | The stereo digits and the '\r' leave the stereo value pending in the stereo state |
| DragonProperties.MessageLineRead | DragonStopMotion/DragonStopMotion.cpp:145-261 | "SH/PF/CC <frame> <exposure> <name> <stereo>\r\n" from the start state returns 0 for every byte before the final '\n'. That '\n' returns the message's code with frame, exposure and stereo stored, and the first 16 name bytes NUL-terminated |
| DragonProperties.CStringUpTo | DragonStopMotion/DragonStopMotion.h:57 | A name buffer whose first NUL is at index k reads, as a C string, as exactly the k bytes before it |
| DragonProperties.MessageNameRead | DragonStopMotion/DragonStopMotion.cpp:236-249 | After a framed line, `commandExposureName` read as a C string is the name the host sent (with no NUL in it), cut to its first 16 bytes |
| DragonProperties.DeleteLineRead | DragonStopMotion/DragonStopMotion.cpp:179-182 | "DE\r\n" returns 0, 0, 0 and then the delete message |
| DragonProperties.DeleteWithNumberLost | DragonStopMotion/DragonStopMotion.cpp:161-198 | "DE <digit>\r\n" returns only zeros: the space after "DE" falls back to the start state, and the next byte clears the message |
| DragonProperties.UnknownPrefixDropped | DragonStopMotion/DragonStopMotion.cpp:195-198 | Two bytes that are no known prefix go back to the start state with no message, whatever the second byte is, '\n' included (after a first byte '\r' the '\n' does end the line, but the first byte has already cleared the message, so it returns 0) |
| DragonProperties.NonSpaceAfterPrefixCancels | DragonStopMotion/DragonStopMotion.cpp:204-208 | Any non-space byte after a framed prefix, '\n' included, clears the pending message and goes back to the start state |
| DragonProperties.SecondNewlineRepeats | DragonStopMotion/DragonStopMotion.cpp:151-160 | The line end does not record '\n' as the last value, so a second '\n' returns the same message again |
| DragonProperties.UnusedTableSilent | DragonStopMotion/DragonStopMotion.cpp:104 | A table with no used pin prints nothing |
| DragonProperties.HeldReadingsSilent | DragonStopMotion/DragonStopMotion.cpp:106-109 | Repeating the same readings on the next scan prints nothing, at any time: only edges fire |
| DragonProperties.BounceSuppressed | DragonStopMotion/DragonStopMotion.cpp:110-120 | After an activation at `now`, another activation strictly within 500 ms prints nothing and keeps the activation time |
| SerialPort.Port.constructor | tester/motion_test.py:14 | An opened port has the device's whole reply ahead and nothing written |
| SerialPort.Port.Write | tester/StepperAxis.py:24 | `ser.write` appends one entry to the write log |
| SerialPort.Port.Read | tester/StepperAxis.py:10 | `ser.read` takes the next byte, or "" once the device has nothing more to send, and loses no input |
| Stepper.ReadUntil | tester/StepperAxis.py:30-36 | The read loop stops at the shortest prefix that ends with the suffix, returning it, or it returns everything when no prefix does. The remaining input is what follows |
| Stepper.FirstEnding | tester/StepperAxis.py:33-36 | The length found ends with the suffix and no shorter prefix does. None means no prefix does |
| Stepper.FirstEndingUnique | tester/StepperAxis.py:33-36 | A prefix that ends with the suffix, with no shorter one that does, is the one found |
| Stepper.GetMessage | tester/StepperAxis.py:5-17 | Returns the input up to and including the first '\n', or "Error" when none arrives. It consumes exactly that line |
| Stepper.FirstNewline | tester/StepperAxis.py:9-15 | The line found ends at a '\n' with no earlier '\n', in both directions. None is found exactly when the input has no '\n' |
| Stepper.ReplyOfLine | tester/StepperAxis.py:5-17 | A line and whatever follows: getMessage returns exactly the line and leaves the rest |
| Stepper.FlushSerial | tester/StepperAxis.py:19-39 | Writes "\n" and then "ALIVE\n". It reads up to the first "ACK ALIVE\n" and succeeds exactly when one arrives |
| Stepper.AckFoundIffSent | tester/StepperAxis.py:33-39 | flushSerial succeeds exactly when "ACK ALIVE\n" occurs somewhere in what the device sends |
| Stepper.GoCommand | tester/StepperAxis.py:51 | A GO line starts with "GO " and ends with '\n' |
| Stepper.GoCommandRoundTrip | tester/StepperAxis.py:51 | A GO line reads back, under an independent parser, as exactly the axis, target and distance it was built from |
| Stepper.UpdateWritesGo | tester/StepperAxis.py:49-52 | update writes one line exactly when the positions differ, and none when they are equal. That line carries the axis, the new target and the distance, which is nonzero |
| Stepper.StepperAxis.constructor | tester/StepperAxis.py:43-46 | A new axis has the given number and both positions 0 |
| Stepper.StepperAxis.Update | tester/StepperAxis.py:49-52 | Writes the GO line for the move when the positions differ, and nothing otherwise. Afterwards the last position equals the current one, so a second update writes nothing |
| Stepper.StepperAxis.MoveRelative | tester/StepperAxis.py:54-55 | Adds the counts to the commanded position. The last sent position and the port are untouched |
| Stepper.StepperAxis.MoveAbsolute | tester/StepperAxis.py:57-58 | Sets the commanded position. The last sent position and the port are untouched |
| Stepper.StepperAxis.GetPosition | tester/StepperAxis.py:60-61 | Returns the commanded position, not a device reading |
| Stepper.StepperAxis.ReadPosition | tester/StepperAxis.py:63-70 | As written: flushes, asks "GET POS <axis>" only after a successful flush, and reads one reply line. The commanded position never changes |
| Stepper.PositionHeader | tester/StepperAxis.py:69 | The text compared with is at least 13 characters long |
| Stepper.PositionCompareNeverHolds | tester/StepperAxis.py:69 | A 12-character slice of any reply differs from "ACK GET POS <axis>", so the parse on line 70 is dead |
| Stepper.ReplyIgnoredExample | tester/StepperAxis.py:69-70 | The reply "ACK GET POS 0 1234\n" fails the comparison as written, yet the intended reading gives 1234 |
| Stepper.PositionReplyRoundTrip | tester/StepperAxis.py:69-70 | The intended reading recovers any position from the reply line "ACK GET POS <axis> <position>\n" |
| Stepper.AckAliveFirst | tester/StepperAxis.py:33-36 | A device reply that starts with "ACK ALIVE\n" is found after those ten bytes, and the rest is left unread |
| Stepper.IntendedReadsPosition | tester/StepperAxis.py:63-70 | A device that acknowledges the flush and reports a position makes the intended readPosition take that position |
| Stepper.StepperAxis.ReadPositionIntended | tester/StepperAxis.py:63-70 | The corrected readPosition does the same exchange, and its commanded position is the one the reply reports, if it reads as one |
| PyText.SliceTo | tester/StepperAxis.py:69 | `s[:n]` is a prefix of s with length min(n, len(s)) |
| PyText.SliceFrom | tester/StepperAxis.py:70 | `s[:n] + s[n:]` is s |
| PyText.TrimLeft | tester/StepperAxis.py:70 | The leading whitespace `int()` skips: exactly a whitespace prefix is removed, and the rest does not start with whitespace |
| PyText.TrimRight | tester/StepperAxis.py:70 | The trailing whitespace `int()` skips: exactly a whitespace suffix is removed, and the rest does not end with whitespace |
| PyText.PyIntSpaceAfterSign | tester/StepperAxis.py:70 | `int()` also skips whitespace between the sign and the digits: `int("- 5")` is -5 and `int("+ 5")` is 5 |
| PyText.PyIntOfStr | tester/StepperAxis.py:70 | `int()` reads back what `str()` of an integer wrote, whatever whitespace surrounds it |
| PyText.Format010dRoundTrip | tester/motion_test.py:29 | `'%010d' % n` for 0 <= n < 10^10 is ten digits whose value is n |
| Decimal.IntToStringRoundTrip | tester/StepperAxis.py:51 | `str()` of an integer reads back as that integer |
| Decimal.NatToStringDigits | tester/StepperAxis.py:51 | `str()` of a natural number is all digits, has no leading zero, and has the number's value |
| Decimal.IntToStringHasNoSeparator | tester/StepperAxis.py:51 | `str()` of an integer holds no space and no line break, so GO fields stay separated |
| MotionTest.Camera.Capture | tester/motion_test.py:20 | Appends one picture with its name, stamped with the number of writes so far |
| MotionTest.RunScript | tester/motion_test.py:14-29 | The whole script writes exactly ScriptWrites(32) and takes exactly the pictures ScriptShots(32). The axis ends with both positions 0 |
| MotionTest.WritesStep | tester/motion_test.py:22-27 | One iteration appends exactly what its two updates write |
| MotionTest.ShotsStep | tester/motion_test.py:29 | One iteration appends its picture, taken after 2(i+1) writes |
| MotionTest.WholeRunCounts | tester/motion_test.py:21-29 | 64 GO writes and 33 pictures in all |
| MotionTest.ScriptWritesAt | tester/motion_test.py:21-27 | Restates `ScriptWrites` at one iteration: iteration i writes "GO 0 4000 4000\n" as write 2i and "GO 0 0 4000\n" as write 2i+1 |
| MotionTest.ScriptShotsAt | tester/motion_test.py:20-29 | The first picture is "0000000000.jpg", taken before any write. The picture of iteration i is `'%010d.jpg' % i`, taken after that iteration's two writes |
| MotionTest.FirstNameReused | tester/motion_test.py:20-29 | Iteration 0's picture has the same name as the starting picture |
| MotionTest.LoopNamesDistinct | tester/motion_test.py:29 | Pictures of different iterations have different names |
| MotionTest.CaptureNamesDistinct | tester/motion_test.py:29 | `'%010d.jpg'` names of different numbers below 10^10 differ |
| MotionTest.IterationText | tester/motion_test.py:22-27 | The two GO lines of an iteration, with the axis at 0 and a stroke of 4000, are "GO 0 4000 4000\n" and "GO 0 0 4000\n" |
| MotionTest.UpdateText | tester/motion_test.py:22-27 | update writes just "GO 0 4000 4000\n" going out and just "GO 0 0 4000\n" coming back |
| MotionTest.FirstNameText | tester/motion_test.py:16-20 | The picture taken at position 0 is named "0000000000.jpg" |

## Left out

- Wall-clock time is not modelled. The ten-second timeouts of `getMessage` and `flushSerial` become a device with nothing more to send: a read then gives "". The `time.sleep(25)` calls of `motion_test.py` are dropped.
- Bytes are modelled as `char`. `port.read()` and Python 2 `str` give bytes, but every comparison in the code is against ASCII.
- Arduino I/O is replaced by parameters and a log. `pinMode` is not modelled. `digitalRead` is a reading per pin, `millis()` is `now`, `port.available()`/`port.read()` is an optional byte, and `port.print` appends to `sent`.
- Machine integers are unbounded. The 16-bit `int` overflow of `serialNumber`, `arg` and the frame fields on AVR is not modelled, and neither is the `unsigned long` wrap-around of `millis()`.
- Dragon.DragonStopMotion.constructor: it also zeroes `exposureNameIndex` and the name buffer, which the C++ constructor leaves unset. The C++ does not need this. The constructor sets `serialState` to the start state and `serialLastValue` to 0 (DragonStopMotion.cpp:33, 35), so the first byte cannot end a line (line 151) and takes the start-state branch. That branch sets `exposureNameIndex` to 0 and `commandExposureName[0]` to NUL (lines 166-167) before any name byte is written (lines 245-247). Read as a C string, the name therefore matches the C++ from the first byte on. What still differs is the bytes after its NUL that no name has written: they stay zero in the model but hold whatever the object's storage held in the C++. Before the first byte, the whole buffer and `exposureNameIndex` differ as well. The zero-fill lets the buffer invariant hold from construction.
- Stepper.FlushSerial: a timeout reaches `self.fail`, which in a module-level function raises NameError. Here it returns `ok = false`, and `ReadPosition` stops there, as the exception would stop it.
- The camera (`CameraController.py`: libgphoto2 calls and file output) is not part of this model. A capture only appends the file name to a log.
- MotionTest.Camera.Capture: each picture is stamped with the number of serial writes so far. That stamp is what "after the iteration's two writes" means here.
- `interface_test.py`, `control_gui.py`, `python_client.py`, `gen_soa.py`, `commands.h`, `stepper.h` and `CameraController.py` are not part of this model. They are hardware tests, user interfaces, floating-point file generation, and declarations without bodies.

## Findings

| source | as written | input that shows it | evidently intended | confidence | as-written member | corrected member |
|---|---|---|---|---|---|---|
| tester/StepperAxis.py:69-70 | `message[:12]` is compared with `"ACK GET POS " + str(self.axis)`, which has at least 13 characters, so the test never holds. `currentPosition` is never updated | The device answers the flush with "ACK ALIVE\n" and then sends "ACK GET POS 0 1234\n" | Compare the reply's first `len("ACK GET POS <axis>")` characters, then set `currentPosition` to the integer after them | not executed | Stepper.StepperAxis.ReadPosition (with Stepper.PositionCompareNeverHolds and Stepper.ReplyIgnoredExample) | Stepper.StepperAxis.ReadPositionIntended (with Stepper.IntendedReadsPosition and Stepper.PositionReplyRoundTrip) |
