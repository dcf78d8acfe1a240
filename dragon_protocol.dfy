/**
 * The values behind the DragonStopMotion Arduino library: the constants of
 * its header, the serial-line parser as a step function on a parser
 * snapshot, and the debounced scan of one trigger pin.  The class in module
 * Dragon updates its fields and arrays in place and is proved to follow
 * these functions.
 */
module DragonProtocol {
  import opened Wrappers
  import opened Decimal

  /** Size of the pin-trigger table. */
  const PinCount := 16

  /** Pin command codes: what an activated pin asks the host to do. */
  const ShootCmd := 1
  const DeleteCmd := 2
  const PlayCmd := 3
  const LiveCmd := 4

  /** Message codes returned by the serial parser when a line completes. */
  const ShootMsg := 1
  const DeleteMsg := 2
  const PositionMsg := 3
  const CcMsg := 4

  /** Longest exposure name kept; the buffer holds one more byte for the NUL. */
  const ExpNameLength := 16

  /** An activation closer than this many milliseconds after the last one is ignored. */
  const DebounceMillis := 500

  /** Parser states. */
  const StateStart := 0
  const StateCh1 := 1
  const StatePreframe := 2
  const StateFrame := 3
  const StateExp := 4
  const StateExpName := 5
  const StateExpSter := 6

  const NUL: char := 0 as char

  predicate IsMessage(code: int) {
    code == ShootMsg || code == DeleteMsg || code == PositionMsg || code == CcMsg
  }

  predicate IsPinCommand(code: int) {
    code == ShootCmd || code == DeleteCmd || code == PlayCmd || code == LiveCmd
  }

  /** Every pin command code is nonzero, so a zero command marks an unused pin. */
  lemma PinCommandsNonzero(code: int)
    requires IsPinCommand(code)
    ensures code != 0
  {
  }

  /** The message codes are four distinct nonzero values, so zero means "no message". */
  lemma MessageCodesDistinct()
    ensures |{ShootMsg, DeleteMsg, PositionMsg, CcMsg}| == 4
    ensures !IsMessage(0)
  {
  }

  // ---------------------------------------------------------------------
  // The serial parser
  // ---------------------------------------------------------------------

  /** The fields that the parser reads and writes, with the name buffer as a sequence. */
  datatype Parser = Parser(
    serialState: int,
    serialNumber: int,
    serialLastValue: char,
    inCommand: int,
    commandFrame: int,
    commandExposure: int,
    commandExposureName: seq<char>,
    exposureNameIndex: int,
    commandStereoPosition: int)

  /**
   * Invariant of the parser fields: a known state, a 17-byte name buffer
   * whose index stays within the name length and always points at a NUL,
   * and a pending message that is zero or a message code.
   */
  ghost predicate Wf(p: Parser) {
    && StateStart <= p.serialState <= StateExpSter
    && |p.commandExposureName| == ExpNameLength + 1
    && 0 <= p.exposureNameIndex <= ExpNameLength
    && p.commandExposureName[p.exposureNameIndex] == NUL
    && (p.inCommand == 0 || IsMessage(p.inCommand))
  }

  /** The parser as the constructor leaves it (name buffer and index zero, as for a static object). */
  function InitialParser(): (p: Parser)
    ensures Wf(p) && p.serialState == StateStart
  {
    Parser(StateStart, 0, NUL, 0, 0, 0, seq(ExpNameLength + 1, _ => NUL), 0, 0)
  }

  /** One more decimal digit on the right of a number. */
  function Accumulate(n: int, digit: char): int
    requires IsDigit(digit)
  {
    10 * n + DigitValue(digit)
  }

  /** True when this byte ends a line: a '\n' right after a '\r'. */
  predicate EndsLine(p: Parser, b: char) {
    b == '\n' && p.serialLastValue == '\r'
  }

  /**
   * What the state dispatch does with a byte that does not end a line
   * (all fields but serialLastValue).
   */
  function Advance(p: Parser, b: char): (q: Parser)
    requires Wf(p)
    ensures Wf(q)
    ensures q.commandStereoPosition == p.commandStereoPosition
  {
    if p.serialState == StateStart then
      p.(inCommand := 0, commandFrame := 0, commandExposure := 0, exposureNameIndex := 0,
         commandExposureName := p.commandExposureName[0 := NUL], serialState := StateCh1)
    else if p.serialState == StateCh1 then
      if p.serialLastValue == 'S' && b == 'H' then
        p.(inCommand := ShootMsg, serialState := StatePreframe, serialNumber := 0)
      else if p.serialLastValue == 'D' && b == 'E' then
        p.(inCommand := DeleteMsg)
      else if p.serialLastValue == 'P' && b == 'F' then
        p.(inCommand := PositionMsg, serialState := StatePreframe, serialNumber := 0)
      else if p.serialLastValue == 'C' && b == 'C' then
        p.(inCommand := CcMsg, serialState := StatePreframe, serialNumber := 0)
      else
        p.(serialState := StateStart)
    else if p.serialState == StatePreframe then
      if b == ' ' then p.(serialState := StateFrame)
      else p.(inCommand := 0, serialState := StateStart)
    else if p.serialState == StateFrame then
      if b == ' ' then p.(serialState := StateExp, commandFrame := p.serialNumber, serialNumber := 0)
      else if IsDigit(b) then p.(serialNumber := Accumulate(p.serialNumber, b))
      else p
    else if p.serialState == StateExp then
      if b == ' ' then p.(serialState := StateExpName, commandExposure := p.serialNumber, serialNumber := 0)
      else if IsDigit(b) then p.(serialNumber := Accumulate(p.serialNumber, b))
      else p
    else if p.serialState == StateExpName then
      if b == ' ' then p.(serialState := StateExpSter, serialNumber := 0)
      else if p.exposureNameIndex < ExpNameLength then
        var i := p.exposureNameIndex;
        p.(commandExposureName := p.commandExposureName[i := b][i + 1 := NUL], exposureNameIndex := i + 1)
      else p
    else if p.serialState == StateExpSter then
      if IsDigit(b) then p.(serialNumber := Accumulate(p.serialNumber, b))
      else p
    else p
  }

  /**
   * One received byte: the new parser fields and the value processSerial
   * returns.  Only a '\n' right after '\r' returns something other than 0;
   * it returns the pending message, goes back to the start state, takes the
   * stereo index if one was being read, and leaves serialLastValue alone.
   */
  function Step(p: Parser, b: char): (r: (Parser, int))
    requires Wf(p)
    ensures Wf(r.0)
    ensures r.1 != 0 ==> EndsLine(p, b) && IsMessage(r.1)
    ensures EndsLine(p, b) ==>
      && r.1 == p.inCommand
      && r.0 == p.(serialState := StateStart,
                   commandStereoPosition := if p.serialState == StateExpSter then p.serialNumber
                                            else p.commandStereoPosition)
    ensures !EndsLine(p, b) ==> r.0.serialLastValue == b
  {
    if EndsLine(p, b) then
      var stereo := if p.serialState == StateExpSter then p.serialNumber else p.commandStereoPosition;
      (p.(serialState := StateStart, commandStereoPosition := stereo), p.inCommand)
    else
      (Advance(p, b).(serialLastValue := b), 0)
  }

  /** The parser after a run of bytes, each handed to processSerial in turn. */
  function Run(p: Parser, bs: string): (q: Parser)
    requires Wf(p)
    ensures Wf(q)
    decreases |bs|
  {
    if bs == [] then p else Step(Run(p, bs[..|bs| - 1]), bs[|bs| - 1]).0
  }

  /** The exposure name as a C string: the bytes before the first NUL. */
  function CString(buf: seq<char>): (s: seq<char>)
    ensures |s| <= |buf| && s == buf[..|s|] && NUL !in s
    ensures |s| < |buf| ==> buf[|s|] == NUL
  {
    if buf == [] || buf[0] == NUL then [] else [buf[0]] + CString(buf[1..])
  }

  // ---------------------------------------------------------------------
  // The pin-trigger table
  // ---------------------------------------------------------------------

  /** One entry of the pin-trigger table. */
  datatype PinRow = PinRow(command: int, logicActive: int, arg: int, value: int, lastActivation: nat)

  const UnusedPin := PinRow(0, 0, 0, 0, 0)

  /** A new activation this soon after the last one (and strictly after it) is a bounce. */
  predicate Suppressed(now: nat, last: nat) {
    now > last && now - last < DebounceMillis
  }

  /** The line printed for a pin command: "S <arg>", "D", "P" or "L", or nothing. */
  function Emission(command: int, arg: int): (s: string)
    ensures s != [] <==> IsPinCommand(command)
  {
    if command == ShootCmd then "S " + IntToString(arg) + "\r\n"
    else if command == DeleteCmd then "D\r\n"
    else if command == PlayCmd then "P\r\n"
    else if command == LiveCmd then "L\r\n"
    else ""
  }

  /**
   * What a pin command prints is exactly one line: it ends in "\r\n" and has
   * no other line break; the shoot line carries the pin's argument in
   * decimal after "S ".
   */
  lemma EmissionIsOneLine(command: int, arg: int)
    requires IsPinCommand(command)
    ensures var s := Emission(command, arg);
      && 3 <= |s| && s[|s| - 2..] == "\r\n"
      && '\r' !in s[..|s| - 2] && '\n' !in s[..|s| - 2]
      && (command == ShootCmd ==> s[..2] == "S " && ParseInt(s[2..|s| - 2]) == Some(arg))
  {
    if command == ShootCmd {
      var s := Emission(command, arg);
      IntToStringHasNoSeparator(arg);
      assert s[2..|s| - 2] == IntToString(arg);
      assert s[..|s| - 2] == "S " + IntToString(arg);
      IntToStringRoundTrip(arg);
    }
  }

  /**
   * A used pin whose reading changed to its active level, and not within the
   * debounce window of its last activation.
   */
  predicate Activates(row: PinRow, reading: int, now: nat) {
    row.command != 0 && reading != row.value && reading == row.logicActive
    && !Suppressed(now, row.lastActivation)
  }

  /**
   * The table entry of one pin after the scan, given its reading and the
   * clock.  An unused pin is left alone; a used pin always records its
   * reading; exactly the activations that are not bounces stamp the time.
   */
  function ScanEntry(row: PinRow, reading: int, now: nat): (r: PinRow)
    ensures r.command == row.command && r.logicActive == row.logicActive && r.arg == row.arg
    ensures row.command == 0 ==> r == row
    ensures row.command != 0 ==> r.value == reading
    ensures r.lastActivation == if Activates(row, reading, now) then now else row.lastActivation
  {
    if row.command == 0 || reading == row.value then row
    else if reading != row.logicActive then row.(value := reading)
    else if Suppressed(now, row.lastActivation) then row.(value := reading)
    else row.(value := reading, lastActivation := now)
  }

  /** What one pin prints during the scan: its line exactly when it activates. */
  function ScanLine(row: PinRow, reading: int, now: nat): string
  {
    if Activates(row, reading, now) then Emission(row.command, row.arg) else ""
  }

  /** The table built from its five parallel per-pin arrays. */
  function TableRows(command: seq<int>, logicActive: seq<int>, arg: seq<int>, value: seq<int>,
                     lastActivation: seq<nat>): (rows: seq<PinRow>)
    requires |logicActive| == |arg| == |value| == |lastActivation| == |command|
    ensures |rows| == |command|
    ensures forall pin :: 0 <= pin < |command| ==>
      rows[pin] == PinRow(command[pin], logicActive[pin], arg[pin], value[pin], lastActivation[pin])
  {
    seq(|command|, pin requires 0 <= pin < |command| =>
      PinRow(command[pin], logicActive[pin], arg[pin], value[pin], lastActivation[pin]))
  }

  /** The table after a full scan. */
  function ScanRows(rows: seq<PinRow>, readings: seq<int>, now: nat): (r: seq<PinRow>)
    requires |readings| == |rows|
    ensures |r| == |rows|
  {
    seq(|rows|, i requires 0 <= i < |rows| => ScanEntry(rows[i], readings[i], now))
  }

  /** Everything printed by the first n pins of a scan, in pin order. */
  function ScanText(rows: seq<PinRow>, readings: seq<int>, now: nat, n: nat): string
    requires n <= |rows| == |readings|
  {
    if n == 0 then "" else ScanText(rows, readings, now, n - 1) + ScanLine(rows[n - 1], readings[n - 1], now)
  }
}
