/**
 * The DragonStopMotion object: a table of up to 16 trigger pins scanned with
 * a debounce, and a byte-at-a-time parser for the lines the host sends.
 * The hardware calls become inputs: `digitalRead` is a reading per pin,
 * `millis` the number `now`, `port.available`/`port.read` an optional byte,
 * and everything `port.print` sends is appended to `sent`.
 */
module Dragon {
  import opened Wrappers
  import opened Decimal
  import opened DragonProtocol

  class DragonStopMotion {
    // The pin-trigger table, one entry per pin number.
    var command: array<int>
    var logicActive: array<int>
    var arg: array<int>
    var value: array<int>
    var lastActivation: array<nat>

    // The serial parser.
    var inCommand: int
    var serialState: int
    var serialNumber: int
    var serialLastValue: char
    var exposureNameIndex: int

    // The last message's fields, read by the sketch after processSerial returns.
    var commandFrame: int
    var commandExposure: int
    var commandExposureName: array<char>
    var commandStereoPosition: int

    /** Everything printed to the serial port so far. */
    var sent: string

    /** The per-pin arrays have one entry per pin and are distinct. */
    ghost predicate TableValid()
      reads this
    {
      && command.Length == PinCount && logicActive.Length == PinCount
      && arg.Length == PinCount && value.Length == PinCount && lastActivation.Length == PinCount
      && command != logicActive && command != arg && command != value
      && logicActive != arg && logicActive != value && arg != value
    }

    /**
     * The object invariant: a well-formed table, and parser fields that
     * satisfy the parser invariant (which includes the 17-byte name buffer
     * and its NUL at exposureNameIndex).
     */
    ghost predicate Valid()
      reads this, commandExposureName
    {
      TableValid() && Wf(ParserState())
    }

    /** The parser fields as a value. */
    ghost function ParserState(): Parser
      reads this, commandExposureName
    {
      Parser(serialState, serialNumber, serialLastValue, inCommand, commandFrame, commandExposure,
             commandExposureName[..], exposureNameIndex, commandStereoPosition)
    }

    /** The table entry of one pin. */
    ghost function Row(pin: int): PinRow
      reads this, command, logicActive, arg, value, lastActivation
      requires 0 <= pin < PinCount
      requires command.Length == logicActive.Length == arg.Length == value.Length == lastActivation.Length == PinCount
    {
      PinRow(command[pin], logicActive[pin], arg[pin], value[pin], lastActivation[pin])
    }

    /** The whole table. */
    ghost function Rows(): (rows: seq<PinRow>)
      reads this, command, logicActive, arg, value, lastActivation
      requires command.Length == logicActive.Length == arg.Length == value.Length == lastActivation.Length == PinCount
      ensures |rows| == PinCount
      ensures forall pin :: 0 <= pin < PinCount ==> rows[pin] == Row(pin)
    {
      TableRows(command[..], logicActive[..], arg[..], value[..], lastActivation[..])
    }

    /** Every pin unused and zeroed, the parser at its start state, nothing sent. */
    constructor ()
      ensures Valid()
      ensures Rows() == seq(PinCount, _ => UnusedPin)
      ensures ParserState() == InitialParser()
      ensures sent == ""
    {
      var cmds, levels, args, values, times := new int[PinCount], new int[PinCount], new int[PinCount],
                                                 new int[PinCount], new nat[PinCount];
      for i := 0 to PinCount
        invariant forall k :: 0 <= k < i ==>
          cmds[k] == 0 && levels[k] == 0 && args[k] == 0 && values[k] == 0 && times[k] == 0
      {
        cmds[i] := 0;
        levels[i] := 0;
        args[i] := 0;
        values[i] := 0;
        times[i] := 0;
      }
      command, logicActive, arg, value, lastActivation := cmds, levels, args, values, times;
      serialState, serialNumber, serialLastValue := StateStart, 0, NUL;
      inCommand, commandFrame, commandExposure, commandStereoPosition := 0, 0, 0, 0;
      exposureNameIndex := 0;
      commandExposureName := new char[ExpNameLength + 1](_ => NUL);
      sent := "";
    }

    /** activatePin with the default argument 0. */
    method ActivatePin(pin: int, activeValue: int, cmd: int, reading: int)
      requires Valid()
      modifies command, arg, logicActive, value
      ensures Valid()
      ensures 0 <= pin < PinCount ==>
        && Row(pin) == old(Row(pin)).(command := cmd, arg := 0, logicActive := activeValue, value := reading)
        && forall p :: 0 <= p < PinCount && p != pin ==> Row(p) == old(Row(p))
      ensures !(0 <= pin < PinCount) ==> Rows() == old(Rows())
    {
      ActivatePinWithArg(pin, activeValue, cmd, 0, reading);
    }

    /**
     * Arms a pin: its command, argument and active level, and its current
     * reading as the last value seen.  Its last activation time is kept.  A
     * pin number outside the table is ignored.
     */
    method ActivatePinWithArg(pin: int, activeValue: int, cmd: int, argument: int, reading: int)
      requires Valid()
      modifies command, arg, logicActive, value
      ensures Valid()
      ensures 0 <= pin < PinCount ==>
        && Row(pin) == old(Row(pin)).(command := cmd, arg := argument, logicActive := activeValue, value := reading)
        && forall p :: 0 <= p < PinCount && p != pin ==> Row(p) == old(Row(p))
      ensures !(0 <= pin < PinCount) ==> Rows() == old(Rows())
    {
      if pin < 0 || pin >= PinCount {
        return;
      }
      command[pin] := cmd;
      arg[pin] := argument;
      logicActive[pin] := activeValue;
      value[pin] := reading;
    }

    /**
     * Disarms a pin by zeroing its command only; its level, argument, last
     * value and last activation stay.  A pin number outside the table is
     * ignored.
     */
    method DeactivatePin(pin: int)
      requires Valid()
      modifies command
      ensures Valid()
      ensures 0 <= pin < PinCount ==>
        && Row(pin) == old(Row(pin)).(command := 0)
        && forall p :: 0 <= p < PinCount && p != pin ==> Row(p) == old(Row(p))
      ensures !(0 <= pin < PinCount) ==> Rows() == old(Rows())
    {
      if pin < 0 || pin >= PinCount {
        return;
      }
      command[pin] := 0;
    }

    method ShootFrame(frames: int)
      modifies this`sent
      ensures sent == old(sent) + Emission(ShootCmd, frames)
    {
      sent := sent + "S ";
      sent := sent + IntToString(frames);
      sent := sent + "\r\n";
    }

    method DeleteFrame()
      modifies this`sent
      ensures sent == old(sent) + Emission(DeleteCmd, 0)
    {
      sent := sent + "D\r\n";
    }

    method TogglePlay()
      modifies this`sent
      ensures sent == old(sent) + Emission(PlayCmd, 0)
    {
      sent := sent + "P\r\n";
    }

    method GoToLive()
      modifies this`sent
      ensures sent == old(sent) + Emission(LiveCmd, 0)
    {
      sent := sent + "L\r\n";
    }

    /**
     * One scan of the table with the given readings at time `now`: every
     * entry becomes ScanEntry of its old self, and the lines of the pins
     * that fire are printed in pin order.
     */
    method ProcessPins(readings: seq<int>, now: nat)
      requires Valid()
      requires |readings| == PinCount
      modifies this`sent, value, lastActivation
      ensures Valid()
      ensures forall p :: 0 <= p < PinCount ==> Row(p) == ScanEntry(old(Row(p)), readings[p], now)
      ensures sent == old(sent) + ScanText(old(Rows()), readings, now, PinCount)
    {
      ghost var before := Rows();
      for pin := 0 to PinCount
        invariant TableValid()
        invariant forall p :: 0 <= p < pin ==> Row(p) == ScanEntry(before[p], readings[p], now)
        invariant forall p :: pin <= p < PinCount ==> Row(p) == before[p]
        invariant sent == old(sent) + ScanText(before, readings, now, pin)
      {
        ScanPin(pin, readings[pin], now, before[pin]);
        AppendAssociates(old(sent), ScanText(before, readings, now, pin), ScanLine(before[pin], readings[pin], now));
      }
    }

    /** The body of the scan loop for one pin, whose entry is `row`. */
    method ScanPin(pin: int, reading: int, now: nat, ghost row: PinRow)
      requires TableValid()
      requires 0 <= pin < PinCount && Row(pin) == row
      modifies this`sent, value, lastActivation
      ensures TableValid()
      ensures Row(pin) == ScanEntry(row, reading, now)
      ensures forall p :: 0 <= p < PinCount && p != pin ==> Row(p) == old(Row(p))
      ensures sent == old(sent) + ScanLine(row, reading, now)
    {
      if command[pin] != 0 {
        var v := reading;
        if v != value[pin] {
          value[pin] := v;
          if v == logicActive[pin] {
            if now > lastActivation[pin] {
              var delta := now - lastActivation[pin];
              if delta < DebounceMillis {
                return;
              }
            }
            lastActivation[pin] := now;
            var c := command[pin];
            if c == ShootCmd {
              ShootFrame(arg[pin]);
            } else if c == DeleteCmd {
              DeleteFrame();
            } else if c == PlayCmd {
              TogglePlay();
            } else if c == LiveCmd {
              GoToLive();
            }
          }
        }
      }
    }

    /**
     * Handles at most one received byte.  With no byte available nothing
     * changes and 0 is returned; otherwise the parser fields become those
     * of Step and its value is returned.
     */
    method ProcessSerial(incoming: Option<char>) returns (r: int)
      requires Valid()
      modifies this`serialState, this`serialNumber, this`serialLastValue, this`inCommand,
               this`commandFrame, this`commandExposure, this`exposureNameIndex,
               this`commandStereoPosition, commandExposureName
      ensures Valid()
      ensures incoming.None? ==> r == 0 && ParserState() == old(ParserState())
      ensures incoming.Some? ==> (ParserState(), r) == Step(old(ParserState()), incoming.value)
    {
      if incoming.Some? {
        var inByte := incoming.value;
        if inByte == '\n' && serialLastValue == '\r' {
          if serialState == StateExpSter {
            commandStereoPosition := serialNumber;
          }
          serialState := StateStart;
          return inCommand;
        }
        Dispatch(inByte);
        serialLastValue := inByte;
      }
      return 0;
    }

    /** The state dispatch of processSerial for a byte that does not end a line. */
    method Dispatch(inByte: char)
      requires Valid()
      modifies this`serialState, this`serialNumber, this`inCommand,
               this`commandFrame, this`commandExposure, this`exposureNameIndex, commandExposureName
      ensures Valid()
      ensures ParserState() == Advance(old(ParserState()), inByte)
    {
      if serialState == StateStart {
        inCommand := 0;
        commandFrame := 0;
        commandExposure := 0;
        exposureNameIndex := 0;
        commandExposureName[0] := NUL;
        serialState := StateCh1;
      } else if serialState == StateCh1 {
        if serialLastValue == 'S' && inByte == 'H' {
          inCommand := ShootMsg;
          serialState := StatePreframe;
          serialNumber := 0;
        } else if serialLastValue == 'D' && inByte == 'E' {
          inCommand := DeleteMsg;
        } else if serialLastValue == 'P' && inByte == 'F' {
          inCommand := PositionMsg;
          serialState := StatePreframe;
          serialNumber := 0;
        } else if serialLastValue == 'C' && inByte == 'C' {
          inCommand := CcMsg;
          serialState := StatePreframe;
          serialNumber := 0;
        } else {
          serialState := StateStart;
        }
      } else if serialState == StatePreframe {
        if inByte == ' ' {
          serialState := StateFrame;
        } else {
          inCommand := 0;
          serialState := StateStart;
        }
      } else if serialState == StateFrame {
        if inByte == ' ' {
          serialState := StateExp;
          commandFrame := serialNumber;
          serialNumber := 0;
        } else if '0' <= inByte <= '9' {
          serialNumber := 10 * serialNumber + (inByte as int - '0' as int);
        }
      } else if serialState == StateExp {
        if inByte == ' ' {
          serialState := StateExpName;
          commandExposure := serialNumber;
          serialNumber := 0;
        } else if '0' <= inByte <= '9' {
          serialNumber := 10 * serialNumber + (inByte as int - '0' as int);
        }
      } else if serialState == StateExpName {
        if inByte == ' ' {
          serialState := StateExpSter;
          serialNumber := 0;
        } else if exposureNameIndex < ExpNameLength {
          commandExposureName[exposureNameIndex] := inByte;
          exposureNameIndex := exposureNameIndex + 1;
          commandExposureName[exposureNameIndex] := NUL;
        }
      } else if serialState == StateExpSter {
        if '0' <= inByte <= '9' {
          serialNumber := 10 * serialNumber + (inByte as int - '0' as int);
        }
      }
    }
  }
}
