/**
 * The Python client of the stepper controller: reply framing over the
 * serial link (`getMessage`, `flushSerial`) and the `stepperAxis` object,
 * which remembers a commanded position and the last position it sent, and
 * sends a `GO <axis> <target> <distance>` line only when they differ.
 */
module Stepper {
  import opened Wrappers
  import opened Decimal
  import opened PyText
  import opened SerialPort

  /** The reply `flushSerial` waits for. */
  const AckAlive: string := "ACK ALIVE\n"

  // ---------------------------------------------------------------------
  // Reply framing
  // ---------------------------------------------------------------------

  /** The first j bytes of s end with `suffix`: a read loop that has read j bytes stops there. */
  predicate EndsAt(s: string, suffix: string, j: nat) {
    1 <= j <= |s| && EndsWith(s[..j], suffix)
  }

  /** No read of fewer than m bytes stops the loop. */
  predicate NoneBefore(s: string, suffix: string, m: nat) {
    forall j :: 1 <= j < m ==> !EndsAt(s, suffix, j)
  }

  /**
   * The first length j >= k at which s stops the read loop, if there is
   * one.
   */
  function ScanFrom(s: string, suffix: string, k: nat): (r: Option<nat>)
    requires 1 <= k
    ensures r.Some? ==> && k <= r.value && EndsAt(s, suffix, r.value)
                        && forall j :: k <= j < r.value ==> !EndsAt(s, suffix, j)
    ensures r.None? ==> forall j :: k <= j ==> !EndsAt(s, suffix, j)
    decreases |s| + 1 - k
  {
    if k > |s| then None
    else if EndsWith(s[..k], suffix) then Some(k)
    else ScanFrom(s, suffix, k + 1)
  }

  /**
   * How many bytes a read loop that appends one byte at a time and stops
   * as soon as its text ends with `suffix` consumes from s: the length of
   * the shortest non-empty prefix of s that ends with `suffix`, or None
   * when no prefix does and the input runs out first.
   */
  function FirstEnding(s: string, suffix: string): (r: Option<nat>)
    ensures r.Some? ==> EndsAt(s, suffix, r.value) && NoneBefore(s, suffix, r.value)
    ensures r.None? ==> NoneBefore(s, suffix, |s| + 1)
  {
    ScanFrom(s, suffix, 1)
  }

  /** What is left of s once the read loop stops. */
  function Remaining(s: string, suffix: string): string {
    match FirstEnding(s, suffix)
    case Some(k) => s[k..]
    case None => ""
  }

  /** A prefix that stops the loop while no shorter one does is the one FirstEnding finds. */
  lemma FirstEndingUnique(s: string, suffix: string, m: nat)
    requires EndsAt(s, suffix, m) && NoneBefore(s, suffix, m)
    ensures FirstEnding(s, suffix) == Some(m)
  {
  }

  /**
   * The read loop shared by getMessage and flushSerial: appends one byte at
   * a time until the text ends with `suffix` or the device has nothing
   * left to send (the model of the ten-second timeout).
   */
  method ReadUntil(ser: Port, suffix: string) returns (message: string, found: bool)
    modifies ser`input
    ensures found == FirstEnding(old(ser.input), suffix).Some?
    ensures found ==> message == old(ser.input)[..FirstEnding(old(ser.input), suffix).value]
    ensures !found ==> message == old(ser.input)
    ensures ser.input == Remaining(old(ser.input), suffix)
  {
    ghost var s := ser.input;
    message := "";
    found := false;
    while ser.input != [] && !found
      invariant |message| <= |s| && message == s[..|message|] && ser.input == s[|message|..]
      invariant NoneBefore(s, suffix, |message|)
      invariant found ==> EndsAt(s, suffix, |message|)
      invariant !found ==> NoneBefore(s, suffix, |message| + 1)
      decreases |ser.input|, !found
    {
      var c := ser.Read();
      message := message + c;
      if EndsWith(message, suffix) {
        found := true;
      } else {
        NoneBeforeExtend(s, suffix, |message|);
      }
    }
    if found {
      FirstEndingUnique(s, suffix, |message|);
    } else {
      NoneBeforeAll(s, suffix);
    }
  }

  lemma NoneBeforeExtend(s: string, suffix: string, m: nat)
    requires NoneBefore(s, suffix, m) && !EndsAt(s, suffix, m)
    ensures NoneBefore(s, suffix, m + 1)
  {
  }

  /** When no prefix up to the whole of s stops the loop, FirstEnding finds none. */
  lemma NoneBeforeAll(s: string, suffix: string)
    requires NoneBefore(s, suffix, |s| + 1)
    ensures FirstEnding(s, suffix).None?
  {
  }

  /** What getMessage returns for the bytes s: the first line, '\n' included, or "Error". */
  function Reply(s: string): string {
    match FirstEnding(s, "\n")
    case Some(k) => s[..k]
    case None => "Error"
  }

  /**
   * `getMessage(ser)`: the bytes up to and including the first '\n', or
   * "Error" when the device stops sending before one arrives.
   */
  method GetMessage(ser: Port) returns (message: string)
    modifies ser`input
    ensures message == Reply(old(ser.input))
    ensures ser.input == Remaining(old(ser.input), "\n")
  {
    var text, gotLine := ReadUntil(ser, "\n");
    if !gotLine {
      return "Error";
    }
    return text;
  }

  /**
   * `flushSerial(ser)`: a newline to clear the controller's buffer, then
   * "ALIVE\n", then a read until the text ends with "ACK ALIVE\n".  `ok` is
   * false when the device stops sending first, where flushSerial calls
   * `self.fail` (which, in a module function, raises NameError instead).
   */
  method FlushSerial(ser: Port) returns (ok: bool)
    modifies ser`input, ser`written
    ensures ser.written == old(ser.written) + ["\n", "ALIVE\n"]
    ensures ok == FirstEnding(old(ser.input), AckAlive).Some?
    ensures ser.input == Remaining(old(ser.input), AckAlive)
  {
    ser.Write("\n");
    ser.Write("ALIVE\n");
    var _, gotAck := ReadUntil(ser, AckAlive);
    ok := gotAck;
  }

  lemma NewlineEndsAt(s: string, j: nat)
    ensures EndsAt(s, "\n", j) <==> 1 <= j <= |s| && s[j - 1] == '\n'
  {
    if 1 <= j <= |s| {
      assert s[..j][j - 1..] == [s[j - 1]];
    }
  }

  lemma {:induction false} NoNewlineBefore(s: string, k: nat)
    requires 1 <= k <= |s| + 1
    ensures NoneBefore(s, "\n", k) <==> '\n' !in s[..k - 1]
  {
    if NoneBefore(s, "\n", k) && '\n' in s[..k - 1] {
      var i :| 0 <= i < k - 1 && s[..k - 1][i] == '\n';
      NewlineEndsAt(s, i + 1);
    }
    if '\n' !in s[..k - 1] {
      forall j | 1 <= j < k
        ensures !EndsAt(s, "\n", j)
      {
        NewlineEndsAt(s, j);
        assert s[j - 1] == s[..k - 1][j - 1];
      }
    }
  }

  /**
   * The newline framing of getMessage: a prefix length is the one found
   * exactly when it ends at a '\n' and no earlier byte is a '\n'; and none
   * is found exactly when s has no '\n'.
   */
  lemma FirstNewline(s: string, k: nat)
    ensures FirstEnding(s, "\n") == Some(k) <==> 1 <= k <= |s| && s[k - 1] == '\n' && '\n' !in s[..k - 1]
    ensures FirstEnding(s, "\n").None? <==> '\n' !in s
  {
    NewlineEndsAt(s, k);
    if 1 <= k <= |s| + 1 {
      NoNewlineBefore(s, k);
    }
    if 1 <= k <= |s| && s[k - 1] == '\n' && '\n' !in s[..k - 1] {
      FirstEndingUnique(s, "\n", k);
    }
    NoNewlineBefore(s, |s| + 1);
    assert s[..|s|] == s;
    if '\n' !in s {
      NoneBeforeAll(s, "\n");
    }
  }

  /** A reply line followed by anything: getMessage returns exactly that line. */
  lemma ReplyOfLine(line: string, rest: string)
    requires '\n' !in line
    ensures Reply(line + "\n" + rest) == line + "\n"
    ensures Remaining(line + "\n" + rest, "\n") == rest
  {
    var s := line + "\n" + rest;
    assert s[..|line|] == line;
    FirstNewline(s, |line| + 1);
    assert s[..|line| + 1] == line + "\n";
    assert s[|line| + 1..] == rest;
  }

  /** t occurs in s starting at index i. */
  predicate OccursAt(s: string, t: string, i: nat) {
    i + |t| <= |s| && s[i..i + |t|] == t
  }

  /** flushSerial succeeds exactly when "ACK ALIVE\n" occurs somewhere in what the device sends. */
  lemma AckFoundIffSent(s: string)
    ensures FirstEnding(s, AckAlive).Some? <==> exists i: nat :: OccursAt(s, AckAlive, i)
  {
    var n := |AckAlive|;
    if FirstEnding(s, AckAlive).Some? {
      var k := FirstEnding(s, AckAlive).value;
      assert s[..k][k - n..] == s[k - n..k];
      assert OccursAt(s, AckAlive, k - n);
    }
    if exists i: nat :: OccursAt(s, AckAlive, i) {
      var i: nat :| OccursAt(s, AckAlive, i);
      assert s[..i + n][i..] == s[i..i + n];
      assert EndsAt(s, AckAlive, i + n);
    }
  }

  // ---------------------------------------------------------------------
  // GO lines
  // ---------------------------------------------------------------------

  function Abs(x: int): nat {
    if x < 0 then -x else x
  }

  /** The three numbers of a GO line, separated by single spaces. */
  function GoFields(axis: int, target: int, distance: int): string {
    IntToString(axis) + " " + (IntToString(target) + " " + IntToString(distance))
  }

  /** The line `update` sends: "GO <axis> <target> <distance>\n". */
  function GoCommand(axis: int, target: int, distance: int): (line: string)
    ensures 4 <= |line| && line[..3] == "GO " && line[|line| - 1] == '\n'
  {
    "GO " + GoFields(axis, target, distance) + "\n"
  }

  /** The index of the first space in s, if any. */
  function SpaceIndex(s: string): (r: Option<nat>)
    ensures r.Some? ==> r.value < |s| && s[r.value] == ' ' && ' ' !in s[..r.value]
    ensures r.None? ==> ' ' !in s
  {
    if s == [] then None
    else if s[0] == ' ' then Some(0)
    else match SpaceIndex(s[1..]) {
      case Some(i) =>
        assert s[..i + 1] == [s[0]] + s[1..][..i];
        Some(i + 1)
      case None =>
        assert s == [s[0]] + s[1..];
        None
    }
  }

  lemma SpaceIndexAfterWord(w: string, rest: string)
    requires ' ' !in w
    ensures SpaceIndex(w + " " + rest) == Some(|w|)
  {
    var s := w + " " + rest;
    assert s[..|w|] == w;
    assert s[|w|] == ' ';
  }

  /** Two integers separated by the first space. */
  function ParsePair(s: string): Option<(int, int)> {
    match SpaceIndex(s)
    case None => None
    case Some(j) =>
      match (ParseInt(s[..j]), ParseInt(s[j + 1..]))
      case (Some(t), Some(d)) => Some((t, d))
      case _ => None
  }

  /** Three integers separated by spaces. */
  function ParseFields(s: string): Option<(int, int, int)> {
    match SpaceIndex(s)
    case None => None
    case Some(i) =>
      match (ParseInt(s[..i]), ParsePair(s[i + 1..]))
      case (Some(a), Some((t, d))) => Some((a, t, d))
      case _ => None
  }

  /**
   * A reader for GO lines, independent of GoCommand: "GO ", three
   * space-separated integers, and a final '\n'.
   */
  function ParseGo(line: string): Option<(int, int, int)> {
    if |line| < 4 || line[..3] != "GO " || line[|line| - 1] != '\n' then None
    else ParseFields(line[3..|line| - 1])
  }

  lemma PairRoundTrip(target: int, distance: int)
    ensures ParsePair(IntToString(target) + " " + IntToString(distance)) == Some((target, distance))
  {
    var t, d := IntToString(target), IntToString(distance);
    var s := t + " " + d;
    IntToStringHasNoSeparator(target);
    SpaceIndexAfterWord(t, d);
    assert s[..|t|] == t;
    assert s[|t| + 1..] == d;
    IntToStringRoundTrip(target);
    IntToStringRoundTrip(distance);
  }

  lemma FieldsRoundTrip(axis: int, target: int, distance: int)
    ensures ParseFields(GoFields(axis, target, distance)) == Some((axis, target, distance))
  {
    var a, rest := IntToString(axis), IntToString(target) + " " + IntToString(distance);
    var s := GoFields(axis, target, distance);
    IntToStringHasNoSeparator(axis);
    SpaceIndexAfterWord(a, rest);
    assert s[..|a|] == a;
    assert s[|a| + 1..] == rest;
    IntToStringRoundTrip(axis);
    PairRoundTrip(target, distance);
  }

  /** A GO line reads back as the axis, target and distance it was built from. */
  lemma GoCommandRoundTrip(axis: int, target: int, distance: int)
    ensures ParseGo(GoCommand(axis, target, distance)) == Some((axis, target, distance))
  {
    var line := GoCommand(axis, target, distance);
    assert line[3..|line| - 1] == GoFields(axis, target, distance);
    FieldsRoundTrip(axis, target, distance);
  }

  /** What `update` writes for an axis whose last sent and current positions are given. */
  function UpdateWrites(axis: int, last: int, current: int): seq<string> {
    if last != current then [GoCommand(axis, current, Abs(current - last))] else []
  }

  /**
   * update writes a line exactly when the positions differ, and that line
   * carries the axis, the new target and the nonzero distance travelled.
   */
  lemma UpdateWritesGo(axis: int, last: int, current: int)
    ensures |UpdateWrites(axis, last, current)| == if last != current then 1 else 0
    ensures last != current ==>
      && ParseGo(UpdateWrites(axis, last, current)[0]) == Some((axis, current, Abs(current - last)))
      && Abs(current - last) > 0
  {
    if last != current {
      GoCommandRoundTrip(axis, current, Abs(current - last));
    }
  }

  // ---------------------------------------------------------------------
  // Position replies
  // ---------------------------------------------------------------------

  /** The text readPosition compares the reply's first 12 characters with. */
  function PositionHeader(axis: int): (h: string)
    ensures |h| >= 13
  {
    "ACK GET POS " + IntToString(axis)
  }

  /**
   * The comparison in readPosition never holds: a 12-character slice is
   * compared with a text of at least 13 characters, so the reply is never
   * parsed.
   */
  lemma PositionCompareNeverHolds(axis: int, message: string)
    ensures SliceTo(message, 12) != PositionHeader(axis)
  {
  }

  /**
   * The evident intent of readPosition: a reply that starts with
   * "ACK GET POS <axis>" gives the integer that follows, and any other
   * reply gives nothing.
   */
  function PositionReply(axis: int, message: string): Option<int> {
    var h := PositionHeader(axis);
    if SliceTo(message, |h|) == h then PyInt(SliceFrom(message, |h|)) else None
  }

  /** The intended reading recovers the position from the controller's reply line. */
  lemma PositionReplyRoundTrip(axis: int, position: int)
    ensures PositionReply(axis, PositionHeader(axis) + " " + IntToString(position) + "\n") == Some(position)
  {
    var h := PositionHeader(axis);
    var m := h + " " + IntToString(position) + "\n";
    assert SliceTo(m, |h|) == h;
    assert SliceFrom(m, |h|) == " " + IntToString(position) + "\n";
    PyIntOfStr(" ", position, "\n");
  }

  /** A reply the intended reading accepts that readPosition, as written, ignores. */
  lemma ReplyIgnoredExample()
    ensures var m := "ACK GET POS 0 1234\n";
      && SliceTo(m, 12) != PositionHeader(0)
      && PositionReply(0, m) == Some(1234)
  {
    var m := "ACK GET POS 0 1234\n";
    ExampleText();
    assert PositionHeader(0) == "ACK GET POS 0";
    assert m == "ACK GET POS 0" + " " + "1234" + "\n";
    PositionReplyRoundTrip(0, 1234);
    PositionCompareNeverHolds(0, m);
  }

  /** The reply line of a controller reporting `position` for `axis`: "ACK GET POS <axis> <position>\n". */
  function PositionLine(axis: int, position: int): string {
    PositionHeader(axis) + " " + IntToString(position) + "\n"
  }

  /**
   * The commanded position after the intended readPosition, for a device
   * that sends s: the reply's position when the flush succeeds and the
   * reply reads as one, and the old position otherwise.
   */
  function IntendedPosition(axis: int, current: int, s: string): int {
    if FirstEnding(s, AckAlive).None? then current
    else match PositionReply(axis, Reply(Remaining(s, AckAlive)))
      case Some(v) => v
      case None => current
  }

  /** "ACK ALIVE\n" in front of anything is found after its ten bytes. */
  lemma AckAliveFirst(rest: string)
    ensures FirstEnding(AckAlive + rest, AckAlive) == Some(|AckAlive|)
    ensures Remaining(AckAlive + rest, AckAlive) == rest
  {
    var s := AckAlive + rest;
    assert s[..|AckAlive|] == AckAlive;
    assert EndsAt(s, AckAlive, |AckAlive|);
    FirstEndingUnique(s, AckAlive, |AckAlive|);
    assert s[|AckAlive|..] == rest;
  }

  /**
   * A device that acknowledges the flush and then reports a position: the
   * intended reading takes that position, whatever the old one was.
   */
  lemma IntendedReadsPosition(axis: int, position: int, current: int)
    ensures IntendedPosition(axis, current, AckAlive + PositionLine(axis, position)) == position
  {
    var line := PositionHeader(axis) + " " + IntToString(position);
    AckAliveFirst(PositionLine(axis, position));
    IntToStringHasNoSeparator(axis);
    IntToStringHasNoSeparator(position);
    assert line == "ACK GET POS " + IntToString(axis) + " " + IntToString(position);
    assert '\n' !in line;
    assert line + "\n" + "" == PositionLine(axis, position);
    ReplyOfLine(line, "");
    PositionReplyRoundTrip(axis, position);
  }

  lemma ExampleText()
    ensures IntToString(0) == "0" && IntToString(1234) == "1234"
  {
    assert NatToString(1) == "1";
    assert NatToString(12) == NatToString(1) + "2";
    assert NatToString(123) == NatToString(12) + "3";
    assert NatToString(1234) == NatToString(123) + "4";
  }

  // ---------------------------------------------------------------------
  // The axis object
  // ---------------------------------------------------------------------

  class StepperAxis {
    var axis: int
    /** The position most recently sent to the controller. */
    var lastPosition: int
    /** The commanded position. */
    var currentPosition: int

    constructor (axis: int)
      ensures this.axis == axis && lastPosition == 0 && currentPosition == 0
    {
      this.axis := axis;
      lastPosition := 0;
      currentPosition := 0;
    }

    /**
     * Sends the commanded position if it differs from the last one sent,
     * with the distance to travel, and records it as sent.
     */
    method Update(ser: Port)
      modifies this`lastPosition, ser`written
      ensures ser.written == old(ser.written) + UpdateWrites(axis, old(lastPosition), currentPosition)
      ensures lastPosition == currentPosition
    {
      if lastPosition != currentPosition {
        ser.Write(GoCommand(axis, currentPosition, Abs(currentPosition - lastPosition)));
        lastPosition := currentPosition;
      }
    }

    method MoveRelative(counts: int)
      modifies this`currentPosition
      ensures currentPosition == old(currentPosition) + counts
    {
      currentPosition := currentPosition + counts;
    }

    method MoveAbsolute(position: int)
      modifies this`currentPosition
      ensures currentPosition == position
    {
      currentPosition := position;
    }

    /** The commanded position (not a reading from the device). */
    method GetPosition() returns (position: int)
      ensures position == currentPosition
    {
      return currentPosition;
    }

    /**
     * Asks the controller for the axis position, as written: flushSerial
     * first (giving up when it times out), then "GET POS <axis>\n" and one
     * reply line.  The reply would be parsed only if its first 12
     * characters equalled "ACK GET POS <axis>", which has at least 13, so
     * the commanded position is never changed.
     */
    method ReadPosition(ser: Port)
      modifies ser`input, ser`written, this`currentPosition
      ensures currentPosition == old(currentPosition)
      ensures ser.written == old(ser.written) + ["\n", "ALIVE\n"]
        + (if FirstEnding(old(ser.input), AckAlive).Some? then ["GET POS " + IntToString(axis) + "\n"] else [])
      ensures ser.input == Remaining(Remaining(old(ser.input), AckAlive), "\n")
    {
      var ok := FlushSerial(ser);
      if !ok {
        return;
      }
      ser.Write("GET POS " + IntToString(axis) + "\n");
      var message := GetMessage(ser);
      var position := currentPosition;
      var tail := SliceFrom(message, 13);
      if SliceTo(message, 12) == "ACK GET POS " + IntToString(axis) {
        // int() raising ValueError (None) would abandon the call; the branch is never taken
        match PyInt(tail) {
          case Some(v) => position := v;
          case None =>
        }
      }
      currentPosition := position;
    }

    /**
     * readPosition as evidently intended: the same exchange, but the reply
     * is compared with "ACK GET POS <axis>" over that text's own length and
     * the integer after it becomes the commanded position.
     */
    method ReadPositionIntended(ser: Port)
      modifies ser`input, ser`written, this`currentPosition
      ensures currentPosition == IntendedPosition(axis, old(currentPosition), old(ser.input))
      ensures ser.written == old(ser.written) + ["\n", "ALIVE\n"]
        + (if FirstEnding(old(ser.input), AckAlive).Some? then ["GET POS " + IntToString(axis) + "\n"] else [])
      ensures ser.input == Remaining(Remaining(old(ser.input), AckAlive), "\n")
    {
      var ok := FlushSerial(ser);
      if !ok {
        return;
      }
      ser.Write("GET POS " + IntToString(axis) + "\n");
      var message := GetMessage(ser);
      match PositionReply(axis, message) {
        case Some(v) => currentPosition := v;
        case None =>
      }
    }
  }
}
