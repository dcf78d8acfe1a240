/**
 * What the DragonStopMotion parser and pin scan do over whole inputs: the
 * lines the host sends are read into the message fields, and a scan prints
 * only for fresh activations.
 */
module DragonProperties {
  import opened Decimal
  import opened DragonProtocol

  /** What processSerial returns for each byte of a run, in order. */
  function Returns(p: Parser, bs: string): (rs: seq<int>)
    requires Wf(p)
    ensures |rs| == |bs|
    decreases |bs|
  {
    if bs == [] then []
    else Returns(p, bs[..|bs| - 1]) + [Step(Run(p, bs[..|bs| - 1]), bs[|bs| - 1]).1]
  }

  /** A run of n zeros: n bytes that complete no message. */
  function Zeros(n: nat): (z: seq<int>)
    ensures |z| == n && forall i :: 0 <= i < n ==> z[i] == 0
  {
    seq(n, _ => 0)
  }

  /** One more byte: the run and its returns grow by one step. */
  lemma RunSnoc(p: Parser, bs: string, b: char)
    requires Wf(p)
    ensures Run(p, bs + [b]) == Step(Run(p, bs), b).0
    ensures Returns(p, bs + [b]) == Returns(p, bs) + [Step(Run(p, bs), b).1]
  {
    assert (bs + [b])[..|bs|] == bs;
  }

  lemma {:induction false} RunAppend(p: Parser, a: string, b: string)
    requires Wf(p)
    ensures Run(p, a + b) == Run(Run(p, a), b)
    decreases |b|
  {
    if b != [] {
      var b' := b[..|b| - 1];
      assert (a + b)[..|a + b| - 1] == a + b';
      RunAppend(p, a, b');
    } else {
      assert a + b == a;
    }
  }

  lemma {:induction false} ReturnsAppend(p: Parser, a: string, b: string)
    requires Wf(p)
    ensures Returns(p, a + b) == Returns(p, a) + Returns(Run(p, a), b)
    decreases |b|
  {
    if b != [] {
      var b' := b[..|b| - 1];
      assert (a + b)[..|a + b| - 1] == a + b';
      ReturnsAppend(p, a, b');
      RunAppend(p, a, b');
    } else {
      assert a + b == a;
    }
  }

  /** Bytes without a '\n' never complete a message: processSerial returns 0 for each. */
  lemma {:induction false} NoNewlineReturnsZeros(p: Parser, bs: string)
    requires Wf(p)
    requires '\n' !in bs
    ensures Returns(p, bs) == Zeros(|bs|)
    decreases |bs|
  {
    if bs != [] {
      var bs' := bs[..|bs| - 1];
      assert bs[|bs| - 1] in bs;
      assert forall c :: c in bs' ==> c in bs;
      NoNewlineReturnsZeros(p, bs');
    }
  }

  predicate IsNumberState(state: int) {
    state == StateFrame || state == StateExp || state == StateExpSter
  }

  /**
   * In the frame, exposure and stereo states a byte that is neither a
   * digit nor (outside the stereo state) a space only becomes the last
   * value seen.
   */
  lemma OtherBytesIgnored(p: Parser, b: char)
    requires Wf(p) && IsNumberState(p.serialState)
    requires !IsDigit(b) && !EndsLine(p, b)
    requires b == ' ' ==> p.serialState == StateExpSter
    ensures Step(p, b) == (p.(serialLastValue := b), 0)
  {
  }

  /** A run of digits read in a number state, starting from 0, leaves its decimal value. */
  lemma {:induction false} DigitsRun(p: Parser, ds: string)
    requires Wf(p) && IsNumberState(p.serialState) && p.serialNumber == 0
    requires 1 <= |ds| && AllDigits(ds)
    ensures Run(p, ds) == p.(serialNumber := DigitsValue(ds), serialLastValue := ds[|ds| - 1])
    decreases |ds|
  {
    var init := ds[..|ds| - 1];
    if |init| == 0 {
      assert Run(p, init) == p;
    } else {
      DigitsRun(p, init);
    }
  }

  function Min(a: int, b: int): int {
    if a <= b then a else b
  }

  /**
   * A run of name bytes read in the exposure-name state from an empty
   * buffer keeps its first 16 bytes, NUL-terminated, and changes nothing
   * else but the last value seen.
   */
  lemma {:induction false} NameRun(p: Parser, name: string)
    requires Wf(p) && p.serialState == StateExpName && p.exposureNameIndex == 0
    requires ' ' !in name && '\n' !in name
    ensures var q := Run(p, name);
      var k := Min(|name|, ExpNameLength);
      && q == p.(commandExposureName := q.commandExposureName, exposureNameIndex := k,
                 serialLastValue := if name == [] then p.serialLastValue else name[|name| - 1])
      && q.commandExposureName[..k] == name[..k]
      && q.commandExposureName[k] == NUL
    decreases |name|
  {
    if name != [] {
      var init := name[..|name| - 1];
      assert forall c :: c in init ==> c in name;
      assert name[|name| - 1] in name;
      NameRun(p, init);
      var q' := Run(p, init);
      var k' := Min(|init|, ExpNameLength);
      if k' < ExpNameLength {
        assert Run(p, name).commandExposureName[..k' + 1] == q'.commandExposureName[..k'] + [name[|name| - 1]];
        assert name[..k' + 1] == init[..k'] + [name[|name| - 1]];
      } else {
        assert init[..k'] == name[..k'];
      }
    }
  }

  /**
   * The line the host sends for a framed message, "<prefix> <frame>
   * <exposure> <name> <stereo>\r\n", without its final '\n'.
   */
  function MessageBody(prefix: string, frame: nat, exposure: nat, name: string, stereo: nat): string {
    (prefix + " ") + ((NatToString(frame) + " ") + ((NatToString(exposure) + " ")
      + ((name + " ") + (NatToString(stereo) + "\r"))))
  }

  /** The two-letter prefixes that start a framed message, and their message codes. */
  predicate FramedPrefix(prefix: string, code: int) {
    || (prefix == "SH" && code == ShootMsg)
    || (prefix == "PF" && code == PositionMsg)
    || (prefix == "CC" && code == CcMsg)
  }

  /** The parser once "<prefix> " has been read from the start state. */
  function Opened(p: Parser, code: int): Parser
    requires Wf(p)
  {
    p.(inCommand := code, commandFrame := 0, commandExposure := 0, exposureNameIndex := 0,
       commandExposureName := p.commandExposureName[0 := NUL], serialState := StateFrame,
       serialNumber := 0, serialLastValue := ' ')
  }

  /** The three bytes of "<prefix> ", one processSerial call each, from the start state. */
  lemma PrefixSteps(p: Parser, prefix: string, code: int)
    requires Wf(p) && p.serialState == StateStart
    requires FramedPrefix(prefix, code)
    ensures var r1 := Step(p, prefix[0]); var r2 := Step(r1.0, prefix[1]); var r3 := Step(r2.0, ' ');
      && r1.0.serialState == StateCh1 && r2.0.serialState == StatePreframe
      && r3.0 == Opened(p, code)
  {
  }

  /** "<prefix> " read from the start state opens the message and waits for the frame number. */
  lemma HeadRead(p: Parser, prefix: string, code: int)
    requires Wf(p) && p.serialState == StateStart
    requires FramedPrefix(prefix, code)
    ensures Run(p, prefix + " ") == Opened(p, code)
  {
    var c1, c2 := prefix[0], prefix[1];
    var s1: string := [c1];
    assert [] + [c1] == s1;
    PrefixSteps(p, prefix, code);
    RunSnoc(p, [], c1);
    RunSnoc(p, s1, c2);
    assert s1 + [c2] == prefix;
    RunSnoc(p, prefix, ' ');
  }

  /** In the frame and exposure states a space stores the number and moves to the next field. */
  lemma SpaceEndsNumber(q: Parser)
    requires Wf(q) && (q.serialState == StateFrame || q.serialState == StateExp)
    ensures Step(q, ' ').0
         == if q.serialState == StateFrame
            then q.(serialState := StateExp, commandFrame := q.serialNumber, serialNumber := 0, serialLastValue := ' ')
            else q.(serialState := StateExpName, commandExposure := q.serialNumber, serialNumber := 0,
                    serialLastValue := ' ')
  {
  }

  /**
   * A frame or exposure number followed by a space, read from its state
   * with the number at 0: the number is stored and the next field begins.
   */
  lemma FieldRead(p: Parser, ds: string)
    requires Wf(p) && (p.serialState == StateFrame || p.serialState == StateExp) && p.serialNumber == 0
    requires 1 <= |ds| && AllDigits(ds)
    ensures Run(p, ds + " ")
         == if p.serialState == StateFrame
            then p.(serialState := StateExp, commandFrame := DigitsValue(ds), serialLastValue := ' ')
            else p.(serialState := StateExpName, commandExposure := DigitsValue(ds), serialLastValue := ' ')
  {
    DigitsRun(p, ds);
    SpaceEndsNumber(Run(p, ds));
    RunSnoc(p, ds, ' ');
  }

  /** In the exposure-name state a space ends the name and the stereo index begins. */
  lemma SpaceEndsName(q: Parser)
    requires Wf(q) && q.serialState == StateExpName
    ensures Step(q, ' ').0 == q.(serialState := StateExpSter, serialNumber := 0, serialLastValue := ' ')
  {
  }

  /** The name followed by a space: its first 16 bytes are kept and the stereo index begins. */
  lemma NameFieldRead(p: Parser, name: string)
    requires Wf(p) && p.serialState == StateExpName && p.exposureNameIndex == 0
    requires ' ' !in name && '\n' !in name
    ensures var q := Run(p, name + " ");
      var k := Min(|name|, ExpNameLength);
      && q == p.(commandExposureName := q.commandExposureName, exposureNameIndex := k,
                 serialState := StateExpSter, serialNumber := 0, serialLastValue := ' ')
      && q.commandExposureName[..k] == name[..k]
      && q.commandExposureName[k] == NUL
  {
    NameRun(p, name);
    var q' := Run(p, name);
    SpaceEndsName(q');
    RunSnoc(p, name, ' ');
  }

  /** A '\n' right after '\r' returns the pending message and goes back to the start state. */
  lemma LineEndStep(q: Parser)
    requires Wf(q) && q.serialLastValue == '\r'
    ensures Step(q, '\n')
         == (q.(serialState := StateStart,
                commandStereoPosition := if q.serialState == StateExpSter then q.serialNumber
                                         else q.commandStereoPosition),
             q.inCommand)
  {
  }

  /** The stereo index and the '\r' before the line end: the index is read, the state kept. */
  lemma StereoRead(p: Parser, ds: string)
    requires Wf(p) && p.serialState == StateExpSter && p.serialNumber == 0
    requires 1 <= |ds| && AllDigits(ds)
    ensures Run(p, ds + "\r") == p.(serialNumber := DigitsValue(ds), serialLastValue := '\r')
  {
    DigitsRun(p, ds);
    OtherBytesIgnored(Run(p, ds), '\r');
    RunSnoc(p, ds, '\r');
  }

  /** What a framed line leaves behind just before its final '\n'. */
  ghost predicate ReadUpToEnd(q: Parser, code: int, frame: int, exposure: int, name: string, stereo: int) {
    var k := Min(|name|, ExpNameLength);
    && Wf(q)
    && q.serialState == StateExpSter && q.serialLastValue == '\r' && q.serialNumber == stereo
    && q.inCommand == code && q.commandFrame == frame && q.commandExposure == exposure
    && q.exposureNameIndex == k
    && q.commandExposureName[..k] == name[..k] && q.commandExposureName[k] == NUL
  }

  /** From the exposure-name state: the name, a space, the stereo index and '\r'. */
  lemma NameTailRead(q: Parser, name: string, s: string)
    requires Wf(q) && q.serialState == StateExpName && q.exposureNameIndex == 0
    requires ' ' !in name && '\n' !in name
    requires 1 <= |s| && AllDigits(s)
    ensures ReadUpToEnd(Run(q, (name + " ") + (s + "\r")), q.inCommand, q.commandFrame,
                        q.commandExposure, name, DigitsValue(s))
  {
    NameFieldRead(q, name);
    StereoRead(Run(q, name + " "), s);
    RunAppend(q, name + " ", s + "\r");
  }

  /** From the exposure state: the exposure number, a space, and the rest of the line. */
  lemma ExpTailRead(q: Parser, e: string, name: string, s: string)
    requires Wf(q) && q.serialState == StateExp && q.serialNumber == 0 && q.exposureNameIndex == 0
    requires 1 <= |e| && AllDigits(e)
    requires ' ' !in name && '\n' !in name
    requires 1 <= |s| && AllDigits(s)
    ensures ReadUpToEnd(Run(q, (e + " ") + ((name + " ") + (s + "\r"))), q.inCommand, q.commandFrame,
                        DigitsValue(e), name, DigitsValue(s))
  {
    FieldRead(q, e);
    NameTailRead(Run(q, e + " "), name, s);
    RunAppend(q, e + " ", (name + " ") + (s + "\r"));
  }

  /** From the frame state: the frame number, a space, and the rest of the line. */
  lemma FrameTailRead(q: Parser, f: string, e: string, name: string, s: string)
    requires Wf(q) && q.serialState == StateFrame && q.serialNumber == 0 && q.exposureNameIndex == 0
    requires 1 <= |f| && AllDigits(f) && 1 <= |e| && AllDigits(e)
    requires ' ' !in name && '\n' !in name
    requires 1 <= |s| && AllDigits(s)
    ensures ReadUpToEnd(Run(q, (f + " ") + ((e + " ") + ((name + " ") + (s + "\r")))), q.inCommand,
                        DigitsValue(f), DigitsValue(e), name, DigitsValue(s))
  {
    FieldRead(q, f);
    ExpTailRead(Run(q, f + " "), e, name, s);
    RunAppend(q, f + " ", (e + " ") + ((name + " ") + (s + "\r")));
  }

  /** A whole framed line but its final '\n', with any digit strings for the numbers. */
  lemma FieldsRead(p: Parser, prefix: string, code: int, f: string, e: string, name: string, s: string)
    requires Wf(p) && p.serialState == StateStart
    requires FramedPrefix(prefix, code)
    requires 1 <= |f| && AllDigits(f) && 1 <= |e| && AllDigits(e) && 1 <= |s| && AllDigits(s)
    requires ' ' !in name && '\n' !in name
    ensures ReadUpToEnd(Run(p, (prefix + " ") + ((f + " ") + ((e + " ") + ((name + " ") + (s + "\r"))))),
                        code, DigitsValue(f), DigitsValue(e), name, DigitsValue(s))
  {
    HeadRead(p, prefix, code);
    FrameTailRead(Run(p, prefix + " "), f, e, name, s);
    RunAppend(p, prefix + " ", (f + " ") + ((e + " ") + ((name + " ") + (s + "\r"))));
  }

  lemma BodyHasNoNewline(prefix: string, f: string, e: string, name: string, s: string)
    requires '\n' !in prefix && '\n' !in name
    requires AllDigits(f) && AllDigits(e) && AllDigits(s)
    ensures '\n' !in (prefix + " ") + ((f + " ") + ((e + " ") + ((name + " ") + (s + "\r"))))
  {
  }

  /**
   * A framed line received from the start state is read completely:
   * processSerial returns 0 for every byte before the final '\n', and
   * that '\n' returns the message code with the frame, exposure and
   * stereo numbers stored, and the first 16 bytes of the name,
   * NUL-terminated.
   */
  lemma MessageLineRead(p: Parser, prefix: string, code: int,
                        frame: nat, exposure: nat, name: string, stereo: nat)
    requires Wf(p) && p.serialState == StateStart
    requires FramedPrefix(prefix, code)
    requires ' ' !in name && '\n' !in name
    ensures var body := MessageBody(prefix, frame, exposure, name, stereo);
      var r := Step(Run(p, body), '\n');
      var q := r.0;
      var k := Min(|name|, ExpNameLength);
      && Returns(p, body) == Zeros(|body|)
      && r.1 == code
      && q.serialState == StateStart
      && q.commandFrame == frame && q.commandExposure == exposure && q.commandStereoPosition == stereo
      && q.exposureNameIndex == k
      && q.commandExposureName[..k] == name[..k] && q.commandExposureName[k] == NUL
  {
    var f, e, s := NatToString(frame), NatToString(exposure), NatToString(stereo);
    NatToStringDigits(frame);
    NatToStringDigits(exposure);
    NatToStringDigits(stereo);
    var body := MessageBody(prefix, frame, exposure, name, stereo);
    FieldsRead(p, prefix, code, f, e, name, s);
    LineEndStep(Run(p, body));
    BodyHasNoNewline(prefix, f, e, name, s);
    NoNewlineReturnsZeros(p, body);
  }

  /** A buffer whose first NUL is at index k reads, as a C string, as the k bytes before it. */
  lemma {:induction false} CStringUpTo(buf: seq<char>, k: nat)
    requires k < |buf| && NUL !in buf[..k] && buf[k] == NUL
    ensures CString(buf) == buf[..k]
    decreases k
  {
    if k > 0 {
      assert buf[0] == buf[..k][0];
      assert buf[1..][..k - 1] == buf[..k][1..];
      CStringUpTo(buf[1..], k - 1);
    }
  }

  /**
   * The exposure name a framed line leaves, read as a C string, is the
   * name the host sent, cut to its first 16 bytes.
   */
  lemma MessageNameRead(p: Parser, prefix: string, code: int,
                        frame: nat, exposure: nat, name: string, stereo: nat)
    requires Wf(p) && p.serialState == StateStart
    requires FramedPrefix(prefix, code)
    requires ' ' !in name && '\n' !in name && NUL !in name
    ensures var q := Step(Run(p, MessageBody(prefix, frame, exposure, name, stereo)), '\n').0;
      CString(q.commandExposureName) == name[..Min(|name|, ExpNameLength)]
  {
    var q := Step(Run(p, MessageBody(prefix, frame, exposure, name, stereo)), '\n').0;
    var k := Min(|name|, ExpNameLength);
    MessageLineRead(p, prefix, code, frame, exposure, name, stereo);
    assert forall c :: c in name[..k] ==> c in name;
    CStringUpTo(q.commandExposureName, k);
  }

  /** "DE\r\n" received from the start state completes a delete message. */
  lemma DeleteLineRead(p: Parser)
    requires Wf(p) && p.serialState == StateStart
    ensures var r1 := Step(p, 'D'); var r2 := Step(r1.0, 'E');
      var r3 := Step(r2.0, '\r'); var r4 := Step(r3.0, '\n');
      && [r1.1, r2.1, r3.1, r4.1] == [0, 0, 0, DeleteMsg]
      && r4.0.serialState == StateStart
  {
  }

  /**
   * A delete line that carries a number loses the message: the byte after
   * "DE" sends the parser back to the start state, where the next byte
   * clears the pending message.
   */
  lemma DeleteWithNumberLost(p: Parser, d: char)
    requires Wf(p) && p.serialState == StateStart
    requires IsDigit(d)
    ensures var r1 := Step(p, 'D'); var r2 := Step(r1.0, 'E'); var r3 := Step(r2.0, ' ');
      var r4 := Step(r3.0, d); var r5 := Step(r4.0, '\r'); var r6 := Step(r5.0, '\n');
      [r1.1, r2.1, r3.1, r4.1, r5.1, r6.1] == [0, 0, 0, 0, 0, 0]
  {
  }

  /** Two letters that are no known prefix, read from the start state, lead back to the start state. */
  lemma UnknownPrefixDropped(p: Parser, c1: char, c2: char)
    requires Wf(p) && p.serialState == StateStart
    requires !EndsLine(p, c1)
    requires [c1, c2] != "SH" && [c1, c2] != "DE" && [c1, c2] != "PF" && [c1, c2] != "CC"
    ensures var r1 := Step(p, c1); var r2 := Step(r1.0, c2);
      && r1.1 == 0 && r2.1 == 0
      && r2.0.serialState == StateStart && r2.0.inCommand == 0
  {
  }

  /** Any byte other than a space right after a framed prefix cancels the message. */
  lemma NonSpaceAfterPrefixCancels(p: Parser, prefix: string, code: int, c: char)
    requires Wf(p) && p.serialState == StateStart
    requires FramedPrefix(prefix, code)
    requires c != ' '
    ensures var r1 := Step(p, prefix[0]); var r2 := Step(r1.0, prefix[1]); var r3 := Step(r2.0, c);
      && r2.0.inCommand == code
      && r3.1 == 0 && r3.0.serialState == StateStart && r3.0.inCommand == 0
  {
  }

  /**
   * The line end leaves serialLastValue at '\r', so a second '\n' right
   * after a completed line returns the same message again.
   */
  lemma SecondNewlineRepeats(p: Parser)
    requires Wf(p) && p.serialLastValue == '\r'
    ensures var r1 := Step(p, '\n'); var r2 := Step(r1.0, '\n');
      r1.1 == p.inCommand && r2.1 == p.inCommand
  {
  }

  // ---------------------------------------------------------------------
  // The pin scan
  // ---------------------------------------------------------------------

  /** A scan of a table whose pins are all unused prints nothing. */
  lemma {:induction false} UnusedTableSilent(rows: seq<PinRow>, readings: seq<int>, now: nat, n: nat)
    requires n <= |rows| == |readings|
    requires forall i :: 0 <= i < |rows| ==> rows[i].command == 0
    ensures ScanText(rows, readings, now, n) == ""
  {
    if n > 0 {
      UnusedTableSilent(rows, readings, now, n - 1);
    }
  }

  /**
   * Readings that stay the same print nothing on the next scan, whatever
   * the clock says: a held button fires once, on its edge.
   */
  lemma {:induction false} HeldReadingsSilent(rows: seq<PinRow>, readings: seq<int>, now: nat, later: nat, n: nat)
    requires |rows| == |readings| && n <= |rows|
    ensures ScanText(ScanRows(rows, readings, now), readings, later, n) == ""
  {
    if n > 0 {
      HeldReadingsSilent(rows, readings, now, later, n - 1);
    }
  }

  /**
   * A pin that activated at time `now` cannot fire again until 500 ms have
   * passed: after any later scan (a release, say), a return to the active
   * level strictly within the window prints nothing and keeps the
   * activation time.
   */
  lemma BounceSuppressed(row: PinRow, reading: int, now: nat, released: int, t1: nat,
                         pressed: int, t2: nat)
    requires Activates(row, reading, now)
    requires now < t2 < now + DebounceMillis
    ensures var row1 := ScanEntry(row, reading, now);
      var row2 := ScanEntry(row1, released, t1);
      && row2.lastActivation == now
      && ScanLine(row2, pressed, t2) == ""
      && ScanEntry(row2, pressed, t2).lastActivation == now
  {
  }
}
