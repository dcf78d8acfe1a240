/**
 * The motion test script: one stepper axis (axis 0) and a camera.  It
 * takes a picture named after the starting position, then 32 times moves
 * the axis 4000 counts out and back, sending each move, and takes a
 * picture named after the iteration number.
 */
module MotionTest {
  import opened Decimal
  import opened PyText
  import opened SerialPort
  import opened Stepper

  /** The number of out-and-back iterations. */
  const Iterations: nat := 32
  /** The size of each move, in counts. */
  const Stroke: int := 4000

  /**
   * A picture taken by the camera: the file name and how many serial writes
   * had been made when it was taken.
   */
  datatype Shot = Shot(name: string, afterWrites: nat)

  /** The camera, reduced to the log of the pictures it is asked to take. */
  class Camera {
    var shots: seq<Shot>

    constructor ()
      ensures shots == []
    {
      shots := [];
    }

    /** `camera.capture(name)`, stamped with the number of writes so far on `ser`. */
    method Capture(name: string, ser: Port)
      modifies this`shots
      ensures shots == old(shots) + [Shot(name, |ser.written|)]
    {
      shots := shots + [Shot(name, |ser.written|)];
    }
  }

  /** `'%010d.jpg' % n`. */
  function CaptureName(n: int): string {
    Format010d(n) + ".jpg"
  }

  /** The line that moves the axis out by a stroke. */
  const Out: string := "GO 0 4000 4000\n"
  /** The line that brings it back. */
  const Back: string := "GO 0 0 4000\n"
  /** The name of the picture of the starting position. */
  const FirstName: string := "0000000000.jpg"

  /** Everything written to the port by the first n iterations: out and back, n times. */
  function ScriptWrites(n: nat): seq<string> {
    seq(2 * n, k => if k % 2 == 0 then Out else Back)
  }

  /** The pictures of the first n iterations, each named after its iteration and taken after its two writes. */
  function LoopShots(n: nat): seq<Shot> {
    seq(n, k requires 0 <= k => Shot(CaptureName(k), 2 * (k + 1)))
  }

  /** All pictures after n iterations: the one of the starting position first. */
  function ScriptShots(n: nat): seq<Shot> {
    [Shot(FirstName, 0)] + LoopShots(n)
  }

  /**
   * The script itself, from opening the port (whose device will send
   * `reply`, never read here) to the last picture.
   */
  method RunScript(reply: string) returns (ser: Port, stepper: StepperAxis, camera: Camera)
    ensures ser.written == ScriptWrites(Iterations)
    ensures camera.shots == ScriptShots(Iterations)
    ensures stepper.axis == 0 && stepper.currentPosition == 0 && stepper.lastPosition == 0
  {
    ser := new Port(reply);
    stepper := new StepperAxis(0);
    camera := new Camera();
    var start := stepper.GetPosition();
    FirstNameText(start);
    camera.Capture(CaptureName(start), ser);
    for i := 0 to Iterations
      invariant ser.written == ScriptWrites(i)
      invariant camera.shots == ScriptShots(i)
      invariant stepper.axis == 0 && stepper.currentPosition == 0 && stepper.lastPosition == 0
    {
      stepper.MoveRelative(Stroke);
      stepper.Update(ser);
      stepper.MoveRelative(-Stroke);
      stepper.Update(ser);
      WritesStep(i, stepper.axis);
      camera.Capture(CaptureName(i), ser);
      ShotsStep(i);
    }
  }

  /** One more iteration appends its two lines. */
  lemma WritesStep(n: nat, axis: int)
    requires axis == 0
    ensures ScriptWrites(n + 1) == ScriptWrites(n) + UpdateWrites(axis, 0, Stroke) + UpdateWrites(axis, Stroke, 0)
  {
    UpdateText(axis, 0, Stroke);
    UpdateText(axis, Stroke, 0);
    var w, w' := ScriptWrites(n), ScriptWrites(n + 1);
    forall k | 0 <= k < |w'|
      ensures w'[k] == (w + [Out] + [Back])[k]
    {
      if k == 2 * n {
        assert k % 2 == 0;
      } else if k == 2 * n + 1 {
        assert k % 2 == 1;
      }
    }
  }

  /** One more iteration appends its picture. */
  lemma ShotsStep(n: nat)
    ensures ScriptShots(n + 1) == ScriptShots(n) + [Shot(CaptureName(n), 2 * (n + 1))]
  {
    assert LoopShots(n + 1) == LoopShots(n) + [Shot(CaptureName(n), 2 * (n + 1))];
  }

  /** Sixty-four GO lines and thirty-three pictures in all. */
  lemma WholeRunCounts()
    ensures |ScriptWrites(Iterations)| == 64
    ensures |ScriptShots(Iterations)| == 33
  {
  }

  /** Iteration i sends "out" as line 2i and "back" as line 2i + 1. */
  lemma ScriptWritesAt(i: nat)
    requires i < Iterations
    ensures |ScriptWrites(Iterations)| == 2 * Iterations
    ensures ScriptWrites(Iterations)[2 * i] == Out
    ensures ScriptWrites(Iterations)[2 * i + 1] == Back
  {
    assert (2 * i) % 2 == 0 && (2 * i + 1) % 2 == 1;
  }

  /**
   * The first picture is taken before anything is written, and the picture
   * of iteration i is named after i and taken once the 2(i + 1) lines up to
   * and including that iteration's two have been written.
   */
  lemma ScriptShotsAt(i: nat)
    requires i < Iterations
    ensures |ScriptShots(Iterations)| == Iterations + 1
    ensures ScriptShots(Iterations)[0] == Shot(FirstName, 0)
    ensures ScriptShots(Iterations)[i + 1] == Shot(CaptureName(i), 2 * (i + 1))
  {
    assert ScriptShots(Iterations)[i + 1] == LoopShots(Iterations)[i];
  }

  /** The picture of iteration 0 gets the same file name as the starting picture. */
  lemma FirstNameReused()
    ensures ScriptShots(Iterations)[0].name == ScriptShots(Iterations)[1].name
  {
    ScriptShotsAt(0);
    FirstNameText(0);
  }

  /** Other iterations' pictures have names of their own. */
  lemma LoopNamesDistinct(i: nat, j: nat)
    requires i < j < Iterations
    ensures |ScriptShots(Iterations)| == Iterations + 1
    ensures ScriptShots(Iterations)[i + 1].name != ScriptShots(Iterations)[j + 1].name
  {
    ScriptShotsAt(i);
    ScriptShotsAt(j);
    CaptureNamesDistinct(i, j);
  }

  /** '%010d.jpg' names of distinct numbers below 10^10 are distinct. */
  lemma CaptureNamesDistinct(i: int, j: int)
    requires 0 <= i < 10_000_000_000 && 0 <= j < 10_000_000_000 && i != j
    ensures CaptureName(i) != CaptureName(j)
  {
    Format010dRoundTrip(i);
    Format010dRoundTrip(j);
    assert CaptureName(i)[..10] == Format010d(i);
    assert CaptureName(j)[..10] == Format010d(j);
  }

  /** The lines of one iteration, as they appear on the wire. */
  lemma IterationText()
    ensures GoCommand(0, Stroke, Stroke) == Out
    ensures GoCommand(0, 0, Stroke) == Back
  {
    assert IntToString(0) == "0";
    assert NatToString(4) == "4";
    assert NatToString(40) == NatToString(4) + "0";
    assert NatToString(400) == NatToString(40) + "0";
    assert NatToString(4000) == NatToString(400) + "0";
  }

  /** What update sends for the two moves of an iteration. */
  lemma UpdateText(axis: int, last: int, current: int)
    ensures axis == 0 && last == 0 && current == Stroke ==> UpdateWrites(axis, last, current) == [Out]
    ensures axis == 0 && last == Stroke && current == 0 ==> UpdateWrites(axis, last, current) == [Back]
  {
    IterationText();
  }

  /** The name of the first picture, taken at position 0. */
  lemma FirstNameText(position: int)
    ensures position == 0 ==> CaptureName(position) == FirstName
  {
    assert NatToString(0) == "0";
    assert ZeroFill(9) == "000000000";
  }
}
