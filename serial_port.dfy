/**
 * The serial link of the Python tester (a `serial.Serial` object), reduced
 * to what the client does with it: every `write` is logged in order, and
 * `read` takes the next byte of what the device sends.  The device's reply
 * is fixed in advance as `input`; once it is used up, `read` gives "" — the
 * model of a read that times out with nothing received.
 */
module SerialPort {
  class Port {
    /** What the device will still send, in order. */
    var input: string
    /** Every string written to the port so far, one entry per `write`. */
    var written: seq<string>

    constructor (reply: string)
      ensures input == reply && written == []
    {
      input := reply;
      written := [];
    }

    /** `ser.write(s)`. */
    method Write(s: string)
      modifies this`written
      ensures written == old(written) + [s]
    {
      written := written + [s];
    }

    /** `ser.read()`: one byte, or "" when the device has nothing left to send. */
    method Read() returns (c: string)
      modifies this`input
      ensures old(input) == [] ==> c == "" && input == []
      ensures old(input) != [] ==> c == [old(input)[0]] && input == old(input)[1..]
      ensures c + input == old(input)
    {
      if input == [] {
        c := "";
      } else {
        c := [input[0]];
        input := input[1..];
      }
    }
  }
}
