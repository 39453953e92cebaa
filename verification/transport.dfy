/**
 * The shared line transport of `SerialDevice`: newline framing on write, line reads,
 * and draining stale input. Both protocol clients talk through it.
 *
 * The serial port is a pure value. `written` holds every line sent so far. The lines the
 * device sends back are split in two: `pending` lines have already arrived and sit in the
 * input buffer; `incoming` lines will arrive later, in order. The two sequences together are
 * everything the device will ever send. A read that finds both empty would wait forever in
 * the program (pyserial reads without a timeout); the model reports that as `NeverAnswered`.
 */
module Transport {
  import opened Maybe
  import opened Text

  datatype Link = Link(written: seq<string>, pending: seq<string>, incoming: seq<string>)

  /** Why an operation does not return normally: it waits forever, or Python raises. */
  datatype Fault =
    | NeverAnswered           // the device sends no further line, so the read never returns
    | KeyError(key: string)   // a dictionary lookup of a missing key
    | IndexError(token: string) // `token.split(':')[1]` on a token without a colon
    | TypeError(count: nat)   // a position with an argument count `move_absolute` cannot take

  /** The link after an operation, with its Python return value or the reason it did not return. */
  datatype Outcome<+T> = Done(link: Link, value: T) | Failed(link: Link, fault: Fault)

  /** Every line the device has sent or will send that nobody has read yet, in order. */
  function Unread(l: Link): seq<string> {
    l.pending + l.incoming
  }

  /** The line `write_code` puts on the wire: `code` with a newline appended unless it already ends in one. */
  function Frame(code: string): (line: string)
    ensures EndsWith(line, "\n")
    ensures StartsWith(line, code) && |line| <= |code| + 1
    ensures EndsWith(code, "\n") ==> line == code
  {
    if EndsWith(code, "\n") then code else code + "\n"
  }

  /** A code whose last character is not a newline, the empty code included, gains exactly one. */
  lemma FrameAppendsOne(code: string)
    requires code == [] || code[|code| - 1] != '\n'
    ensures Frame(code) == code + "\n" && |Frame(code)| == |code| + 1
  {
    if code != [] {
      assert code[|code| - 1..][0] == code[|code| - 1];
    }
  }

  /** Framing an already framed line changes nothing. */
  lemma FrameIdempotent(code: string)
    ensures Frame(Frame(code)) == Frame(code)
  {
  }

  /** `write_code` of the transport: send one framed line. */
  function Write(l: Link, code: string): Link {
    l.(written := l.written + [Frame(code)])
  }

  /** `readline()`: the next unread line, buffered lines first; `None` when the device never sends another. */
  function ReadLine(l: Link): (r: Option<(string, Link)>)
    ensures r.Some? <==> Unread(l) != []
    ensures r.Some? ==> r.value.0 == Unread(l)[0] && Unread(r.value.1) == Unread(l)[1..]
    ensures r.Some? ==> r.value.1.written == l.written
    ensures r.Some? && l.pending == [] ==> r.value.1.pending == []
  {
    if l.pending != [] then Some((l.pending[0], l.(pending := l.pending[1..])))
    else if l.incoming != [] then Some((l.incoming[0], l.(incoming := l.incoming[1..])))
    else None
  }

  /**
   * `flush_serial_buffer`: read while input is waiting. Afterwards nothing is buffered; what the
   * device sends later and what was written are untouched.
   */
  function Flush(l: Link): (r: Link)
    ensures r.pending == []
    ensures r.incoming == l.incoming && r.written == l.written
    ensures Unread(l) == l.pending + Unread(r)
    decreases |l.pending|
  {
    if |l.pending| > 0 then Flush(l.(pending := l.pending[1..])) else l
  }
}
