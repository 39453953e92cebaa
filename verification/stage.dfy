/**
 * The motion-controller client `Stage`. Every command is one G-code line. The client then reads
 * response lines until one starts with `ok`; lines before it are diagnostics and are discarded.
 * Moves first put the controller in absolute (`G90`) or relative (`G91`) mode.
 * `get_position` flushes stale input, sends `M114` and reads exactly two lines: the report and
 * its acknowledgement.
 */
module Stage {
  import opened Maybe
  import opened Text
  import opened Transport
  import opened PositionReport

  /** The codes of `G_CODES`. */
  const AbsoluteCode := "G90"
  const RelativeCode := "G91"
  const HomingCode := "G28"
  const FinishCode := "M400"
  const PositionCode := "M114"

  /** An acknowledgement: a response line starting with `ok`. */
  predicate IsAck(line: string) {
    StartsWith(line, "ok")
  }

  /** The plain acknowledgement line. */
  lemma OkIsAck()
    ensures IsAck("ok\n")
  {
    assert "ok\n"[..2] == "ok";
  }

  // ---------------------------------------------------------------------------------------------
  // The acknowledgement discipline, stated on the raw response stream.

  /** The response stream from its first `ok` line on, or `None` when no line of it is an `ok`. */
  function FromAck(s: seq<string>): (r: Option<seq<string>>)
    ensures r.Some? ==> r.value != [] && IsAck(r.value[0])
    decreases |s|
  {
    if s == [] then None else if IsAck(s[0]) then Some(s) else FromAck(s[1..])
  }

  /** How many `ok` lines the stream holds. */
  function AcksIn(s: seq<string>): nat
    decreases |s|
  {
    if s == [] then 0 else (if IsAck(s[0]) then 1 else 0) + AcksIn(s[1..])
  }

  /** What is left of the stream after `n` commands have each consumed their lines up to and including an `ok`. */
  function AfterAcks(s: seq<string>, n: nat): Option<seq<string>>
    decreases n
  {
    if n == 0 then Some(s)
    else match FromAck(s)
      case None => None
      case Some(t) => AfterAcks(t[1..], n - 1)
  }

  /** Line `i` is the first `ok` line of the stream. */
  predicate FirstAckAt(s: seq<string>, i: int) {
    0 <= i < |s| && IsAck(s[i]) && forall j :: 0 <= j < i ==> !IsAck(s[j])
  }

  /** `FromAck` finds an `ok` line exactly when one exists, and it finds the first one. */
  lemma {:induction false} FromAckIsFirstAck(s: seq<string>)
    ensures FromAck(s).Some? <==> exists i :: 0 <= i < |s| && IsAck(s[i])
    ensures forall i :: FirstAckAt(s, i) ==> FromAck(s) == Some(s[i..])
    decreases |s|
  {
    if s != [] {
      FromAckIsFirstAck(s[1..]);
      if !IsAck(s[0]) {
        forall i | FirstAckAt(s, i) ensures FromAck(s) == Some(s[i..]) {
          assert i > 0;
          assert FirstAckAt(s[1..], i - 1);
          assert s[1..][i - 1..] == s[i..];
        }
        if exists i :: 0 <= i < |s| && IsAck(s[i]) {
          var i :| 0 <= i < |s| && IsAck(s[i]);
          assert i > 0 && IsAck(s[1..][i - 1]);
        }
        if exists i :: 0 <= i < |s[1..]| && IsAck(s[1..][i]) {
          var i :| 0 <= i < |s[1..]| && IsAck(s[1..][i]);
          assert IsAck(s[i + 1]);
        }
      } else {
        assert IsAck(s[0]);
        forall i | FirstAckAt(s, i) ensures i == 0 {}
      }
    }
  }

  /** An `ok` line exists exactly when the count of them is positive; the first one uses up one. */
  lemma {:induction false} FromAckCount(s: seq<string>)
    ensures FromAck(s).Some? <==> AcksIn(s) > 0
    ensures FromAck(s).Some? ==> AcksIn(FromAck(s).value[1..]) == AcksIn(s) - 1
    decreases |s|
  {
    if s != [] && !IsAck(s[0]) {
      FromAckCount(s[1..]);
    }
  }

  /** `n` commands can all be acknowledged exactly when the stream holds at least `n` `ok` lines. */
  lemma {:induction false} AfterAcksCount(s: seq<string>, n: nat)
    ensures AfterAcks(s, n).Some? <==> n <= AcksIn(s)
    ensures AfterAcks(s, n).Some? ==> AcksIn(AfterAcks(s, n).value) == AcksIn(s) - n
    decreases n
  {
    FromAckCount(s);
    if n > 0 && FromAck(s).Some? {
      AfterAcksCount(FromAck(s).value[1..], n - 1);
    }
  }

  /**
   * `o` is what sending `lines` one after another, each awaiting its `ok`, does to `l`. On success
   * every line is written and the stream is consumed through the `|lines|`-th `ok` line. When the
   * `ok` lines run out first, the call never returns: the lines up to the one left waiting are
   * written and the whole stream has been read.
   */
  ghost predicate Exchanged<T>(l: Link, lines: seq<string>, o: Outcome<T>) {
    && (o.Done? <==> AfterAcks(Unread(l), |lines|).Some?)
    && (o.Done? ==> o.link.written == l.written + lines && Unread(o.link) == AfterAcks(Unread(l), |lines|).value)
    && (o.Failed? ==>
          && o.fault == NeverAnswered
          && AcksIn(Unread(l)) < |lines|
          && Unread(o.link) == []
          && o.link.written == l.written + lines[..AcksIn(Unread(l)) + 1])
  }

  /** Two exchanges in a row are one exchange of all their lines. */
  lemma ThenExchanged<T, U>(l: Link, first: seq<string>, o1: Outcome<T>, second: seq<string>, o2: Outcome<U>)
    requires |first| == 1
    requires Exchanged(l, first, o1)
    requires o1.Done? ==> Exchanged(o1.link, second, o2)
    requires o1.Failed? ==> o2.Failed? && o2.link == o1.link && o2.fault == o1.fault
    ensures Exchanged(l, first + second, o2)
  {
    if o1.Done? {
      ThenExchangedDone(l, first, o1, second, o2);
    } else {
      var s := Unread(l);
      AfterAcksCount(s, 1);
      AfterAcksCount(s, 1 + |second|);
      assert (first + second)[..AcksIn(s) + 1] == first;
    }
  }

  /** The first exchange went through: the second continues from where it left the stream. */
  lemma ThenExchangedDone<T, U>(l: Link, first: seq<string>, o1: Outcome<T>, second: seq<string>, o2: Outcome<U>)
    requires |first| == 1 && o1.Done?
    requires Exchanged(l, first, o1)
    requires Exchanged(o1.link, second, o2)
    ensures Exchanged(l, first + second, o2)
  {
    var s, t := Unread(l), Unread(o1.link);
    AfterAcksCount(s, 1);
    AfterAcksCount(t, |second|);
    assert AfterAcks(s, 1) == Some(t);
    assert AfterAcks(s, 1 + |second|) == AfterAcks(t, |second|);
    AfterAcksCount(s, 1 + |second|);
    if o2.Failed? {
      assert (first + second)[..AcksIn(s) + 1] == first + second[..AcksIn(t) + 1];
    }
  }

  // ---------------------------------------------------------------------------------------------
  // `write_code` and the commands built from it.

  /** The `while not response.startswith('ok')` loop, entered with the line just read. */
  function AwaitAck(l: Link, response: string): (o: Outcome<string>)
    ensures o.link.written == l.written
    ensures o.Done? <==> FromAck([response] + Unread(l)).Some?
    ensures o.Done? ==> o.value == FromAck([response] + Unread(l)).value[0]
    ensures o.Done? ==> Unread(o.link) == FromAck([response] + Unread(l)).value[1..]
    ensures o.Failed? ==> o.fault == NeverAnswered && Unread(o.link) == []
    ensures l.pending == [] ==> o.link.pending == []
    decreases |Unread(l)|
  {
    assert ([response] + Unread(l))[1..] == Unread(l);
    if IsAck(response) then Done(l, response)
    else match ReadLine(l)
      case None => Failed(l, NeverAnswered)
      case Some((next, rest)) =>
        assert [next] + Unread(rest) == Unread(l);
        AwaitAck(rest, next)
  }

  /**
   * `Stage.write_code`: send the framed code, read one line, and with `check_ok` keep reading
   * until a line starts with `ok`. Returns the last line read.
   */
  function WriteCode(l: Link, code: string, checkOk: bool := true): (o: Outcome<string>)
    ensures o.link.written == l.written + [Frame(code)]
    ensures !checkOk ==> (o.Done? <==> Unread(l) != [])
    ensures !checkOk && o.Done? ==> o.value == Unread(l)[0] && Unread(o.link) == Unread(l)[1..]
    ensures checkOk ==> (o.Done? <==> FromAck(Unread(l)).Some?)
    ensures checkOk && o.Done? ==> o.value == FromAck(Unread(l)).value[0]
    ensures checkOk && o.Done? ==> Unread(o.link) == FromAck(Unread(l)).value[1..]
    ensures o.Failed? ==> o.fault == NeverAnswered && Unread(o.link) == []
    ensures l.pending == [] ==> o.link.pending == []
  {
    var sent := Write(l, code);
    match ReadLine(sent)
    case None => Failed(sent, NeverAnswered)
    case Some((response, rest)) =>
      if checkOk then
        assert [response] + Unread(rest) == Unread(l);
        AwaitAck(rest, response)
      else Done(rest, response)
  }

  /**
   * With `check_ok`, `write_code` consumes the responses up to and including the first `ok`
   * line and returns that line; the lines before it are discarded and nothing after it is read.
   */
  lemma AckLoopStopsAtFirstOk(l: Link, code: string, i: int)
    requires FirstAckAt(Unread(l), i)
    ensures WriteCode(l, code, true).Done?
    ensures WriteCode(l, code, true).value == Unread(l)[i]
    ensures Unread(WriteCode(l, code, true).link) == Unread(l)[i + 1..]
  {
    FromAckIsFirstAck(Unread(l));
    assert Unread(l)[i..][1..] == Unread(l)[i + 1..];
  }

  /** Without an `ok` line in the stream, `write_code` with `check_ok` never returns. */
  lemma AckLoopWithoutOk(l: Link, code: string)
    requires forall i :: 0 <= i < |Unread(l)| ==> !IsAck(Unread(l)[i])
    ensures WriteCode(l, code, true).Failed?
    ensures WriteCode(l, code, true).fault == NeverAnswered
  {
    FromAckIsFirstAck(Unread(l));
  }

  /** The fixed codes go out with one newline each. */
  lemma FixedCodesFramed()
    ensures Frame(AbsoluteCode) == "G90\n" && Frame(RelativeCode) == "G91\n"
    ensures Frame(HomingCode) == "G28\n" && Frame(FinishCode) == "M400\n" && Frame(PositionCode) == "M114\n"
  {
    FrameAppendsOne(AbsoluteCode);
    assert AbsoluteCode + "\n" == "G90\n";
    FrameAppendsOne(RelativeCode);
    assert RelativeCode + "\n" == "G91\n";
    FrameAppendsOne(HomingCode);
    assert HomingCode + "\n" == "G28\n";
    FrameAppendsOne(FinishCode);
    assert FinishCode + "\n" == "M400\n";
    FrameAppendsOne(PositionCode);
    assert PositionCode + "\n" == "M114\n";
  }

  /** `write_code(code)` as the other methods call it: awaiting `ok`, the returned line dropped. */
  function Acked(l: Link, code: string): (o: Outcome<()>)
    ensures Exchanged(l, [Frame(code)], o)
  {
    AfterAcksCount(Unread(l), 1);
    FromAckCount(Unread(l));
    match WriteCode(l, code, true)
    case Done(l', _) => Done(l', ())
    case Failed(l', f) => Failed(l', f)
  }

  function SetAbsolute(l: Link): (o: Outcome<()>)
    ensures Exchanged(l, ["G90\n"], o)
  {
    FixedCodesFramed();
    Acked(l, AbsoluteCode)
  }

  function SetRelative(l: Link): (o: Outcome<()>)
    ensures Exchanged(l, ["G91\n"], o)
  {
    FixedCodesFramed();
    Acked(l, RelativeCode)
  }

  function Home(l: Link): (o: Outcome<()>)
    ensures Exchanged(l, ["G28\n"], o)
  {
    FixedCodesFramed();
    Acked(l, HomingCode)
  }

  function FinishMoves(l: Link): (o: Outcome<()>)
    ensures Exchanged(l, ["M400\n"], o)
  {
    FixedCodesFramed();
    Acked(l, FinishCode)
  }

  // ---------------------------------------------------------------------------------------------
  // Coordinate mode, as the controller sees it.

  datatype Mode = Unset | AbsoluteMode | RelativeMode

  /** The mode the controller is in after executing `written`: the last `G90` or `G91` decides. */
  function ModeOf(written: seq<string>): Mode
    decreases |written|
  {
    if written == [] then Unset
    else if written[|written| - 1] == "G90\n" then AbsoluteMode
    else if written[|written| - 1] == "G91\n" then RelativeMode
    else ModeOf(written[..|written| - 1])
  }

  /** A move line leaves the mode as the line before it set it. */
  lemma ModeAfterMove(before: seq<string>, mode: string, code: string)
    requires mode == "G90\n" || mode == "G91\n"
    requires StartsWith(code, "G0 ")
    ensures ModeOf(before + [mode, Frame(code)]) == (if mode == "G90\n" then AbsoluteMode else RelativeMode)
  {
    var w := before + [mode, Frame(code)];
    assert Frame(code)[1] == code[1] == '0';
    assert w[..|w| - 1] == before + [mode];
  }

  // ---------------------------------------------------------------------------------------------
  // Moves.

  /** The move line of `move_absolute` and `move_relative`: `G0 X {x} Y {y}`, with ` Z {z}` only when `z` is given. */
  function MoveLine(x: Token, y: Token, z: Option<Token>): string {
    if z.None? then "G0 X " + x + " Y " + y else "G0 X " + x + " Y " + y + " Z " + z.value
  }

  /** Sends a mode command, then (once it is acknowledged) a move. */
  function ModeThenMove(l: Link, modeCode: string, move: string): (o: Outcome<()>)
    ensures Exchanged(l, [Frame(modeCode), Frame(move)], o)
  {
    var o1 := Acked(l, modeCode);
    var o2 := if o1.Failed? then Failed(o1.link, o1.fault) else Acked(o1.link, move);
    ThenExchanged(l, [Frame(modeCode)], o1, [Frame(move)], o2);
    assert [Frame(modeCode)] + [Frame(move)] == [Frame(modeCode), Frame(move)];
    o2
  }

  /** `G90` and a move line, each awaiting `ok`; afterwards the controller is in absolute mode. */
  function AbsoluteMove(l: Link, move: string): (o: Outcome<()>)
    requires StartsWith(move, "G0 ")
    ensures Exchanged(l, ["G90\n", Frame(move)], o)
    ensures o.Done? ==> ModeOf(o.link.written) == AbsoluteMode
  {
    FixedCodesFramed();
    var o := ModeThenMove(l, AbsoluteCode, move);
    if o.Done? then ModeAfterMove(l.written, "G90\n", move); o else o
  }

  /** `G91` and a move line, each awaiting `ok`; afterwards the controller is in relative mode. */
  function RelativeMove(l: Link, move: string): (o: Outcome<()>)
    requires StartsWith(move, "G0 ")
    ensures Exchanged(l, ["G91\n", Frame(move)], o)
    ensures o.Done? ==> ModeOf(o.link.written) == RelativeMode
  {
    FixedCodesFramed();
    var o := ModeThenMove(l, RelativeCode, move);
    if o.Done? then ModeAfterMove(l.written, "G91\n", move); o else o
  }

  /** `move_absolute`: `G90`, then the move line, each awaiting `ok`. */
  function MoveAbsolute(l: Link, x: Token, y: Token, z: Option<Token> := None): (o: Outcome<()>)
    ensures z.None? ==> Exchanged(l, ["G90\n", Frame("G0 X " + x + " Y " + y)], o)
    ensures z.Some? ==> Exchanged(l, ["G90\n", Frame("G0 X " + x + " Y " + y + " Z " + z.value)], o)
    ensures o.Done? ==> ModeOf(o.link.written) == AbsoluteMode
  {
    AbsoluteMove(l, MoveLine(x, y, z))
  }

  /** `move_relative`: `G91`, then the move line, each awaiting `ok`. */
  function MoveRelative(l: Link, x: Token, y: Token, z: Option<Token> := None): (o: Outcome<()>)
    ensures z.None? ==> Exchanged(l, ["G91\n", Frame("G0 X " + x + " Y " + y)], o)
    ensures z.Some? ==> Exchanged(l, ["G91\n", Frame("G0 X " + x + " Y " + y + " Z " + z.value)], o)
    ensures o.Done? ==> ModeOf(o.link.written) == RelativeMode
  {
    RelativeMove(l, MoveLine(x, y, z))
  }

  /**
   * `move_position`: nothing for `None`; a 2- or 3-tuple is spread into `move_absolute`; any other
   * length makes Python raise TypeError before anything is sent.
   */
  function MovePosition(l: Link, p: Option<seq<Token>>): (o: Outcome<()>)
    ensures p.None? ==> o == Done(l, ())
    ensures p.Some? && |p.value| == 2 ==> Exchanged(l, ["G90\n", Frame("G0 X " + p.value[0] + " Y " + p.value[1])], o)
    ensures p.Some? && |p.value| == 3 ==>
      Exchanged(l, ["G90\n", Frame("G0 X " + p.value[0] + " Y " + p.value[1] + " Z " + p.value[2])], o)
    ensures p.Some? && |p.value| != 2 && |p.value| != 3 ==> o == Failed(l, TypeError(|p.value|))
  {
    match p
    case None => Done(l, ())
    case Some(t) =>
      if |t| == 2 then MoveAbsolute(l, t[0], t[1], None)
      else if |t| == 3 then MoveAbsolute(l, t[0], t[1], Some(t[2]))
      else Failed(l, TypeError(|t|))
  }

  /** `DIRECTION_PREFIXES`: the signed axis each named direction moves along. */
  function DirectionPrefix(name: string): Option<string> {
    match name
    case "north" => Some("Y")
    case "south" => Some("Y-")
    case "east" => Some("X")
    case "west" => Some("X-")
    case "up" => Some("Z")
    case "down" => Some("Z-")
    case _ => None
  }

  /**
   * `move_towards`: `G91`, then `G0 <prefix><distance>` for the lower-cased direction. An unknown
   * direction raises KeyError only after `G91` has been sent and acknowledged. The table lookup
   * has no effect on the link, so it is consulted first here.
   */
  function MoveTowards(l: Link, direction: string, distance: Token): (o: Outcome<()>)
    ensures DirectionPrefix(Lower(direction)).Some? ==>
      Exchanged(l, ["G91\n", Frame("G0 " + DirectionPrefix(Lower(direction)).value + distance)], o)
    ensures DirectionPrefix(Lower(direction)).Some? && o.Done? ==> ModeOf(o.link.written) == RelativeMode
    ensures DirectionPrefix(Lower(direction)).None? ==> o.Failed? && o.link.written == l.written + ["G91\n"]
    ensures DirectionPrefix(Lower(direction)).None? && AfterAcks(Unread(l), 1).Some? ==>
      o.fault == KeyError(Lower(direction)) && Unread(o.link) == AfterAcks(Unread(l), 1).value
    ensures DirectionPrefix(Lower(direction)).None? && AfterAcks(Unread(l), 1).None? ==> o.fault == NeverAnswered
  {
    match DirectionPrefix(Lower(direction))
    case Some(prefix) => RelativeMove(l, "G0 " + prefix + distance)
    case None =>
      match SetRelative(l)
      case Failed(l', f) => Failed(l', f)
      case Done(l', _) => Failed(l', KeyError(Lower(direction)))
  }

  /** `move_axis`: `G91`, then `G0 <AXIS><distance>` with the axis name upper-cased. */
  function MoveAxis(l: Link, axis: string, distance: Token): (o: Outcome<()>)
    ensures Exchanged(l, ["G91\n", Frame("G0 " + Upper(axis) + distance)], o)
    ensures o.Done? ==> ModeOf(o.link.written) == RelativeMode
  {
    RelativeMove(l, "G0 " + Upper(axis) + distance)
  }

  /** The direction name is matched without regard to case. */
  lemma TowardsIgnoresCase(l: Link, direction: string, distance: Token)
    ensures MoveTowards(l, direction, distance) == MoveTowards(l, Lower(direction), distance)
  {
    LowerIdempotent(direction);
  }

  /** A named direction is a signed move along one axis: `move_towards` sends what `move_axis` would. */
  lemma TowardsIsAxisMove(l: Link, direction: string, distance: Token)
    requires DirectionPrefix(Lower(direction)).Some?
    ensures var prefix := DirectionPrefix(Lower(direction)).value;
      MoveTowards(l, direction, distance) == MoveAxis(l, prefix[..1], prefix[1..] + distance)
  {
    var prefix := DirectionPrefix(Lower(direction)).value;
    assert Upper(prefix[..1]) == prefix[..1];
    assert "G0 " + prefix[..1] + (prefix[1..] + distance) == "G0 " + prefix + distance;
  }

  // ---------------------------------------------------------------------------------------------
  // Position query.

  /**
   * `get_position`: flush, send `M114` without awaiting `ok`, then read the acknowledgement line.
   * A second line not starting with `ok` gives `None`; otherwise the report line is parsed.
   */
  function GetPosition(l: Link, asDict: bool := false): (o: Outcome<Option<Report>>)
    ensures o.link.written == l.written + ["M114\n"]
    ensures o.link.pending == []
    ensures |l.incoming| < 2 <==> o.Failed? && o.fault == NeverAnswered
    ensures |l.incoming| >= 2 ==> Unread(o.link) == l.incoming[2..]
    ensures |l.incoming| >= 2 && !IsAck(l.incoming[1]) ==> o == Done(o.link, None)
    ensures |l.incoming| >= 2 && IsAck(l.incoming[1]) ==>
      match ParseReport(l.incoming[0], asDict)
      case Ok(r) => o == Done(o.link, Some(r))
      case Err(e) => o == Failed(o.link, e)
    ensures o.Done? && o.value.Some? ==> (if asDict then o.value.value.AsMapping? else o.value.value.AsTuple?)
  {
    FixedCodesFramed();
    var flushed := Flush(l);
    match WriteCode(flushed, PositionCode, false)
    case Failed(l1, f) => Failed(l1, f)
    case Done(l1, response) =>
      match ReadLine(l1)
      case None => Failed(l1, NeverAnswered)
      case Some((ack, l2)) =>
        if !IsAck(ack) then Done(l2, None)
        else match ParseReport(response, asDict)
          case Err(e) => Failed(l2, e)
          case Ok(r) => Done(l2, Some(r))
  }

  /** A report line followed by an `ok` line: the query returns the parsed report and leaves the rest of the stream unread. */
  lemma ReportExchange(l: Link, asDict: bool)
    requires |l.incoming| >= 2 && IsAck(l.incoming[1]) && ParseReport(l.incoming[0], asDict).Ok?
    ensures GetPosition(l, asDict)
         == Done(Link(l.written + ["M114\n"], [], l.incoming[2..]), Some(ParseReport(l.incoming[0], asDict).value))
  {
    var o := GetPosition(l, asDict);
    assert o.link.incoming == Unread(o.link);
  }
}
