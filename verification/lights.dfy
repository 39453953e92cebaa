/**
 * The illumination client `EnderLights`: one short command per line, each answered by exactly one
 * response line. Unlike the stage, the client does not wait for an `ok`; a line that is not one is
 * only printed. `color` is three separate commands, and `reset` is a fixed sequence of six.
 */
module Lights {
  import opened Text
  import opened Transport

  function Min(a: int, b: int): int {
    if a <= b then a else b
  }

  /**
   * `o` is what sending `lines` one after another, each reading one response, does to `l`. Every
   * line that gets a response is followed by the next; when the responses run out, the line left
   * waiting has still been written and the call never returns.
   */
  ghost predicate Answered<T>(l: Link, lines: seq<string>, o: Outcome<T>) {
    var n := |Unread(l)|;
    && (o.Done? <==> |lines| <= n)
    && o.link.written == l.written + lines[..Min(n + 1, |lines|)]
    && Unread(o.link) == Unread(l)[Min(n, |lines|)..]
    && (o.Failed? ==> o.fault == NeverAnswered)
  }

  /** Two command sequences in a row are one sequence of all their lines. */
  lemma ThenAnswered<T, U>(l: Link, first: seq<string>, o1: Outcome<T>, second: seq<string>, o2: Outcome<U>)
    requires Answered(l, first, o1)
    requires o1.Done? ==> Answered(o1.link, second, o2)
    requires o1.Failed? ==> o2.Failed? && o2.link == o1.link && o2.fault == o1.fault
    ensures Answered(l, first + second, o2)
  {
    if o1.Done? {
      ThenAnsweredDone(l, first, o1, second, o2);
    } else {
      var n := |Unread(l)|;
      assert (first + second)[..Min(n + 1, |first| + |second|)] == first[..n + 1];
    }
  }

  /** Every line of the first sequence was answered: the second continues from the remaining responses. */
  lemma ThenAnsweredDone<T, U>(l: Link, first: seq<string>, o1: Outcome<T>, second: seq<string>, o2: Outcome<U>)
    requires o1.Done? && Answered(l, first, o1)
    requires Answered(o1.link, second, o2)
    ensures Answered(l, first + second, o2)
  {
    var n, a, b := |Unread(l)|, |first|, |second|;
    var u := Unread(o1.link);
    assert a <= n && first[..Min(n + 1, a)] == first;
    assert u == Unread(l)[a..] && |u| == n - a;
    assert o2.Done? <==> a + b <= n;
    var w := Min(|u| + 1, b);
    assert o1.link.written == l.written + first;
    assert o2.link.written == l.written + (first + second[..w]);
    assert first + second[..w] == (first + second)[..Min(n + 1, a + b)];
    assert Unread(o2.link) == u[Min(|u|, b)..] == Unread(l)[Min(n, a + b)..];
  }

  /** `EnderLights.write_code`: send the framed code and read exactly one line, whether or not it is `ok`. */
  function WriteCode(l: Link, code: string): (o: Outcome<string>)
    ensures Answered(l, [Frame(code)], o)
    ensures o.Done? ==> o.value == Unread(l)[0]
  {
    var sent := Write(l, code);
    match ReadLine(sent)
    case None => Failed(sent, NeverAnswered)
    case Some((response, rest)) => Done(rest, response)
  }

  /** A command whose response is dropped. */
  function Command(l: Link, code: string): (o: Outcome<()>)
    ensures Answered(l, [Frame(code)], o)
  {
    match WriteCode(l, code)
    case Done(l', _) => Done(l', ())
    case Failed(l', f) => Failed(l', f)
  }

  /** The frames of the fixed light commands are the codes with one newline appended. */
  lemma ResetFrames()
    ensures Frame("S1") == "S1\n" && Frame("S0") == "S0\n" && Frame("M0") == "M0\n"
    ensures Frame("MA65535\n") == "MA65535\n"
    ensures Frame("R20") == "R20\n" && Frame("G20") == "G20\n" && Frame("B20") == "B20\n"
  {
    FrameAppendsOne("S1");
    FrameAppendsOne("S0");
    FrameAppendsOne("M0");
    FrameAppendsOne("R20");
    FrameAppendsOne("G20");
    FrameAppendsOne("B20");
    assert EndsWith("MA65535\n", "\n");
  }

  /** `shutter`: `S1` opens the virtual shutter, `S0` closes it. */
  function Shutter(l: Link, open: bool): (o: Outcome<()>)
    ensures Answered(l, [if open then "S1\n" else "S0\n"], o)
  {
    ResetFrames();
    Command(l, if open then "S1" else "S0")
  }

  /** `mode`: `M<value>`. */
  function Mode(l: Link, value: Token): (o: Outcome<()>)
    ensures Answered(l, [Frame("M" + value)], o)
  {
    Command(l, "M" + value)
  }

  /** `parameter`: `P<value>`. */
  function Parameter(l: Link, value: Token): (o: Outcome<()>)
    ensures Answered(l, [Frame("P" + value)], o)
  {
    Command(l, "P" + value)
  }

  /** `red`: `R<value>`. */
  function Red(l: Link, value: Token): (o: Outcome<()>)
    ensures Answered(l, [Frame("R" + value)], o)
  {
    Command(l, "R" + value)
  }

  /** `green`: `G<value>`. */
  function Green(l: Link, value: Token): (o: Outcome<()>)
    ensures Answered(l, [Frame("G" + value)], o)
  {
    Command(l, "G" + value)
  }

  /** `blue`: `B<value>`. */
  function Blue(l: Link, value: Token): (o: Outcome<()>)
    ensures Answered(l, [Frame("B" + value)], o)
  {
    Command(l, "B" + value)
  }

  /**
   * `color`: `red`, `green` and `blue` in turn, that is the three commands `R<r>`, `G<g>`, `B<b>`.
   * If the responses run out part-way, the channels already sent stay set.
   */
  function Color(l: Link, r: Token, g: Token, b: Token): (o: Outcome<()>)
    ensures Answered(l, [Frame("R" + r), Frame("G" + g), Frame("B" + b)], o)
  {
    FramesOfThree("R" + r, "G" + g, "B" + b);
    Commands(l, ["R" + r, "G" + g, "B" + b])
  }

  /** The lines the codes become on the wire, one per code. */
  function Frames(codes: seq<string>): (lines: seq<string>)
    ensures |lines| == |codes|
  {
    seq(|codes|, i requires 0 <= i < |codes| => Frame(codes[i]))
  }

  lemma FramesCons(codes: seq<string>)
    requires codes != []
    ensures Frames(codes) == [Frame(codes[0])] + Frames(codes[1..])
  {
    var a, b := Frames(codes), [Frame(codes[0])] + Frames(codes[1..]);
    assert forall i :: 0 <= i < |a| ==> a[i] == b[i];
  }

  lemma FramesOfThree(a: string, b: string, c: string)
    ensures Frames([a, b, c]) == [Frame(a), Frame(b), Frame(c)]
  {
  }

  lemma FramesOfSix(a: string, b: string, c: string, d: string, e: string, f: string)
    ensures Frames([a, b, c, d, e, f]) == [Frame(a), Frame(b), Frame(c), Frame(d), Frame(e), Frame(f)]
  {
  }

  /** Sending `codes` one command at a time, each answered by one line, stopping for good at the first unanswered one. */
  function Commands(l: Link, codes: seq<string>): (o: Outcome<()>)
    ensures Answered(l, Frames(codes), o)
    decreases |codes|
  {
    if codes == [] then Done(l, ())
    else
      var o1 := Command(l, codes[0]);
      var o2 := if o1.Failed? then o1 else Commands(o1.link, codes[1..]);
      ThenAnswered(l, [Frame(codes[0])], o1, Frames(codes[1..]), o2);
      FramesCons(codes);
      o2
  }

  /**
   * What `reset` sends, call by call: `shutter(False)`, `mode(0)`, the line `MA65535\n` passed
   * to `write_code` already framed, and `color(20, 20, 20)`.
   */
  const ResetCodes: seq<string> := ["S0", "M0", "MA65535\n", "R20", "G20", "B20"]

  /** The lines `reset` puts on the wire: shutter closed, mode 0, the `MA65535` setting, colour 20/20/20. */
  const ResetLines: seq<string> := ["S0\n", "M0\n", "MA65535\n", "R20\n", "G20\n", "B20\n"]

  lemma ResetFramed()
    ensures Frames(ResetCodes) == ResetLines
  {
    FramesOfSix("S0", "M0", "MA65535\n", "R20", "G20", "B20");
    ResetFrames();
  }

  /** `reset`: the six commands in order; if the light controller stops answering, the rest are never sent. */
  function Reset(l: Link): (o: Outcome<()>)
    ensures Answered(l, ResetLines, o)
  {
    ResetFramed();
    Commands(l, ResetCodes)
  }
}
