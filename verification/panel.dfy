/**
 * The six position slots of the stage control panel. Pressing `P1`..`P6` while recording stores
 * whatever the position query returns in that slot, `None` included; pressing it otherwise sends
 * the stage back to the stored position, or does nothing when the slot is empty.
 */
module PositionSlots {
  import opened Maybe
  import opened Transport
  import opened PositionReport
  import opened Stage

  const SlotCount := 6

  datatype Panel = Panel(recording: bool, slots: seq<Option<Position>>)

  /** The slot part of a panel: exactly six slots. */
  predicate Valid(p: Panel) {
    |p.slots| == SlotCount
  }

  /** A fresh panel: not recording, every slot empty. */
  function NewPanel(): (p: Panel)
    ensures Valid(p) && !p.recording
    ensures forall i :: 0 <= i < |p.slots| ==> p.slots[i].None?
  {
    Panel(false, seq(SlotCount, _ => None))
  }

  /** The record checkbox: switches recording on or off and leaves the slots alone. */
  function SetRecording(p: Panel, on: bool): (r: Panel)
    ensures r.recording == on && r.slots == p.slots
  {
    p.(recording := on)
  }

  /** What recording stores for a `get_position` result: the position, or `None` when the query gave none. */
  function Stored(report: Option<Report>): Option<Position> {
    match report
    case Some(AsTuple(pos)) => Some(pos)
    case _ => None
  }

  /** Recording into slot `m` (counted from 0): the slot takes what the position query returned, `None` included. */
  function Record(p: Panel, l: Link, m: int): (o: Outcome<Panel>)
    requires Valid(p) && 0 <= m < SlotCount
    ensures o.link == GetPosition(l, false).link
    ensures o.Done? <==> GetPosition(l, false).Done?
    ensures o.Done? ==> o.value == p.(slots := p.slots[m := Stored(GetPosition(l, false).value)])
  {
    match GetPosition(l, false)
    case Failed(l', f) => Failed(l', f)
    case Done(l', report) => Done(l', p.(slots := p.slots[m := Stored(report)]))
  }

  /** Recalling slot `m`: an absolute move to the stored position, or nothing when the slot is empty. */
  function Recall(p: Panel, l: Link, m: int): (o: Outcome<Panel>)
    requires Valid(p) && 0 <= m < SlotCount
    ensures p.slots[m].None? ==> o == Done(l, p)
    ensures p.slots[m].Some? ==>
      var pos := p.slots[m].value;
      Exchanged(l, ["G90\n", Frame("G0 X " + pos.x + " Y " + pos.y + " Z " + pos.z)], o)
    ensures o.Done? ==> o.value == p
  {
    match p.slots[m]
    case None => Done(l, p)
    case Some(pos) =>
      match MovePosition(l, Some([pos.x, pos.y, pos.z]))
      case Failed(l', f) => Failed(l', f)
      case Done(l', _) => Done(l', p)
  }

  /**
   * The `P<n>` branch of the button handler. Python raises on a failed query or move, so a
   * `Failed` outcome means no slot changed.
   */
  function PressSlot(p: Panel, l: Link, n: int): (o: Outcome<Panel>)
    requires Valid(p) && 1 <= n <= SlotCount
    ensures o.Done? ==> Valid(o.value) && o.value.recording == p.recording
    ensures o.Done? ==> forall i :: 0 <= i < SlotCount && i != n - 1 ==> o.value.slots[i] == p.slots[i]
    // Recording: the slot takes what the query returned, `None` included; nothing is moved.
    ensures p.recording ==> o.link == GetPosition(l, false).link
    ensures p.recording ==> (o.Done? <==> GetPosition(l, false).Done?)
    ensures p.recording && o.Done? ==>
      (o.value.slots[n - 1].None? <==> GetPosition(l, false).value.None?)
    ensures p.recording && o.Done? ==>
      forall pos :: GetPosition(l, false).value == Some(AsTuple(pos)) ==> o.value.slots[n - 1] == Some(pos)
    // Not recording, empty slot: nothing is sent or read.
    ensures !p.recording && p.slots[n - 1].None? ==> o == Done(l, p)
    // Not recording, filled slot: an absolute move to the stored position; the slots stay as they were.
    ensures !p.recording && p.slots[n - 1].Some? ==>
      var pos := p.slots[n - 1].value;
      Exchanged(l, ["G90\n", Frame("G0 X " + pos.x + " Y " + pos.y + " Z " + pos.z)], o)
    ensures !p.recording && o.Done? ==> o.value == p
  {
    if p.recording then Record(p, l, n - 1) else Recall(p, l, n - 1)
  }

  /** Recording a slot while the controller reports `pos` stores `pos` there and consumes the report and its `ok`. */
  lemma RecordReport(p: Panel, l: Link, n: int, pos: Position, extra: seq<string>, rest: string, later: seq<string>)
    requires Valid(p) && 1 <= n <= SlotCount && p.recording
    requires PlainToken(pos.x) && PlainToken(pos.y) && PlainToken(pos.z) && ExtraFields(extra)
    requires l.incoming == [ReplyLine(pos, extra, rest), "ok\n"] + later
    ensures PressSlot(p, l, n) == Done(Link(l.written + ["M114\n"], [], later), p.(slots := p.slots[n - 1 := Some(pos)]))
  {
    ParseReplyLine(pos, extra, rest);
    OkIsAck();
    assert l.incoming[2..] == later;
    ReportExchange(l, false);
  }

  /**
   * Recording a slot while the controller reports `pos`, then switching recording off and pressing
   * the same slot again, sends the stage back to `pos` with an absolute move.
   */
  lemma RecordThenRecall(p: Panel, l: Link, n: int, pos: Position, extra: seq<string>, rest: string, later: seq<string>)
    requires Valid(p) && 1 <= n <= SlotCount && p.recording
    requires PlainToken(pos.x) && PlainToken(pos.y) && PlainToken(pos.z) && ExtraFields(extra)
    requires l.incoming == [ReplyLine(pos, extra, rest), "ok\n"] + later
    ensures var recorded := PressSlot(p, l, n);
            recorded.Done? &&
            Exchanged(recorded.link, ["G90\n", Frame("G0 X " + pos.x + " Y " + pos.y + " Z " + pos.z)],
                      PressSlot(SetRecording(recorded.value, false), recorded.link, n))
  {
    RecordReport(p, l, n, pos, extra, rest, later);
    var recorded := PressSlot(p, l, n);
    assert recorded.value.slots[n - 1] == Some(pos);
  }
}
