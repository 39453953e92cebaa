/**
 * Parsing the controller's answer to `M114` (report current position), as `Stage.get_position`
 * does it: keep the text before ` Count`, split it on whitespace, read each `key:value` token
 * into a dictionary, and, unless a mapping was asked for, pick out X, Y and Z in that order.
 * Values are kept as the text the controller sent; the program's `float()` conversion is not modelled.
 */
module PositionReport {
  import opened Maybe
  import opened Text
  import opened Transport

  datatype Position = Position(x: Token, y: Token, z: Token)

  /** What `get_position` hands back: the `(X, Y, Z)` tuple, or the whole dictionary when `as_dict` is set. */
  datatype Report = AsTuple(position: Position) | AsMapping(fields: map<string, Token>)

  /** `part.split(':')[0]` */
  function KeyOf(part: string): string {
    PrefixBefore(part, ":")
  }

  /**
   * `part.split(':')[1]`, or `None` where Python raises IndexError because the token has no colon.
   * The value is the text after the first colon, up to the next colon or the end of the token.
   */
  function ValueOf(part: string): (v: Option<Token>)
    ensures v.None? <==> Lacks(part, ':')
    ensures v.Some? ==>
      var k := KeyOf(part);
      var end := |k| + 1 + |v.value|;
      && Lacks(k, ':') && |k| < |part| && part[|k|] == ':'
      && end <= |part| && part[|k| + 1..end] == v.value && Lacks(v.value, ':')
      && (end == |part| || part[end] == ':')
  {
    var key := KeyOf(part);
    PrefixBeforeChar(part, ':');
    assert |key| == |part| ==> key == part;
    if |key| == |part| then None
    else
      var after := part[|key| + 1..];
      var value := PrefixBefore(after, ":");
      PrefixBeforeChar(after, ':');
      assert after[..|value|] == value;
      Some(value)
  }

  /** No later token carries the same key as token `i`. */
  predicate LastWithKey(parts: seq<string>, i: int)
    requires 0 <= i < |parts|
  {
    forall j :: i < j < |parts| ==> KeyOf(parts[j]) != KeyOf(parts[i])
  }

  predicate HasKey(parts: seq<string>, k: string) {
    exists i :: 0 <= i < |parts| && KeyOf(parts[i]) == k
  }

  /**
   * The dictionary comprehension `{key: value for part in parts}`, continued from `acc`.
   * It fails on the first token without a colon; otherwise each key maps to the value of the
   * last token carrying it, and keys no token carries keep their value from `acc`.
   */
  function Collect(parts: seq<string>, acc: map<string, Token>): (r: Result<map<string, Token>, Fault>)
    ensures r.Ok? <==> forall i :: 0 <= i < |parts| ==> ValueOf(parts[i]).Some?
    ensures r.Err? ==> exists i :: 0 <= i < |parts| && ValueOf(parts[i]).None? && r.error == IndexError(parts[i])
    ensures r.Ok? ==> forall k :: k in r.value <==> k in acc || HasKey(parts, k)
    ensures r.Ok? ==> forall i :: 0 <= i < |parts| && LastWithKey(parts, i) ==>
                        KeyOf(parts[i]) in r.value && r.value[KeyOf(parts[i])] == ValueOf(parts[i]).value
    ensures r.Ok? ==> forall k :: k in acc && !HasKey(parts, k) ==> k in r.value && r.value[k] == acc[k]
    decreases |parts|
  {
    if parts == [] then Ok(acc)
    else match ValueOf(parts[0])
      case None => Err(IndexError(parts[0]))
      case Some(v) =>
        var r := Collect(parts[1..], acc[KeyOf(parts[0]) := v]);
        CollectFirst(parts, acc, v, r);
        r
  }

  /** The contract of `Collect` carries over from the tokens after the first to the whole list. */
  lemma CollectFirst(parts: seq<string>, acc: map<string, Token>, v: Token, r: Result<map<string, Token>, Fault>)
    requires parts != [] && ValueOf(parts[0]) == Some(v)
    requires var rest, acc' := parts[1..], acc[KeyOf(parts[0]) := v];
      && (r.Ok? <==> forall i :: 0 <= i < |rest| ==> ValueOf(rest[i]).Some?)
      && (r.Err? ==> exists i :: 0 <= i < |rest| && ValueOf(rest[i]).None? && r.error == IndexError(rest[i]))
      && (r.Ok? ==> forall k :: k in r.value <==> k in acc' || HasKey(rest, k))
      && (r.Ok? ==> forall i :: 0 <= i < |rest| && LastWithKey(rest, i) ==>
                      KeyOf(rest[i]) in r.value && r.value[KeyOf(rest[i])] == ValueOf(rest[i]).value)
      && (r.Ok? ==> forall k :: k in acc' && !HasKey(rest, k) ==> k in r.value && r.value[k] == acc'[k])
    ensures r.Ok? <==> forall i :: 0 <= i < |parts| ==> ValueOf(parts[i]).Some?
    ensures r.Err? ==> exists i :: 0 <= i < |parts| && ValueOf(parts[i]).None? && r.error == IndexError(parts[i])
    ensures r.Ok? ==> forall k :: k in r.value <==> k in acc || HasKey(parts, k)
    ensures r.Ok? ==> forall i :: 0 <= i < |parts| && LastWithKey(parts, i) ==>
                        KeyOf(parts[i]) in r.value && r.value[KeyOf(parts[i])] == ValueOf(parts[i]).value
    ensures r.Ok? ==> forall k :: k in acc && !HasKey(parts, k) ==> k in r.value && r.value[k] == acc[k]
  {
    TokensAfterFirst(parts);
  }

  /** How the facts about a token list follow from its first token and the rest. */
  lemma TokensAfterFirst(parts: seq<string>)
    requires parts != []
    ensures forall i :: 1 <= i < |parts| ==> parts[i] == parts[1..][i - 1]
    ensures forall k :: HasKey(parts, k) <==> k == KeyOf(parts[0]) || HasKey(parts[1..], k)
    ensures forall i :: 1 <= i < |parts| && LastWithKey(parts, i) ==> LastWithKey(parts[1..], i - 1)
    ensures LastWithKey(parts, 0) ==> !HasKey(parts[1..], KeyOf(parts[0]))
  {
    forall k | HasKey(parts, k) ensures k == KeyOf(parts[0]) || HasKey(parts[1..], k) {
      var i :| 0 <= i < |parts| && KeyOf(parts[i]) == k;
      if i > 0 {
        assert KeyOf(parts[1..][i - 1]) == k;
      }
    }
    forall k | HasKey(parts[1..], k) ensures HasKey(parts, k) {
      var i :| 0 <= i < |parts[1..]| && KeyOf(parts[1..][i]) == k;
      assert KeyOf(parts[i + 1]) == k;
    }
    assert KeyOf(parts[0]) == KeyOf(parts[0]);
    assert HasKey(parts, KeyOf(parts[0]));
  }

  /** `response.split(' Count')[0].split()`: the tokens of the report line before ` Count`. */
  function ReportTokens(response: string): seq<string> {
    SplitWhitespace(PrefixBefore(response, " Count"))
  }

  /** Every token carries a colon, so the dictionary comprehension completes. */
  predicate AllFields(parts: seq<string>) {
    forall i :: 0 <= i < |parts| ==> ValueOf(parts[i]).Some?
  }

  /** `v` is the value of the last token keyed `k`: what the dictionary holds for `k` once built. */
  predicate LastValue(parts: seq<string>, k: string, v: Token) {
    exists i :: 0 <= i < |parts| && LastWithKey(parts, i) && KeyOf(parts[i]) == k && ValueOf(parts[i]) == Some(v)
  }

  /** A key some token carries has a last token carrying it. */
  lemma {:induction false} LastKeyExists(parts: seq<string>, k: string)
    requires HasKey(parts, k)
    ensures exists i :: 0 <= i < |parts| && LastWithKey(parts, i) && KeyOf(parts[i]) == k
    decreases |parts|
  {
    var n := |parts| - 1;
    if KeyOf(parts[n]) == k {
      assert LastWithKey(parts, n);
    } else {
      var init := parts[..n];
      assert HasKey(init, k) by {
        var i :| 0 <= i < |parts| && KeyOf(parts[i]) == k;
        assert i < n && init[i] == parts[i];
      }
      LastKeyExists(init, k);
      var i :| 0 <= i < |init| && LastWithKey(init, i) && KeyOf(init[i]) == k;
      assert init[i] == parts[i];
      assert LastWithKey(parts, i) by {
        forall j | i < j < |parts| ensures KeyOf(parts[j]) != KeyOf(parts[i]) {
          if j < n {
            assert init[j] == parts[j];
          }
        }
      }
    }
  }

  /** Each entry of the dictionary built from `parts` is the value of the last token with its key. */
  lemma FieldsAreLast(parts: seq<string>, fields: map<string, Token>)
    requires Collect(parts, map[]) == Ok(fields)
    ensures forall k :: k in fields ==> LastValue(parts, k, fields[k])
  {
    forall k | k in fields ensures LastValue(parts, k, fields[k]) {
      LastKeyExists(parts, k);
      var i :| 0 <= i < |parts| && LastWithKey(parts, i) && KeyOf(parts[i]) == k;
      assert ValueOf(parts[i]).Some?;
    }
  }

  /**
   * The parsing half of `get_position`, run once the acknowledgement has been seen. A token without
   * a colon raises IndexError. Otherwise `as_dict` gives the whole dictionary, and the tuple gives
   * the last X, Y and Z values, or KeyError for the first of X, Y, Z that no token carries.
   */
  function ParseReport(response: string, asDict: bool): (r: Result<Report, Fault>)
    ensures asDict && r.Ok? ==> r.value.AsMapping?
    ensures !asDict && r.Ok? ==> r.value.AsTuple?
    ensures var parts := ReportTokens(response);
      (r.Err? && r.error.IndexError?) <==> !AllFields(parts)
    ensures var parts := ReportTokens(response);
      r.Err? && r.error.IndexError? ==>
        exists i :: 0 <= i < |parts| && ValueOf(parts[i]).None? && r.error == IndexError(parts[i])
    ensures var parts := ReportTokens(response);
      asDict && AllFields(parts) ==>
        && r.Ok?
        && (forall k :: k in r.value.fields <==> HasKey(parts, k))
        && (forall k :: k in r.value.fields ==> LastValue(parts, k, r.value.fields[k]))
    ensures var parts := ReportTokens(response);
      !asDict && AllFields(parts) ==>
        if !HasKey(parts, "X") then r == Err(KeyError("X"))
        else if !HasKey(parts, "Y") then r == Err(KeyError("Y"))
        else if !HasKey(parts, "Z") then r == Err(KeyError("Z"))
        else
          && r.Ok?
          && LastValue(parts, "X", r.value.position.x)
          && LastValue(parts, "Y", r.value.position.y)
          && LastValue(parts, "Z", r.value.position.z)
  {
    var parts := ReportTokens(response);
    match Collect(parts, map[])
    case Err(e) => Err(e)
    case Ok(fields) =>
      FieldsAreLast(parts, fields);
      if asDict then Ok(AsMapping(fields))
      else if "X" !in fields then Err(KeyError("X"))
      else if "Y" !in fields then Err(KeyError("Y"))
      else if "Z" !in fields then Err(KeyError("Z"))
      else Ok(AsTuple(Position(fields["X"], fields["Y"], fields["Z"])))
  }

  /** A coordinate as the controller prints it: non-empty, no whitespace, no colon. */
  predicate PlainToken(t: Token) {
    Word(t) && Lacks(t, ':')
  }

  /**
   * Fields a controller may report after the three axes, such as Marlin's extruder position
   * `E:<e>`: words with a colon, keyed by something other than X, Y and Z, and not starting
   * with `C`, so that none of them is taken for the ` Count` marker.
   */
  predicate ExtraFields(extra: seq<string>) {
    forall i :: 0 <= i < |extra| ==>
      && Word(extra[i]) && extra[i][0] != 'C' && ValueOf(extra[i]).Some?
      && KeyOf(extra[i]) != "X" && KeyOf(extra[i]) != "Y" && KeyOf(extra[i]) != "Z"
  }

  /** The three axis fields of a report. */
  function AxisWords(p: Position): seq<string> {
    ["X:" + p.x, "Y:" + p.y, "Z:" + p.z]
  }

  /** The report line a Marlin-style controller sends for `M114`: `X:<x> Y:<y> Z:<z> <extra..> Count <rest>`. */
  function ReplyLine(p: Position, extra: seq<string>, rest: string): string {
    JoinWords(AxisWords(p) + extra) + " Count" + rest
  }

  lemma KeyValueOf(k: char, v: Token)
    requires k != ':' && Lacks(v, ':')
    ensures KeyOf([k] + ":" + v) == [k]
    ensures ValueOf([k] + ":" + v) == Some(v)
  {
    var part := [k] + ":" + v;
    assert part[1..] == ":" + v;
    assert part[0] == k;
    assert part[..1][0] == k;
    assert KeyOf(part[1..]) == [];
    assert part[2..] == v;
    PrefixBeforeAbsent(v, ':');
  }

  /** No ` Count` starts inside a word, so the search passes over it. */
  lemma SkipWord(w: string, after: string)
    requires NoSpace(w)
    ensures PrefixBefore(w + after, " Count") == w + PrefixBefore(after, " Count")
  {
    forall i | 0 <= i < |w| ensures !OccursAt(w + after, i, " Count") {
      assert (w + after)[i] == w[i];
    }
    PrefixBeforeSkip(w, after, " Count");
  }

  /** A space followed by anything but `C` does not start ` Count`. */
  lemma SkipSpace(u: string)
    requires u != [] && u[0] != 'C'
    ensures PrefixBefore(" " + u, " Count") == " " + PrefixBefore(u, " Count")
  {
    var t := " " + u;
    assert t[1] == u[0];
    assert !OccursAt(t, 0, " Count");
    assert t[1..] == u;
  }

  /** The search passes over a word and the space after it when what follows does not begin with `C`. */
  lemma SkipWordSpace(w: string, u: string)
    requires NoSpace(w) && u != [] && u[0] != 'C'
    ensures PrefixBefore(w + (" " + u), " Count") == w + (" " + PrefixBefore(u, " Count"))
  {
    SkipWord(w, " " + u);
    SkipSpace(u);
  }

  /** A space-joined list of words begins with its first word's first character. */
  lemma JoinWordsHead(ws: seq<string>, tail: string)
    requires ws != [] && ws[0] != []
    ensures (JoinWords(ws) + tail)[0] == ws[0][0]
  {
  }

  /** Words none of which begins with `C`: the axis fields before ` Count`. */
  predicate Fields(ws: seq<string>) {
    forall i :: 0 <= i < |ws| ==> Word(ws[i]) && ws[i][0] != 'C'
  }

  lemma FieldsTail(ws: seq<string>)
    requires ws != [] && Fields(ws)
    ensures Fields(ws[1..])
  {
    forall i | 0 <= i < |ws| - 1 ensures Word(ws[1..][i]) && ws[1..][i][0] != 'C' {
      assert ws[1..][i] == ws[i + 1];
    }
  }

  /** At most one field: the search passes over it and stops at ` Count`. */
  lemma CountAfterOne(ws: seq<string>, rest: string)
    requires |ws| <= 1 && Fields(ws)
    ensures PrefixBefore(JoinWords(ws) + " Count" + rest, " Count") == JoinWords(ws)
  {
    var tail := " Count" + rest;
    assert JoinWords(ws) + " Count" + rest == JoinWords(ws) + tail;
    assert OccursAt(tail, 0, " Count");
    if |ws| == 1 {
      SkipWord(ws[0], tail);
    }
  }

  /** Regrouping a five-part concatenation to the right of its first two parts. */
  lemma Regroup<T>(a: seq<T>, b: seq<T>, c: seq<T>, d: seq<T>, e: seq<T>)
    ensures a + b + c + d + e == a + (b + (c + d + e))
    ensures a + b + c == a + (b + c)
  {
    assert a + b + c + d + e == a + b + (c + d + e);
  }

  /** Two or more fields: the search passes over the first one and the space after it. */
  lemma CountAfterFirst(ws: seq<string>, rest: string)
    requires |ws| > 1 && Fields(ws)
    requires PrefixBefore(JoinWords(ws[1..]) + " Count" + rest, " Count") == JoinWords(ws[1..])
    ensures PrefixBefore(JoinWords(ws) + " Count" + rest, " Count") == JoinWords(ws)
  {
    var w, v := ws[0], JoinWords(ws[1..]);
    var u := v + " Count" + rest;
    assert JoinWords(ws) == w + " " + v;
    Regroup(w, " ", v, " Count", rest);
    assert Word(w) && Word(ws[1]) && ws[1..][0] == ws[1];
    JoinWordsHead(ws[1..], " Count");
    assert u[0] == (v + " Count")[0];
    SkipWordSpace(w, u);
  }

  /** In space-separated words none of which begins with `C`, the first ` Count` is the one after them. */
  lemma {:induction false} PrefixBeforeCount(ws: seq<string>, rest: string)
    requires Fields(ws)
    ensures PrefixBefore(JoinWords(ws) + " Count" + rest, " Count") == JoinWords(ws)
    decreases |ws|
  {
    if |ws| <= 1 {
      CountAfterOne(ws, rest);
    } else {
      FieldsTail(ws);
      PrefixBeforeCount(ws[1..], rest);
      CountAfterFirst(ws, rest);
    }
  }

  /** The tokens before ` Count` in a well-formed report are exactly the axis fields and the fields after them. */
  lemma ReplyTokens(p: Position, extra: seq<string>, rest: string)
    requires PlainToken(p.x) && PlainToken(p.y) && PlainToken(p.z) && ExtraFields(extra)
    ensures ReportTokens(ReplyLine(p, extra, rest)) == AxisWords(p) + extra
  {
    var words := AxisWords(p) + extra;
    ReplyFields(p, extra);
    PrefixBeforeCount(words, rest);
    SplitJoin(words);
  }

  /** The axis fields and the further fields are all words, none beginning with `C`. */
  lemma ReplyFields(p: Position, extra: seq<string>)
    requires PlainToken(p.x) && PlainToken(p.y) && PlainToken(p.z) && ExtraFields(extra)
    ensures Fields(AxisWords(p) + extra)
  {
    var words := AxisWords(p) + extra;
    AxisWordField("X", p.x);
    AxisWordField("Y", p.y);
    AxisWordField("Z", p.z);
    forall i | 0 <= i < |words| ensures Word(words[i]) && words[i][0] != 'C' {
      if i >= 3 {
        assert words[i] == extra[i - 3];
      }
    }
  }

  /** An axis field `<axis>:<value>` is a word not beginning with `C`. */
  lemma AxisWordField(axis: string, t: Token)
    requires axis == "X" || axis == "Y" || axis == "Z"
    requires PlainToken(t)
    ensures Word(axis + ":" + t) && (axis + ":" + t)[0] != 'C'
  {
    var w := axis + ":" + t;
    forall i | 0 <= i < |w| ensures !IsSpace(w[i]) {
      if i >= 2 {
        assert w[i] == t[i - 2];
      }
    }
  }

  /** Each axis field is keyed by its axis letter and holds the coordinate. */
  lemma AxisFields(p: Position)
    requires PlainToken(p.x) && PlainToken(p.y) && PlainToken(p.z)
    ensures KeyOf("X:" + p.x) == "X" && ValueOf("X:" + p.x) == Some(p.x)
    ensures KeyOf("Y:" + p.y) == "Y" && ValueOf("Y:" + p.y) == Some(p.y)
    ensures KeyOf("Z:" + p.z) == "Z" && ValueOf("Z:" + p.z) == Some(p.z)
  {
    KeyValueOf('X', p.x);
    KeyValueOf('Y', p.y);
    KeyValueOf('Z', p.z);
    assert "X:" + p.x == ['X'] + ":" + p.x;
    assert "Y:" + p.y == ['Y'] + ":" + p.y;
    assert "Z:" + p.z == ['Z'] + ":" + p.z;
  }

  /** Among a report's tokens, every one has a colon and each axis is carried by its own field only. */
  lemma AxisKeys(p: Position, extra: seq<string>)
    requires PlainToken(p.x) && PlainToken(p.y) && PlainToken(p.z) && ExtraFields(extra)
    ensures var parts := AxisWords(p) + extra;
      && AllFields(parts)
      && KeyOf(parts[0]) == "X" && KeyOf(parts[1]) == "Y" && KeyOf(parts[2]) == "Z"
      && ValueOf(parts[0]) == Some(p.x) && ValueOf(parts[1]) == Some(p.y) && ValueOf(parts[2]) == Some(p.z)
      && (forall i :: 0 <= i < |parts| && KeyOf(parts[i]) == "X" ==> i == 0)
      && (forall i :: 0 <= i < |parts| && KeyOf(parts[i]) == "Y" ==> i == 1)
      && (forall i :: 0 <= i < |parts| && KeyOf(parts[i]) == "Z" ==> i == 2)
  {
    AxisFields(p);
    var parts := AxisWords(p) + extra;
    assert parts[0] == "X:" + p.x && parts[1] == "Y:" + p.y && parts[2] == "Z:" + p.z;
    assert "X" != "Y" && "X" != "Z" && "Y" != "Z" by {
      assert "X"[0] != "Y"[0] && "X"[0] != "Z"[0] && "Y"[0] != "Z"[0];
    }
    forall i | 3 <= i < |parts|
      ensures ValueOf(parts[i]).Some? && KeyOf(parts[i]) != "X" && KeyOf(parts[i]) != "Y" && KeyOf(parts[i]) != "Z"
    {
      assert parts[i] == extra[i - 3];
    }
  }

  /** When only token `j` is keyed `k`, the last value for `k` is that token's value. */
  lemma OnlyValue(parts: seq<string>, k: string, j: int, v: Token, w: Token)
    requires 0 <= j < |parts| && ValueOf(parts[j]) == Some(v)
    requires forall i :: 0 <= i < |parts| && KeyOf(parts[i]) == k ==> i == j
    requires LastValue(parts, k, w)
    ensures w == v
  {
  }

  /** The dictionary comprehension over a list whose first token has a colon continues with that token's entry. */
  lemma CollectCons(parts: seq<string>, acc: map<string, Token>)
    requires parts != [] && ValueOf(parts[0]).Some?
    ensures Collect(parts, acc) == Collect(parts[1..], acc[KeyOf(parts[0]) := ValueOf(parts[0]).value])
  {
  }

  /** Reading the three axis fields gives the mapping from axis letter to value. */
  lemma CollectAxes(p: Position)
    requires PlainToken(p.x) && PlainToken(p.y) && PlainToken(p.z)
    ensures Collect(["X:" + p.x, "Y:" + p.y, "Z:" + p.z], map[]) == Ok(map["X" := p.x, "Y" := p.y, "Z" := p.z])
  {
    KeyValueOf('X', p.x);
    KeyValueOf('Y', p.y);
    KeyValueOf('Z', p.z);
    assert "X:" + p.x == ['X'] + ":" + p.x;
    assert "Y:" + p.y == ['Y'] + ":" + p.y;
    assert "Z:" + p.z == ['Z'] + ":" + p.z;
    var words := ["X:" + p.x, "Y:" + p.y, "Z:" + p.z];
    var m1 := map["X" := p.x];
    var m2 := m1["Y" := p.y];
    var m3 := m2["Z" := p.z];
    CollectCons(words, map[]);
    assert words[1..] == ["Y:" + p.y, "Z:" + p.z];
    CollectCons(words[1..], m1);
    assert words[1..][1..] == ["Z:" + p.z];
    CollectCons(words[1..][1..], m2);
    assert words[1..][1..][1..] == [];
  }

  /**
   * Parsing the report line of a position gives that position back, as a tuple and in the
   * mapping, whatever further fields follow the axes; with no further fields the mapping holds
   * exactly the three axes.
   */
  lemma ParseReplyLine(p: Position, extra: seq<string>, rest: string)
    requires PlainToken(p.x) && PlainToken(p.y) && PlainToken(p.z) && ExtraFields(extra)
    ensures ParseReport(ReplyLine(p, extra, rest), false) == Ok(AsTuple(p))
    ensures var r := ParseReport(ReplyLine(p, extra, rest), true);
      && r.Ok? && "X" in r.value.fields && "Y" in r.value.fields && "Z" in r.value.fields
      && r.value.fields["X"] == p.x && r.value.fields["Y"] == p.y && r.value.fields["Z"] == p.z
    ensures extra == [] ==>
      ParseReport(ReplyLine(p, extra, rest), true) == Ok(AsMapping(map["X" := p.x, "Y" := p.y, "Z" := p.z]))
  {
    var line := ReplyLine(p, extra, rest);
    var parts := AxisWords(p) + extra;
    ReplyTokens(p, extra, rest);
    AxisKeys(p, extra);
    assert HasKey(parts, "X") && HasKey(parts, "Y") && HasKey(parts, "Z") by {
      assert KeyOf(parts[0]) == "X" && KeyOf(parts[1]) == "Y" && KeyOf(parts[2]) == "Z";
    }
    var t := ParseReport(line, false);
    OnlyValue(parts, "X", 0, p.x, t.value.position.x);
    OnlyValue(parts, "Y", 1, p.y, t.value.position.y);
    OnlyValue(parts, "Z", 2, p.z, t.value.position.z);
    var m := ParseReport(line, true).value.fields;
    OnlyValue(parts, "X", 0, p.x, m["X"]);
    OnlyValue(parts, "Y", 1, p.y, m["Y"]);
    OnlyValue(parts, "Z", 2, p.z, m["Z"]);
    if extra == [] {
      assert parts == AxisWords(p);
      CollectAxes(p);
    }
  }

  /** Four words joined by single spaces. */
  lemma JoinFour(a: string, b: string, c: string, d: string)
    ensures JoinWords([a, b, c, d]) == a + " " + b + " " + c + " " + d
  {
    assert [a, b, c, d][1..] == [b, c, d] && [b, c, d][1..] == [c, d] && [c, d][1..] == [d];
    assert JoinWords([c, d]) == c + " " + d;
    assert JoinWords([b, c, d]) == b + " " + (c + " " + d);
  }

  /** Marlin's reply to `M114`: the axes, the extruder field `E:0.0`, then ` Count` and the stepper counts. */
  lemma ExampleReplyLine()
    ensures ReplyLine(Position("12.5", "3.0", "0.0"), ["E:0.0"], " X:0 Y:0 Z:0\n")
         == "X:12.5 Y:3.0 Z:0.0 E:0.0 Count X:0 Y:0 Z:0\n"
  {
    var p := Position("12.5", "3.0", "0.0");
    assert "X:" + p.x == "X:12.5" && "Y:" + p.y == "Y:3.0" && "Z:" + p.z == "Z:0.0";
    assert AxisWords(p) == ["X:12.5", "Y:3.0", "Z:0.0"];
    assert AxisWords(p) + ["E:0.0"] == ["X:12.5", "Y:3.0", "Z:0.0", "E:0.0"];
    JoinFour("X:12.5", "Y:3.0", "Z:0.0", "E:0.0");
    ExampleJoined();
  }

  /** The example's four fields joined by spaces, then followed by ` Count` and the stepper counts. */
  lemma ExampleJoined()
    ensures "X:12.5" + " " + "Y:3.0" + " " + "Z:0.0" + " " + "E:0.0" + " Count" + " X:0 Y:0 Z:0\n"
         == "X:12.5 Y:3.0 Z:0.0 E:0.0 Count X:0 Y:0 Z:0\n"
  {
    assert "X:12.5" + " " + "Y:3.0" == "X:12.5 Y:3.0";
    assert "X:12.5 Y:3.0" + " " + "Z:0.0" == "X:12.5 Y:3.0 Z:0.0";
    assert "X:12.5 Y:3.0 Z:0.0" + " " + "E:0.0" == "X:12.5 Y:3.0 Z:0.0 E:0.0";
    assert "X:12.5 Y:3.0 Z:0.0 E:0.0" + " Count" == "X:12.5 Y:3.0 Z:0.0 E:0.0 Count";
  }

  /** The extruder field is a further field: it has a colon and is keyed `E`. */
  lemma ExtruderField()
    ensures ExtraFields(["E:0.0"])
  {
    KeyValueOf('E', "0.0");
    assert "E:0.0" == ['E'] + ":" + "0.0";
    assert "E"[0] != "X"[0] && "E"[0] != "Y"[0] && "E"[0] != "Z"[0];
    assert Word("E:0.0");
  }

  /** A concrete Marlin report, extruder field included, parses to its X, Y and Z values. */
  lemma ParseExampleReport()
    ensures ParseReport("X:12.5 Y:3.0 Z:0.0 E:0.0 Count X:0 Y:0 Z:0\n", false)
         == Ok(AsTuple(Position("12.5", "3.0", "0.0")))
  {
    ExampleReplyLine();
    ExtruderField();
    assert PlainToken("12.5") && PlainToken("3.0") && PlainToken("0.0");
    ParseReplyLine(Position("12.5", "3.0", "0.0"), ["E:0.0"], " X:0 Y:0 Z:0\n");
  }
}
