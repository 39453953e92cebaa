/** The handful of Python string operations the clients rely on: prefix tests, `split`, case mapping. */
module Text {

  /** What an f-string renders a caller's value as. Coordinates and light levels stay uninterpreted text. */
  type Token = string

  predicate StartsWith(s: string, prefix: string) {
    |prefix| <= |s| && s[..|prefix|] == prefix
  }

  predicate EndsWith(s: string, suffix: string) {
    |suffix| <= |s| && s[|s| - |suffix|..] == suffix
  }

  /** `sep` occurs in `s` starting at index `i`. */
  predicate OccursAt(s: string, i: int, sep: string) {
    0 <= i && i + |sep| <= |s| && s[i..i + |sep|] == sep
  }

  /** The characters Python's `str.isspace` accepts, which `str.split()` with no argument separates on. */
  predicate IsSpace(c: char) {
    || c == ' '
    || ('\t' <= c <= '\r')
    || ('\U{1c}' <= c <= '\U{1f}')
    || c == '\U{85}' || c == '\U{a0}' || c == '\U{1680}'
    || ('\U{2000}' <= c <= '\U{200a}')
    || c == '\U{2028}' || c == '\U{2029}' || c == '\U{202f}' || c == '\U{205f}' || c == '\U{3000}'
  }

  predicate NoSpace(s: string) {
    forall i :: 0 <= i < |s| ==> !IsSpace(s[i])
  }

  /** A non-empty run of non-whitespace characters: what `str.split()` returns pieces of. */
  predicate Word(s: string) {
    s != [] && NoSpace(s)
  }

  predicate Lacks(s: string, c: char) {
    forall i :: 0 <= i < |s| ==> s[i] != c
  }

  /** `s.split(sep)[0]`: the text before the first occurrence of `sep`, or all of `s`. */
  function PrefixBefore(s: string, sep: string): (r: string)
    requires sep != []
    ensures StartsWith(s, r)
    ensures |r| == |s| || OccursAt(s, |r|, sep)
    ensures forall i :: 0 <= i < |r| ==> !OccursAt(s, i, sep)
    decreases |s|
  {
    if s == [] || OccursAt(s, 0, sep) then []
    else
      var r := [s[0]] + PrefixBefore(s[1..], sep);
      assert forall i :: 1 <= i <= |r| ==> OccursAt(s, i, sep) == OccursAt(s[1..], i - 1, sep) by {
        forall i | 1 <= i <= |r| ensures OccursAt(s, i, sep) == OccursAt(s[1..], i - 1, sep) {
          if i + |sep| <= |s| {
            var here, there := s[i..i + |sep|], s[1..][i - 1..i - 1 + |sep|];
            assert forall k :: 0 <= k < |here| ==> here[k] == there[k];
            assert here == there;
          }
        }
      }
      r
  }

  /** The longest prefix of `s` without whitespace. */
  function LeadingWord(s: string): (t: string)
    ensures StartsWith(s, t) && NoSpace(t)
    ensures |t| == |s| || IsSpace(s[|t|])
    decreases |s|
  {
    if s == [] || IsSpace(s[0]) then [] else [s[0]] + LeadingWord(s[1..])
  }

  /** Python's `s.split()`: the maximal runs of non-whitespace characters, in order. */
  function SplitWhitespace(s: string): (ws: seq<string>)
    ensures forall i :: 0 <= i < |ws| ==> Word(ws[i])
    decreases |s|
  {
    if s == [] then []
    else if IsSpace(s[0]) then SplitWhitespace(s[1..])
    else
      var t := LeadingWord(s);
      [t] + SplitWhitespace(s[|t|..])
  }

  /** Words separated by single spaces: the shape of a controller's report line. */
  function JoinWords(ws: seq<string>): string
    decreases |ws|
  {
    if ws == [] then []
    else if |ws| == 1 then ws[0]
    else ws[0] + " " + JoinWords(ws[1..])
  }

  lemma {:induction false} LeadingWordOfWord(w: string, rest: string)
    requires Word(w)
    requires rest == [] || IsSpace(rest[0])
    ensures LeadingWord(w + rest) == w
    decreases |w|
  {
    if |w| > 1 {
      assert (w + rest)[1..] == w[1..] + rest;
      LeadingWordOfWord(w[1..], rest);
    } else {
      assert (w + rest)[1..] == rest;
    }
  }

  /** Splitting single-space-joined words gives the words back. */
  lemma {:induction false} SplitJoin(ws: seq<string>)
    requires forall i :: 0 <= i < |ws| ==> Word(ws[i])
    ensures SplitWhitespace(JoinWords(ws)) == ws
    decreases |ws|
  {
    if |ws| == 1 {
      LeadingWordOfWord(ws[0], []);
      assert ws[0] + [] == ws[0];
      assert ws[0][|ws[0]|..] == [];
    } else if |ws| > 1 {
      var s := ws[0] + " " + JoinWords(ws[1..]);
      var tail := " " + JoinWords(ws[1..]);
      assert s == ws[0] + tail;
      LeadingWordOfWord(ws[0], tail);
      assert s[|ws[0]|..] == tail;
      assert tail[1..] == JoinWords(ws[1..]);
      SplitJoin(ws[1..]);
      assert [ws[0]] + ws[1..] == ws;
    }
  }

  /** Splitting on a separator that occurs nowhere leaves the whole text. */
  lemma {:induction false} PrefixBeforeAbsent(s: string, c: char)
    requires Lacks(s, c)
    ensures PrefixBefore(s, [c]) == s
    decreases |s|
  {
    if s != [] {
      assert s[0] != c;
      assert s[0..1][0] == s[0];
      PrefixBeforeAbsent(s[1..], c);
      assert [s[0]] + s[1..] == s;
    }
  }

  /** Splitting on one character: the piece before it holds no such character, and it stops right at one. */
  lemma PrefixBeforeChar(s: string, c: char)
    ensures Lacks(PrefixBefore(s, [c]), c)
    ensures |PrefixBefore(s, [c])| < |s| ==> s[|PrefixBefore(s, [c])|] == c
  {
    var r := PrefixBefore(s, [c]);
    forall i | 0 <= i < |r| ensures r[i] != c {
      assert !OccursAt(s, i, [c]);
      assert s[i..i + 1] == [s[i]];
      assert r[i] == s[i];
    }
    if |r| < |s| {
      assert OccursAt(s, |r|, [c]);
      assert s[|r|..|r| + 1][0] == s[|r|];
    }
  }

  /** Text in which no occurrence of `sep` starts can be skipped when looking for the first one. */
  lemma {:induction false} PrefixBeforeSkip(a: string, b: string, sep: string)
    requires sep != []
    requires forall i :: 0 <= i < |a| ==> !OccursAt(a + b, i, sep)
    ensures PrefixBefore(a + b, sep) == a + PrefixBefore(b, sep)
    decreases |a|
  {
    if a != [] {
      assert (a + b)[1..] == a[1..] + b;
      forall i | 0 <= i < |a[1..]|
        ensures !OccursAt(a[1..] + b, i, sep)
      {
        assert !OccursAt(a + b, i + 1, sep);
        if i + |sep| <= |a[1..] + b| {
          assert (a[1..] + b)[i..i + |sep|] == (a + b)[i + 1..i + 1 + |sep|];
        }
      }
      PrefixBeforeSkip(a[1..], b, sep);
    } else {
      assert a + b == b;
    }
  }

  function LowerChar(c: char): char {
    if 'A' <= c <= 'Z' then (c as int + 32) as char else c
  }

  function UpperChar(c: char): char {
    if 'a' <= c <= 'z' then (c as int - 32) as char else c
  }

  /** `str.lower()` on ASCII letters; every other character is left as it is. */
  function Lower(s: string): (r: string)
    ensures |r| == |s|
  {
    seq(|s|, i requires 0 <= i < |s| => LowerChar(s[i]))
  }

  /** `str.upper()` on ASCII letters; every other character is left as it is. */
  function Upper(s: string): (r: string)
    ensures |r| == |s|
  {
    seq(|s|, i requires 0 <= i < |s| => UpperChar(s[i]))
  }

  /** Lower-casing twice is lower-casing once. */
  lemma LowerIdempotent(s: string)
    ensures Lower(Lower(s)) == Lower(s)
  {
  }
}
