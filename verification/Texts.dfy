// Strings as the scripts take them: compared, counted in lines, and stripped of white space.
module Texts {
  // The order of two strings.
  predicate Earlier(a: string, b: string) {
    b != "" && (a == "" || a[0] < b[0] || (a[0] == b[0] && Earlier(a[1..], b[1..])))
  }

  lemma {:induction false} EarlierIrreflexive(a: string)
    ensures !Earlier(a, a)
    decreases |a|
  {
    if a != "" {
      EarlierIrreflexive(a[1..]);
    }
  }

  // The order is total: of two strings one is earlier, or they are the same.
  lemma {:induction false} EarlierTotal(a: string, b: string)
    ensures Earlier(a, b) ==> !Earlier(b, a)
    ensures Earlier(a, b) || Earlier(b, a) || a == b
    decreases |a|
  {
    if a != "" && b != "" {
      EarlierTotal(a[1..], b[1..]);
      assert a == [a[0]] + a[1..] && b == [b[0]] + b[1..];
    }
  }

  lemma {:induction false} EarlierTransitive(a: string, b: string, c: string)
    requires Earlier(a, b) && Earlier(b, c)
    ensures Earlier(a, c)
    decreases |a|
  {
    if a != "" && a[0] == b[0] == c[0] {
      EarlierTransitive(a[1..], b[1..], c[1..]);
    }
  }

  // How many line ends stand before `offset`.
  function LinesBefore(text: string, offset: nat): nat
    requires offset <= |text|
  {
    if offset == 0 then 0 else LinesBefore(text, offset - 1) + if text[offset - 1] == '\n' then 1 else 0
  }

  predicate Space(c: char) {
    c == ' ' || c == '\t' || c == '\n' || c == '\r' || c == '\U{b}' || c == '\U{c}'
  }

  function SpaceRun(text: string, i: nat): (n: nat)
    requires i <= |text|
    ensures i + n <= |text|
    decreases |text| - i
  {
    if i < |text| && Space(text[i]) then 1 + SpaceRun(text, i + 1) else 0
  }

  lemma {:induction false} SpaceRunIsMaximal(text: string, i: nat)
    requires i <= |text|
    ensures var end := i + SpaceRun(text, i);
            && (forall k | i <= k < end :: Space(text[k])) && (end < |text| ==> !Space(text[end]))
    decreases |text| - i
  {
    if i < |text| && Space(text[i]) { SpaceRunIsMaximal(text, i + 1); }
  }

  function StripEnd(text: string): string {
    if text != "" && Space(text[|text| - 1]) then StripEnd(text[..|text| - 1]) else text
  }

  function Strip(text: string): string {
    StripEnd(text[SpaceRun(text, 0)..])
  }

  // -------------------------------------------------------------------------
  // What these mean
  // -------------------------------------------------------------------------

  // Space, tab, line feed, carriage return, vertical tab and form feed.
  const WHITE := " \t\n\r\U{b}\U{c}"

  predicate AllWhite(text: string) {
    forall k | 0 <= k < |text| :: text[k] in WHITE
  }

  lemma {:induction false} StripEndKeeps(text: string)
    ensures var r := StripEnd(text);
            && |r| <= |text| && r == text[..|r|] && AllWhite(text[|r|..]) && (r != "" ==> r[|r| - 1] !in WHITE)
    decreases |text|
  {
    if text != "" && Space(text[|text| - 1]) {
      var front := text[..|text| - 1];
      StripEndKeeps(front);
      var r := StripEnd(front);
      assert text[|r|..] == front[|r|..] + [text[|text| - 1]];
    }
  }

  // Stripping takes off the white space at both ends and nothing else.
  lemma StripExactly(text: string) returns (from: nat, to: nat)
    ensures from <= to <= |text| && Strip(text) == text[from..to]
    ensures AllWhite(text[..from]) && AllWhite(text[to..])
    ensures from < to ==> text[from] !in WHITE && text[to - 1] !in WHITE
  {
    from := SpaceRun(text, 0);
    SpaceRunIsMaximal(text, 0);
    var rest := text[from..];
    StripEndKeeps(rest);
    to := from + |StripEnd(rest)|;
    assert text[to..] == rest[|StripEnd(rest)|..];
  }

  // Nothing is left exactly of white text.
  lemma StripsAway(text: string)
    ensures Strip(text) == "" <==> AllWhite(text)
  {
    var from, to := StripExactly(text);
    if from == to {
      assert text == text[..from] + text[to..];
    } else {
      assert text[from] !in WHITE;
    }
  }

  // The line of an offset is told by the newlines in front of it.
  lemma {:induction false} LinesBeforeCounts(text: string, offset: nat)
    requires offset <= |text|
    ensures LinesBefore(text, offset) == multiset(text[..offset])['\n']
    decreases offset
  {
    if offset > 0 {
      LinesBeforeCounts(text, offset - 1);
      assert text[..offset] == text[..offset - 1] + [text[offset - 1]];
    }
  }
}
