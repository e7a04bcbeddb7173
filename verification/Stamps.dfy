// Documents with "Last Updated" stamps, and the fence-aware rewriter of scripts/validate/update_all_docs.py.
module Stamps {
  import opened Wrappers
  import opened Texts
  import opened Windows
  import opened EditScripts

  // -------------------------------------------------------------------------
  // Dates
  // -------------------------------------------------------------------------

  // `YYYY-MM-DD` as text, compared as text.
  type Date = string

  predicate Digit(c: char) {
    '0' <= c <= '9'
  }

  predicate DateShaped(d: string) {
    && |d| == 10 && d[4] == '-' && d[7] == '-'
    && forall i | 0 <= i < 10 && i != 4 && i != 7 :: Digit(d[i])
  }

  function Value(c: char): int {
    c as int - '0' as int
  }

  function Year(d: string): int
    requires DateShaped(d)
  {
    1000 * Value(d[0]) + 100 * Value(d[1]) + 10 * Value(d[2]) + Value(d[3])
  }

  function Month(d: string): int
    requires DateShaped(d)
  {
    10 * Value(d[5]) + Value(d[6])
  }

  function Day(d: string): int
    requires DateShaped(d)
  {
    10 * Value(d[8]) + Value(d[9])
  }

  // Text order of date-shaped strings, one position after another.
  predicate EarlierFrom(a: Date, b: Date, i: nat)
    requires DateShaped(a) && DateShaped(b) && i <= 10
    decreases 10 - i
  {
    i < 10 && (a[i] < b[i] || (a[i] == b[i] && EarlierFrom(a, b, i + 1)))
  }

  lemma {:induction false} EarlierIsFrom(a: Date, b: Date, i: nat)
    requires DateShaped(a) && DateShaped(b) && i <= 10
    ensures Earlier(a[i..], b[i..]) == EarlierFrom(a, b, i)
    decreases 10 - i
  {
    if i < 10 {
      assert a[i..][1..] == a[i + 1..] && b[i..][1..] == b[i + 1..];
      EarlierIsFrom(a, b, i + 1);
    }
  }

  // The order the updater compares stamps by is the order of the calendar.
  lemma TextOrderIsDateOrder(a: Date, b: Date)
    requires DateShaped(a) && DateShaped(b)
    ensures Earlier(a, b) <==>
            Year(a) < Year(b)
            || (Year(a) == Year(b) && (Month(a) < Month(b) || (Month(a) == Month(b) && Day(a) < Day(b))))
  {
    assert a[0..] == a && b[0..] == b;
    EarlierIsFrom(a, b, 0);
    assert forall i | 0 <= i < 10 && i != 4 && i != 7 :: 0 <= Value(a[i]) <= 9 && 0 <= Value(b[i]) <= 9;
    assert EarlierFrom(a, b, 8) <==> Day(a) < Day(b);
    assert EarlierFrom(a, b, 5) <==> Month(a) < Month(b) || (Month(a) == Month(b) && EarlierFrom(a, b, 7));
    var a', b' := 10 * Value(a[2]) + Value(a[3]), 10 * Value(b[2]) + Value(b[3]);
    assert EarlierFrom(a, b, 2) <==> a' < b' || (a' == b' && EarlierFrom(a, b, 4));
  }

  // -------------------------------------------------------------------------
  // Documents
  // -------------------------------------------------------------------------

  // The spellings of a marker: `**Last Updated**:` as the updater knows it, the same in another case, `*..*:`, bare.
  datatype Form = Bold | BoldCased | Italic | Bare

  // A line's text in parts: markers with the white space before their date, other dates, and the rest.
  datatype Part = Plain(text: string) | Loose(date: Date) | Mark(form: Form, lead: string, date: Date)

  datatype Line = Line(fence: bool, parts: seq<Part>)

  type Doc = seq<Line>

  predicate IsStamp(part: Part) {
    part.Mark? && part.form.Bold?
  }

  function StampIn(parts: seq<Part>): Option<Date> {
    if parts == [] then None else if IsStamp(parts[0]) then Some(parts[0].date) else StampIn(parts[1..])
  }

  predicate RealStamp(line: Line, inFence: bool) {
    !line.fence && !inFence && StampIn(line.parts).Some?
  }

  // Whether each line is a real stamp: it carries one outside every fence.
  function Flags(doc: Doc, inFence: bool): (r: seq<bool>)
    ensures |r| == |doc|
  {
    if doc == [] then [] else [RealStamp(doc[0], inFence)] + Flags(doc[1..], inFence != doc[0].fence)
  }

  function FirstFrom(doc: Doc, inFence: bool): Option<Date> {
    if doc == [] then None
    else if RealStamp(doc[0], inFence) then StampIn(doc[0].parts)
    else FirstFrom(doc[1..], inFence != doc[0].fence)
  }

  function First(doc: Doc): Option<Date> {
    FirstFrom(doc, false)
  }

  method FirstStamp(doc: Doc) returns (r: Option<Date>)
    ensures r == First(doc)
  {
    var inFence := false;
    var i := 0;
    while i < |doc|
      invariant 0 <= i <= |doc|
      invariant FirstFrom(doc[i..], inFence) == First(doc)
    {
      assert doc[i..][0] == doc[i] && doc[i..][1..] == doc[i + 1..];
      if doc[i].fence {
        inFence := !inFence;
      } else if !inFence {
        var stamp := StampIn(doc[i].parts);
        if stamp.Some? {
          return stamp;
        }
      }
      i := i + 1;
    }
    return None;
  }

  // -------------------------------------------------------------------------
  // restamp
  // -------------------------------------------------------------------------

  function RestampParts(parts: seq<Part>, date: Date): (r: seq<Part>)
    ensures |r| == |parts|
  {
    seq(|parts|, i requires 0 <= i < |parts| => if IsStamp(parts[i]) then parts[i].(date := date) else parts[i])
  }

  function RestampLine(line: Line, date: Date): Line {
    line.(parts := RestampParts(line.parts, date))
  }

  function StampCount(parts: seq<Part>): nat {
    if parts == [] then 0 else (if IsStamp(parts[0]) then 1 else 0) + StampCount(parts[1..])
  }

  function RestampFrom(doc: Doc, date: Date, inFence: bool): (r: Doc)
    ensures |r| == |doc|
  {
    if doc == [] then []
    else
      [if RealStamp(doc[0], inFence) then RestampLine(doc[0], date) else doc[0]]
      + RestampFrom(doc[1..], date, inFence != doc[0].fence)
  }

  function Restamped(doc: Doc, date: Date): Doc {
    RestampFrom(doc, date, false)
  }

  function MovedFrom(doc: Doc, inFence: bool): nat {
    if doc == [] then 0
    else
      (if RealStamp(doc[0], inFence) then StampCount(doc[0].parts) else 0)
      + MovedFrom(doc[1..], inFence != doc[0].fence)
  }

  method Restamp(doc: Doc, date: Date) returns (out: Doc, moved: nat)
    ensures out == Restamped(doc, date) && moved == MovedFrom(doc, false)
  {
    out := [];
    moved := 0;
    var inFence := false;
    var i := 0;
    while i < |doc|
      invariant 0 <= i <= |doc|
      invariant out + RestampFrom(doc[i..], date, inFence) == Restamped(doc, date)
      invariant moved + MovedFrom(doc[i..], inFence) == MovedFrom(doc, false)
      decreases |doc| - i
    {
      assert doc[i..][0] == doc[i] && doc[i..][1..] == doc[i + 1..];
      var line := doc[i];
      if line.fence {
        inFence := !inFence;
      } else if !inFence && StampIn(line.parts).Some? {
        moved := moved + StampCount(line.parts);
        line := RestampLine(line, date);
      }
      Assoc(out, [line], RestampFrom(doc[i + 1..], date, inFence));
      out := out + [line];
      i := i + 1;
    }
  }

  // -------------------------------------------------------------------------
  // Stamps, said of the parts and lines alone
  // -------------------------------------------------------------------------

  // `**Last Updated**:` and a date, in just this spelling.
  predicate BoldMark(part: Part) {
    part.Mark? && part.form == Bold
  }

  function Fences(lines: seq<Line>): nat {
    if lines == [] then 0 else Fences(lines[1..]) + if lines[0].fence then 1 else 0
  }

  // A line that is no fence, has an even number of fences above it and shows a bold marker.
  predicate Real(doc: Doc, i: nat) {
    && i < |doc| && !doc[i].fence && Fences(doc[..i]) % 2 == 0
    && exists k | 0 <= k < |doc[i].parts| :: BoldMark(doc[i].parts[k])
  }

  lemma {:induction false} StampInExactly(parts: seq<Part>, k: nat)
    requires k < |parts| && BoldMark(parts[k]) && forall j | 0 <= j < k :: !BoldMark(parts[j])
    ensures StampIn(parts) == Some(parts[k].date)
    decreases k
  {
    if k > 0 {
      StampInExactly(parts[1..], k - 1);
    }
  }

  lemma {:induction false} NoStampIn(parts: seq<Part>)
    requires forall j | 0 <= j < |parts| :: !BoldMark(parts[j])
    ensures StampIn(parts).None?
    decreases |parts|
  {
    if parts != [] {
      NoStampIn(parts[1..]);
    }
  }

  lemma {:induction false} FirstBold(parts: seq<Part>, k: nat) returns (first: nat)
    requires k < |parts| && BoldMark(parts[k])
    ensures first <= k && BoldMark(parts[first]) && forall j | 0 <= j < first :: !BoldMark(parts[j])
    decreases k
  {
    first := k;
    if j :| 0 <= j < k && BoldMark(parts[j]) {
      first := FirstBold(parts, j);
    }
  }

  lemma StampShown(parts: seq<Part>)
    ensures StampIn(parts).Some? <==> exists k | 0 <= k < |parts| :: BoldMark(parts[k])
  {
    if k :| 0 <= k < |parts| && BoldMark(parts[k]) {
      var first := FirstBold(parts, k);
      StampInExactly(parts, first);
    } else {
      NoStampIn(parts);
    }
  }

  lemma {:induction false} FlagsFrom(doc: Doc, inFence: bool, i: nat)
    requires i < |doc|
    ensures Flags(doc, inFence)[i] <==>
            !doc[i].fence && (Fences(doc[..i]) % 2 == 1) == inFence && StampIn(doc[i].parts).Some?
    decreases i
  {
    if i > 0 {
      assert doc[..i][1..] == doc[1..][..i - 1];
      FlagsFrom(doc[1..], inFence != doc[0].fence, i - 1);
    }
  }

  // The flagged lines are the real ones: outside every fence, in this spelling only.
  lemma FlagsExactly(doc: Doc, i: nat)
    requires i < |doc|
    ensures Flags(doc, false)[i] <==> Real(doc, i)
  {
    FlagsFrom(doc, false, i);
    StampShown(doc[i].parts);
  }

  lemma {:induction false} FirstFlagged(doc: Doc, inFence: bool, i: nat)
    requires i < |doc| && Flags(doc, inFence)[i] && forall j | 0 <= j < i :: !Flags(doc, inFence)[j]
    ensures FirstFrom(doc, inFence) == StampIn(doc[i].parts)
    decreases i
  {
    var flags := Flags(doc, inFence);
    if i > 0 {
      assert !flags[0];
      forall j | 0 <= j < i - 1 ensures !flags[1..][j] {
        assert flags[1..][j] == flags[j + 1];
      }
      FirstFlagged(doc[1..], inFence != doc[0].fence, i - 1);
    }
  }

  lemma {:induction false} NoneFlagged(doc: Doc, inFence: bool)
    requires forall j | 0 <= j < |doc| :: !Flags(doc, inFence)[j]
    ensures FirstFrom(doc, inFence).None?
    decreases |doc|
  {
    var flags := Flags(doc, inFence);
    if doc != [] {
      assert !flags[0];
      forall j | 0 <= j < |doc| - 1 ensures !flags[1..][j] {
        assert flags[1..][j] == flags[j + 1];
      }
      NoneFlagged(doc[1..], inFence != doc[0].fence);
    }
  }

  // A document's date is that of the first bold marker of its first real line, and none without one.
  lemma FirstExactly(doc: Doc)
    ensures (forall i: nat :: !Real(doc, i)) ==> First(doc).None?
    ensures forall i: nat, k: nat | Real(doc, i) && (forall j: nat | j < i :: !Real(doc, j))
              && k < |doc[i].parts| && BoldMark(doc[i].parts[k])
              && (forall j | 0 <= j < k :: !BoldMark(doc[i].parts[j])) ::
              First(doc) == Some(doc[i].parts[k].date)
  {
    forall i: nat | i < |doc| ensures Flags(doc, false)[i] <==> Real(doc, i) {
      FlagsExactly(doc, i);
    }
    if forall i: nat :: !Real(doc, i) {
      NoneFlagged(doc, false);
    }
    forall i: nat, k: nat | Real(doc, i) && (forall j: nat | j < i :: !Real(doc, j))
        && k < |doc[i].parts| && BoldMark(doc[i].parts[k]) && (forall j | 0 <= j < k :: !BoldMark(doc[i].parts[j]))
      ensures First(doc) == Some(doc[i].parts[k].date)
    {
      FirstFlagged(doc, false, i);
      StampInExactly(doc[i].parts, k);
    }
  }

  // Every bold marker of every real line carries the new date afterwards; every other part stands.
  lemma RestampedExactly(doc: Doc, date: Date, i: nat, k: nat)
    requires i < |doc| && k < |doc[i].parts|
    ensures |Restamped(doc, date)| == |doc|
    ensures var line := Restamped(doc, date)[i];
            && line.fence == doc[i].fence && |line.parts| == |doc[i].parts|
            && line.parts[k] == if Real(doc, i) && BoldMark(doc[i].parts[k])
                                then Mark(Bold, doc[i].parts[k].lead, date) else doc[i].parts[k]
  {
    RestampKeeps(doc, date, false);
    FlagsExactly(doc, i);
  }

  function Bolds(parts: seq<Part>): (r: set<nat>) {
    set k | 0 <= k < |parts| && BoldMark(parts[k])
  }

  lemma {:induction false} StampCountExactly(parts: seq<Part>)
    ensures StampCount(parts) == |Bolds(parts)|
    decreases |parts|
  {
    if parts != [] {
      var init, last := parts[..|parts| - 1], parts[|parts| - 1];
      StampCountExactly(init);
      StampCountLast(parts);
      if BoldMark(last) {
        assert Bolds(parts) == Bolds(init) + {|parts| - 1};
      } else {
        assert Bolds(parts) == Bolds(init);
      }
    }
  }

  lemma {:induction false} StampCountLast(parts: seq<Part>)
    requires parts != []
    ensures StampCount(parts)
         == StampCount(parts[..|parts| - 1]) + if BoldMark(parts[|parts| - 1]) then 1 else 0
    decreases |parts|
  {
    if |parts| > 1 {
      assert parts[..|parts| - 1][1..] == parts[1..][..|parts| - 2];
      StampCountLast(parts[1..]);
    } else {
      assert parts[..0] == [] && parts[1..] == [];
    }
  }

  // The number a restamp reports is that of the bold markers on real lines.
  function BoldsOn(doc: Doc, i: nat): nat
    requires i <= |doc|
  {
    if i == 0 then 0 else BoldsOn(doc, i - 1) + if Real(doc, i - 1) then |Bolds(doc[i - 1].parts)| else 0
  }

  lemma {:induction false} MovedUpTo(doc: Doc, inFence: bool, i: nat)
    requires i <= |doc|
    ensures MovedFrom(doc, inFence)
         == MovedFrom(doc[..i], inFence) + MovedFrom(doc[i..], inFence != (Fences(doc[..i]) % 2 == 1))
    decreases i
  {
    if i == 0 {
      assert doc[0..] == doc;
    } else {
      assert doc[..i][1..] == doc[1..][..i - 1] && doc[1..][i - 1..] == doc[i..];
      MovedUpTo(doc[1..], inFence != doc[0].fence, i - 1);
    }
  }

  lemma {:induction false} FencesAppend(lines: seq<Line>, line: Line)
    ensures Fences(lines + [line]) == Fences(lines) + if line.fence then 1 else 0
    decreases |lines|
  {
    if lines == [] {
      assert lines + [line] == [line];
    } else {
      assert (lines + [line])[1..] == lines[1..] + [line];
      FencesAppend(lines[1..], line);
    }
  }

  lemma {:induction false} MovedExactly(doc: Doc, i: nat)
    requires i <= |doc|
    ensures MovedFrom(doc[..i], false) == BoldsOn(doc, i)
    decreases i
  {
    if i > 0 {
      var before, line := doc[..i - 1], doc[i - 1];
      MovedExactly(doc, i - 1);
      MovedUpTo(doc[..i], false, i - 1);
      assert doc[..i][..i - 1] == before && doc[..i][i - 1..] == [line];
      FlagsExactly(doc, i - 1);
      FlagsFrom(doc, false, i - 1);
      StampCountExactly(line.parts);
      assert [line][1..] == [];
    }
  }

  // -------------------------------------------------------------------------
  // What restamping keeps
  // -------------------------------------------------------------------------

  lemma {:induction false} StampInRestamped(parts: seq<Part>, date: Date)
    ensures StampIn(RestampParts(parts, date)) == if StampIn(parts).Some? then Some(date) else None
    decreases |parts|
  {
    if parts != [] {
      assert RestampParts(parts, date)[1..] == RestampParts(parts[1..], date);
      StampInRestamped(parts[1..], date);
    }
  }

  // Only dates of real stamps change: lines, fences and fenced lines stand, every part but a stamp's date stands, and
  // what counts as a stamp is the same.
  lemma {:induction false} RestampKeeps(doc: Doc, date: Date, inFence: bool)
    ensures var r, flags := RestampFrom(doc, date, inFence), Flags(doc, inFence);
            && Flags(r, inFence) == flags
            && forall i | 0 <= i < |doc| :: r[i] == if flags[i] then RestampLine(doc[i], date) else doc[i]
    decreases |doc|
  {
    if doc != [] {
      StampInRestamped(doc[0].parts, date);
      RestampKeeps(doc[1..], date, inFence != doc[0].fence);
      var r, flags := RestampFrom(doc, date, inFence), Flags(doc, inFence);
      assert r[1..] == RestampFrom(doc[1..], date, inFence != doc[0].fence);
      assert flags[1..] == Flags(doc[1..], inFence != doc[0].fence);
      forall i | 1 <= i < |doc| ensures r[i] == if flags[i] then RestampLine(doc[i], date) else doc[i] {
        assert r[i] == r[1..][i - 1] && flags[i] == flags[1..][i - 1] && doc[i] == doc[1..][i - 1];
      }
    }
  }

  lemma {:induction false} FirstRestamped(doc: Doc, date: Date, inFence: bool)
    ensures FirstFrom(RestampFrom(doc, date, inFence), inFence)
         == if FirstFrom(doc, inFence).Some? then Some(date) else None
    decreases |doc|
  {
    if doc != [] {
      StampInRestamped(doc[0].parts, date);
      FirstRestamped(doc[1..], date, inFence != doc[0].fence);
      var r := RestampFrom(doc, date, inFence);
      assert r[1..] == RestampFrom(doc[1..], date, inFence != doc[0].fence);
    }
  }

  lemma RestampLineTwice(line: Line, first: Date, second: Date)
    ensures RestampLine(RestampLine(line, first), second) == RestampLine(line, second)
  {
  }

  lemma RestampTwice(doc: Doc, first: Date, second: Date)
    ensures Restamped(Restamped(doc, first), second) == Restamped(doc, second)
  {
    var once := Restamped(doc, first);
    RestampKeeps(doc, first, false);
    RestampKeeps(once, second, false);
    RestampKeeps(doc, second, false);
    forall i | 0 <= i < |doc| ensures Restamped(once, second)[i] == Restamped(doc, second)[i] {
      RestampLineTwice(doc[i], first, second);
    }
  }

  // -------------------------------------------------------------------------
  // The diff of a restamp
  // -------------------------------------------------------------------------

  // A line that is one stamp and nothing else, as the diff filter knows it.
  predicate WholeStamp(line: Line) {
    && line.parts != [] && IsStamp(line.parts[0])
    && forall i | 0 < i < |line.parts| :: line.parts[i].Plain? && Strip(line.parts[i].text) == ""
  }

  // The line opens with a bold marker, and only white text follows.
  lemma WholeStampExactly(line: Line)
    ensures WholeStamp(line) <==>
            && line.parts != [] && BoldMark(line.parts[0])
            && forall i | 0 < i < |line.parts| :: line.parts[i].Plain? && AllWhite(line.parts[i].text)
  {
    forall i | 0 < i < |line.parts| && line.parts[i].Plain?
      ensures Strip(line.parts[i].text) == "" <==> AllWhite(line.parts[i].text)
    {
      StripsAway(line.parts[i].text);
    }
  }

  // Every real stamp is a whole line.
  predicate WholeStamps(doc: Doc) {
    forall i | 0 <= i < |doc| && Flags(doc, false)[i] :: WholeStamp(doc[i])
  }

  lemma {:induction false} ChangedLine(from: Doc, to: Doc, x: Line) returns (i: nat)
    requires |from| == |to| && x in Changed(from, to)
    ensures i < |from| && from[i] == x && to[i] != x
    decreases |from|
  {
    if from[0] != to[0] && from[0] == x {
      i := 0;
    } else {
      i := ChangedLine(from[1..], to[1..], x);
      i := i + 1;
    }
  }

  lemma {:induction false} LineChanged(from: Doc, to: Doc, i: nat)
    requires |from| == |to| && i < |from| && from[i] != to[i]
    ensures from[i] in Changed(from, to)
    decreases |from|
  {
    if i > 0 {
      LineChanged(from[1..], to[1..], i - 1);
    }
  }

  // No line is both replaced and a replacement: the one is moved by restamping, the other is not.
  lemma RestampDisjoint(doc: Doc, date: Date)
    ensures var r := Restamped(doc, date); Changed(doc, r) !! Changed(r, doc)
  {
    var r := Restamped(doc, date);
    RestampKeeps(doc, date, false);
    forall x | x in Changed(doc, r) ensures x !in Changed(r, doc) {
      var i := ChangedLine(doc, r, x);
      if x in Changed(r, doc) {
        var j := ChangedLine(r, doc, x);
        RestampLineTwice(doc[j], date, date);
      }
    }
  }

  // Every minimal edit script of a restamp deletes and inserts exactly the stamp lines it moved, even when other
  // lines, fenced ones say, have the same text.
  lemma RestampScript(doc: Doc, date: Date, script: seq<Edit<Line>>)
    requires Minimal(script, doc, Restamped(doc, date))
    ensures var r := Restamped(doc, date);
            Deleted(script) == Changed(doc, r) && Inserted(script) == Changed(r, doc)
  {
    RestampDisjoint(doc, date);
    MinimalScriptIsThePositionalOne(script, doc, Restamped(doc, date));
  }
}
