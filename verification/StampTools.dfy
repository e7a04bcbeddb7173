// The two tools over stamps: the updater's walk over the documents (scripts/validate/update_all_docs.py) and the
// validator with its `--fix` (scripts/validate/validate_last_updated.py), and how far they agree.
module StampTools {
  import opened Texts
  import opened Windows
  import opened Wrappers
  import opened Stamps
  import opened StampHistory

  // -------------------------------------------------------------------------
  // The updater
  // -------------------------------------------------------------------------

  type Path = string

  datatype Update = Update(path: Path, from: Date, to: Date)

  function HistoryOf(histories: map<Path, seq<Commit>>, path: Path): seq<Commit> {
    if path in histories then histories[path] else []
  }

  // What a document at `path` would be moved from and to.
  function Proposal(tree: map<Path, Doc>, histories: map<Path, seq<Commit>>, path: Path): Option<Update> {
    var history := HistoryOf(histories, path);
    if path in tree && Stale(tree[path], history)
    then Some(Update(path, First(tree[path]).value, ContentDate(history).value)) else None
  }

  function VisitOne(tree: map<Path, Doc>, histories: map<Path, seq<Commit>>, path: Path): map<Path, Doc> {
    if path in tree then tree[path := Updated(tree[path], HistoryOf(histories, path))] else tree
  }

  // The documents after the walk has visited `paths` applying its updates.
  function Visited(tree: map<Path, Doc>, histories: map<Path, seq<Commit>>, paths: seq<Path>): map<Path, Doc>
    decreases |paths|
  {
    if paths == [] then tree else Visited(VisitOne(tree, histories, paths[0]), histories, paths[1..])
  }

  // The updates the walk logs, in order.
  function Logged(tree: map<Path, Doc>, histories: map<Path, seq<Commit>>, paths: seq<Path>, apply: bool): seq<Update>
    decreases |paths|
  {
    if paths == [] then []
    else
      var proposal := Proposal(tree, histories, paths[0]);
      (if proposal.Some? then [proposal.value] else [])
      + Logged(if apply then VisitOne(tree, histories, paths[0]) else tree, histories, paths[1..], apply)
  }

  class DocumentationUpdater {
    const apply: bool
    const histories: map<Path, seq<Commit>>
    var tree: map<Path, Doc>
    var updates: seq<Update>

    constructor (apply: bool, histories: map<Path, seq<Commit>>, tree: map<Path, Doc>)
      ensures this.apply == apply && this.histories == histories && this.tree == tree && updates == []
    {
      this.apply, this.histories, this.tree, this.updates := apply, histories, tree, [];
    }

    method UpdateLastUpdatedDates(paths: seq<Path>)
      modifies this
      ensures tree == if apply then Visited(old(tree), histories, paths) else old(tree)
      ensures updates == old(updates) + Logged(old(tree), histories, paths, apply)
    {
      var i := 0;
      while i < |paths|
        invariant 0 <= i <= |paths|
        invariant if apply then Visited(tree, histories, paths[i..]) == Visited(old(tree), histories, paths)
                  else tree == old(tree)
        invariant updates + Logged(tree, histories, paths[i..], apply)
               == old(updates) + Logged(old(tree), histories, paths, apply)
      {
        assert paths[i..][0] == paths[i] && paths[i..][1..] == paths[i + 1..];
        UpdateOne(paths[i], paths[i + 1..]);
        i := i + 1;
      }
      assert updates + [] == updates;
    }

    method UpdateOne(path: Path, ghost rest: seq<Path>)
      modifies this
      ensures tree == if apply then VisitOne(old(tree), histories, path) else old(tree)
      ensures updates + Logged(tree, histories, rest, apply)
           == old(updates) + Logged(old(tree), histories, [path] + rest, apply)
    {
      assert ([path] + rest)[1..] == rest;
      ghost var proposal := Proposal(tree, histories, path);
      ghost var logged := Logged(if apply then VisitOne(tree, histories, path) else tree, histories, rest, apply);
      Assoc(updates, if proposal.Some? then [proposal.value] else [], logged);
      assert updates + [] == updates;
      if path in tree {
        var doc := tree[path];
        var history := HistoryOf(histories, path);
        var gitDate := GitContentDate(history);
        var docDate := FirstStamp(doc);
        assert tree == tree[path := doc];
        if gitDate.Some? && docDate.Some? && Earlier(docDate.value, gitDate.value) {
          if apply {
            var out, moved := Restamp(doc, gitDate.value);
            tree := tree[path := out];
          }
          updates := updates + [Update(path, docDate.value, gitDate.value)];
        }
      }
    }
  }

  // Every document visited is brought up to date, once and for all; the others are as they were.
  lemma {:induction false} VisitedIsUpdated(tree: map<Path, Doc>, histories: map<Path, seq<Commit>>, paths: seq<Path>)
    ensures var after := Visited(tree, histories, paths);
            && after.Keys == tree.Keys
            && forall path | path in tree ::
                 after[path] == if path in paths then Updated(tree[path], HistoryOf(histories, path)) else tree[path]
    decreases |paths|
  {
    if paths != [] {
      var first := paths[0];
      VisitedIsUpdated(VisitOne(tree, histories, first), histories, paths[1..]);
      if first in tree {
        UpdatedIsSettled(tree[first], HistoryOf(histories, first));
      }
    }
  }

  lemma {:induction false} NothingToLog(
    tree: map<Path, Doc>, histories: map<Path, seq<Commit>>, paths: seq<Path>, apply: bool)
    requires forall path | path in paths :: Proposal(tree, histories, path).None?
    ensures Logged(tree, histories, paths, apply) == [] && Visited(tree, histories, paths) == tree
    decreases |paths|
  {
    if paths != [] {
      assert paths[0] in paths;
      assert VisitOne(tree, histories, paths[0]) == tree;
      NothingToLog(tree, histories, paths[1..], apply);
    }
  }

  // A second run, over the same documents and history, logs nothing and changes nothing.
  lemma SecondRunIsSilent(
    tree: map<Path, Doc>, histories: map<Path, seq<Commit>>, paths: seq<Path>, apply: bool)
    ensures var after := Visited(tree, histories, paths);
            Logged(after, histories, paths, apply) == [] && Visited(after, histories, paths) == after
  {
    var after := Visited(tree, histories, paths);
    VisitedIsUpdated(tree, histories, paths);
    forall path | path in paths ensures Proposal(after, histories, path).None? {
      if path in tree {
        UpdatedIsSettled(tree[path], HistoryOf(histories, path));
      }
    }
    NothingToLog(after, histories, paths, apply);
  }

  // Whether a document at `path` is behind its content: it shows a stamp, and a change is later than it.
  predicate Behind(tree: map<Path, Doc>, histories: map<Path, seq<Commit>>, path: Path) {
    && path in tree && path in histories
    && First(tree[path]).Some? && ContentDate(histories[path]).Some?
    && Earlier(First(tree[path]).value, ContentDate(histories[path]).value)
  }

  // What the log says of such a document: where it stands, the date it shows and the date of its content.
  predicate Tells(tree: map<Path, Doc>, histories: map<Path, seq<Commit>>, update: Update)
    requires Behind(tree, histories, update.path)
  {
    First(tree[update.path]) == Some(update.from) && ContentDate(histories[update.path]) == Some(update.to)
  }

  // A dry run logs every visited document that is behind its content, with the dates it shows and ought to show, and
  // nothing else.
  lemma {:induction false} DryRunLogs(
    tree: map<Path, Doc>, histories: map<Path, seq<Commit>>, paths: seq<Path>, update: Update)
    ensures update in Logged(tree, histories, paths, false) <==>
            update.path in paths && Behind(tree, histories, update.path) && Tells(tree, histories, update)
    decreases |paths|
  {
    if paths != [] {
      DryRunLogs(tree, histories, paths[1..], update);
      assert update.path in paths <==> update.path == paths[0] || update.path in paths[1..];
    }
  }

  // In the order of the walk: what is logged of a first stretch of it comes before what is logged of the rest.
  lemma {:induction false} LogInOrder(
    tree: map<Path, Doc>, histories: map<Path, seq<Commit>>, first: seq<Path>, rest: seq<Path>)
    ensures Logged(tree, histories, first + rest, false)
         == Logged(tree, histories, first, false) + Logged(tree, histories, rest, false)
    decreases |first|
  {
    if first == [] {
      assert first + rest == rest;
    } else {
      assert (first + rest)[1..] == first[1..] + rest;
      LogInOrder(tree, histories, first[1..], rest);
    }
  }

  predicate Distinct(paths: seq<Path>) {
    forall i, j | 0 <= i < j < |paths| :: paths[i] != paths[j]
  }

  lemma {:induction false} SameLogFrom(
    tree: map<Path, Doc>, written: map<Path, Doc>, histories: map<Path, seq<Commit>>, paths: seq<Path>)
    requires Distinct(paths) && tree.Keys == written.Keys
    requires forall path | path in paths && path in tree :: written[path] == tree[path]
    ensures Logged(written, histories, paths, true) == Logged(tree, histories, paths, false)
    decreases |paths|
  {
    if paths != [] {
      assert paths[0] in paths && paths[0] !in paths[1..];
      SameLogFrom(tree, VisitOne(written, histories, paths[0]), histories, paths[1..]);
    }
  }

  // A walk that visits each document once logs the same updates, in the same order, whether or not it writes them.
  lemma SameLog(tree: map<Path, Doc>, histories: map<Path, seq<Commit>>, paths: seq<Path>)
    requires Distinct(paths)
    ensures Logged(tree, histories, paths, true) == Logged(tree, histories, paths, false)
  {
    SameLogFrom(tree, tree, histories, paths);
  }

  // -------------------------------------------------------------------------
  // The validator
  // -------------------------------------------------------------------------

  function DaysIn(year: int, month: int): int {
    if month == 2 then (if year % 4 == 0 && (year % 100 != 0 || year % 400 == 0) then 29 else 28)
    else if month == 4 || month == 6 || month == 9 || month == 11 then 30
    else 31
  }

  // Text that names a day of the calendar.
  predicate Calendar(d: Date) {
    DateShaped(d) && Year(d) >= 1 && 1 <= Month(d) <= 12 && 1 <= Day(d) <= DaysIn(Year(d), Month(d))
  }

  predicate Leap(year: int) {
    year % 400 == 0 || (year % 4 == 0 && year % 100 != 0)
  }

  // Days of the months up to `month`.
  function DaysBy(year: int, month: nat): int {
    if month == 0 then 0 else DaysBy(year, month - 1) + DaysIn(year, month)
  }

  // Beside February, long and short months take turns up to July and again from August.
  lemma MonthsTakeTurns(year: int, month: int)
    requires 1 <= month <= 12
    ensures DaysIn(year, month) ==
            if month == 2 then 28 + (if Leap(year) then 1 else 0) else 30 + (month + month / 8) % 2
  {
  }

  lemma TwelfthsStep(month: int)
    requires 1 <= month <= 12
    ensures (367 * month + 5) / 12 == (367 * (month - 1) + 5) / 12 + 30 + (month + month / 8) % 2
  {
  }

  // The months up to one make up the days of the year before the next, and all twelve the year.
  lemma {:induction false} CalendarIsGregorian(year: int, month: nat)
    requires month <= 12
    ensures DaysBy(year, month) == (367 * month + 5) / 12 - if month < 2 then 0 else if Leap(year) then 1 else 2
    ensures month == 12 ==> DaysBy(year, month) == 365 + if Leap(year) then 1 else 0
    decreases month
  {
    if month > 0 {
      CalendarIsGregorian(year, month - 1);
      MonthsTakeTurns(year, month);
      TwelfthsStep(month);
    }
  }

  predicate Precedes(a: Date, b: Date)
    requires DateShaped(a) && DateShaped(b)
  {
    Year(a) < Year(b) || (Year(a) == Year(b) && (Month(a) < Month(b) || (Month(a) == Month(b) && Day(a) < Day(b))))
  }

  // The first marker of a line, in any spelling.
  function MarkIn(parts: seq<Part>): (mark: Option<Part>)
    ensures mark.Some? ==> mark.value.Mark?
  {
    if parts == [] then None else if parts[0].Mark? then Some(parts[0]) else MarkIn(parts[1..])
  }

  datatype Marker = Marker(line: nat, date: Date)

  function MarkerOf(line: Line, inFence: bool, number: nat): Option<Marker> {
    if line.fence || inFence || MarkIn(line.parts).None? || !Calendar(MarkIn(line.parts).value.date) then None
    else Some(Marker(number, MarkIn(line.parts).value.date))
  }

  // Every real marker of the lines from number `at` on, numbered from 1.
  function MarkersFrom(doc: Doc, inFence: bool, at: nat): (r: seq<Marker>)
    ensures forall marker | marker in r :: at <= marker.line < at + |doc| && Calendar(marker.date)
  {
    if doc == [] then []
    else
      var marker := MarkerOf(doc[0], inFence, at);
      (if marker.Some? then [marker.value] else []) + MarkersFrom(doc[1..], inFence != doc[0].fence, at + 1)
  }

  function Markers(doc: Doc): seq<Marker> {
    MarkersFrom(doc, false, 1)
  }

  method FindLastUpdatedMarkers(doc: Doc) returns (markers: seq<Marker>)
    ensures markers == Markers(doc)
  {
    markers := [];
    var inFence := false;
    var i := 0;
    while i < |doc|
      invariant 0 <= i <= |doc|
      invariant markers + MarkersFrom(doc[i..], inFence, i + 1) == Markers(doc)
    {
      assert doc[i..][0] == doc[i] && doc[i..][1..] == doc[i + 1..];
      ghost var before := markers;
      ghost var marker := MarkerOf(doc[i], inFence, i + 1);
      if doc[i].fence {
        inFence := !inFence;
      } else if !inFence {
        var mark := MarkIn(doc[i].parts);
        if mark.Some? && Calendar(mark.value.date) {
          markers := markers + [Marker(i + 1, mark.value.date)];
        }
      }
      Assoc(before, if marker.Some? then [marker.value] else [], MarkersFrom(doc[i + 1..], inFence, i + 2));
      assert before + [] == before;
      i := i + 1;
    }
    assert markers + [] == markers;
  }

  predicate StaleMarker(marker: Marker, gitDate: Date)
    requires DateShaped(marker.date) && DateShaped(gitDate)
  {
    Precedes(marker.date, gitDate)
  }

  // No marker of the document is earlier than its content.
  predicate Clean(doc: Doc, gitDate: Date)
    requires DateShaped(gitDate)
  {
    forall marker | marker in Markers(doc) :: !StaleMarker(marker, gitDate)
  }

  // `update_last_updated`: the first date on the line, whatever it belongs to, becomes `date`.
  function Redated(parts: seq<Part>, date: Date): seq<Part> {
    if parts == [] then []
    else if parts[0].Plain? then [parts[0]] + Redated(parts[1..], date)
    else [parts[0].(date := date)] + parts[1..]
  }

  function FixedLine(doc: Doc, number: nat, date: Date): Doc {
    if 1 <= number <= |doc| then doc[number - 1 := doc[number - 1].(parts := Redated(doc[number - 1].parts, date))]
    else doc
  }

  function FixedAll(doc: Doc, stale: seq<Marker>, date: Date): Doc
    decreases |stale|
  {
    if stale == [] then doc else FixedAll(FixedLine(doc, stale[0].line, date), stale[1..], date)
  }

  predicate Above(first: seq<Marker>, rest: seq<Marker>) {
    forall marker | marker in first :: forall other | other in rest :: marker.line < other.line
  }

  // The markers compared and found stale, an archived document's never.
  method StaleMarkers(markers: seq<Marker>, archived: bool, gitDate: Date) returns (stale: seq<Marker>)
    requires DateShaped(gitDate) && forall marker | marker in markers :: DateShaped(marker.date)
    ensures forall marker :: marker in stale <==> marker in markers && !archived && StaleMarker(marker, gitDate)
    ensures GoesDown(markers) ==> GoesDown(stale)
  {
    stale := [];
    for i := 0 to |markers|
      invariant GoesDown(markers) ==> GoesDown(stale) && Above(stale, markers[i..])
      invariant forall marker | marker in stale :: marker in markers && !archived && StaleMarker(marker, gitDate)
      invariant forall k | 0 <= k < i && !archived && StaleMarker(markers[k], gitDate) :: markers[k] in stale
    {
      if !archived && StaleMarker(markers[i], gitDate) {
        stale := stale + [markers[i]];
      }
    }
  }

  method FixLines(doc: Doc, stale: seq<Marker>, gitDate: Date) returns (out: Doc)
    ensures out == FixedAll(doc, stale, gitDate)
  {
    out := doc;
    var k := 0;
    while k < |stale|
      invariant 0 <= k <= |stale|
      invariant FixedAll(out, stale[k..], gitDate) == FixedAll(doc, stale, gitDate)
    {
      assert stale[k..][0] == stale[k] && stale[k..][1..] == stale[k + 1..];
      out := FixedLine(out, stale[k].line, gitDate);
      k := k + 1;
    }
  }

  // The validator's pass over one document, and its `--fix`: the stale markers found, then rewritten line by line. An
  // archived document, or one git does not know, has none; one without a marker is missing its date unless archived.
  method Validate(doc: Doc, archived: bool, gitDate: Option<Date>, fix: bool)
    returns (missing: bool, stale: seq<Marker>, out: Doc)
    requires gitDate.Some? ==> DateShaped(gitDate.value)
    ensures missing <==> Markers(doc) == [] && !archived
    ensures stale == [] <==> archived || gitDate.None? || Clean(doc, gitDate.value)
    ensures forall marker :: marker in stale <==>
              marker in Markers(doc) && !archived && gitDate.Some? && StaleMarker(marker, gitDate.value)
    ensures GoesDown(stale)
    ensures out == if fix && gitDate.Some? then FixedAll(doc, stale, gitDate.value) else doc
  {
    var markers := FindLastUpdatedMarkers(doc);
    missing, stale, out := markers == [] && !archived, [], doc;
    if gitDate.Some? {
      stale := StaleMarkers(markers, archived, gitDate.value);
      MarkersGoDown(doc, false, 1);
      assert stale != [] ==> stale[0] in stale;
      if fix {
        out := FixLines(doc, stale, gitDate.value);
      }
    }
  }

  // -------------------------------------------------------------------------
  // Agreement
  // -------------------------------------------------------------------------

  // Whether line `i` stands inside a fence.
  function FencedAt(doc: Doc, i: nat, inFence: bool): bool
    requires i <= |doc|
  {
    if i == 0 then inFence else FencedAt(doc[1..], i - 1, inFence != doc[0].fence)
  }

  // The markers found are the real markers of the lines, each under its own line number.
  lemma {:induction false} MarkersAreTheLines(doc: Doc, inFence: bool, at: nat, marker: Marker)
    ensures marker in MarkersFrom(doc, inFence, at) <==>
            at <= marker.line < at + |doc|
            && MarkerOf(doc[marker.line - at], FencedAt(doc, marker.line - at, inFence), marker.line) == Some(marker)
    decreases |doc|
  {
    if doc != [] {
      var first := MarkerOf(doc[0], inFence, at);
      var rest := MarkersFrom(doc[1..], inFence != doc[0].fence, at + 1);
      MarkersAreTheLines(doc[1..], inFence != doc[0].fence, at + 1, marker);
      assert marker in MarkersFrom(doc, inFence, at) <==> first == Some(marker) || marker in rest;
      if marker.line > at && marker.line < at + |doc| {
        assert doc[1..][marker.line - at - 1] == doc[marker.line - at];
      }
    }
  }

  // The leftmost marker of a line, in any spelling.
  predicate Leftmost(parts: seq<Part>, k: nat) {
    k < |parts| && parts[k].Mark? && forall j | 0 <= j < k :: !parts[j].Mark?
  }

  ghost predicate LeftmostDate(parts: seq<Part>, date: Date) {
    exists k: nat :: Leftmost(parts, k) && parts[k].date == date
  }

  lemma {:induction false} MarkInExactly(parts: seq<Part>, part: Part)
    ensures MarkIn(parts) == Some(part) <==> exists k: nat :: Leftmost(parts, k) && parts[k] == part
    decreases |parts|
  {
    if parts == [] {
    } else if parts[0].Mark? {
      assert Leftmost(parts, 0);
    } else {
      MarkInExactly(parts[1..], part);
      if MarkIn(parts) == Some(part) {
        var k: nat :| Leftmost(parts[1..], k) && parts[1..][k] == part;
        assert Leftmost(parts, k + 1);
      }
      if k: nat :| Leftmost(parts, k) && parts[k] == part {
        assert Leftmost(parts[1..], k - 1);
      }
    }
  }

  lemma {:induction false} FencedCount(doc: Doc, i: nat, inFence: bool)
    requires i <= |doc|
    ensures FencedAt(doc, i, inFence) == ((Fences(doc[..i]) % 2 == 1) != inFence)
    decreases i
  {
    if i > 0 {
      assert doc[..i][1..] == doc[1..][..i - 1];
      FencedCount(doc[1..], i - 1, inFence != doc[0].fence);
    }
  }

  // What is found, said of the lines alone: a line that is no fence, below an even number of them, whose leftmost
  // marker names a day of the calendar.
  lemma MarkersExactly(doc: Doc, marker: Marker)
    ensures marker in Markers(doc) <==>
            && 1 <= marker.line <= |doc|
            && !doc[marker.line - 1].fence && Fences(doc[..marker.line - 1]) % 2 == 0
            && Calendar(marker.date)
            && LeftmostDate(doc[marker.line - 1].parts, marker.date)
  {
    MarkersAreTheLines(doc, false, 1, marker);
    if 1 <= marker.line <= |doc| {
      var line := doc[marker.line - 1];
      FencedCount(doc, marker.line - 1, false);
      if k: nat :| Leftmost(line.parts, k) && line.parts[k].date == marker.date {
        MarkInExactly(line.parts, line.parts[k]);
      }
      if MarkIn(line.parts).Some? {
        MarkInExactly(line.parts, MarkIn(line.parts).value);
      }
    }
  }

  // Down the document: at most one marker a line, each further down than the last.
  predicate GoesDown(markers: seq<Marker>) {
    forall i, j | 0 <= i < j < |markers| :: markers[i].line < markers[j].line
  }

  lemma {:induction false} MarkersGoDown(doc: Doc, inFence: bool, at: nat)
    ensures GoesDown(MarkersFrom(doc, inFence, at))
    decreases |doc|
  {
    if doc != [] {
      MarkersGoDown(doc[1..], inFence != doc[0].fence, at + 1);
      var rest := MarkersFrom(doc[1..], inFence != doc[0].fence, at + 1);
      forall k | 0 <= k < |rest| ensures rest[k].line > at {
        assert rest[k] in rest;
      }
    }
  }

  // The line of the first real stamp shows the validator that stamp: no other marker stands before it and its date
  // is one.
  predicate FirstLegible(doc: Doc, inFence: bool) {
    doc != [] ==>
      if RealStamp(doc[0], inFence)
      then var mark := MarkIn(doc[0].parts); mark.Some? && IsStamp(mark.value) && Calendar(mark.value.date)
      else FirstLegible(doc[1..], inFence != doc[0].fence)
  }

  lemma {:induction false} StampIsMark(parts: seq<Part>)
    ensures StampIn(parts).Some? ==> MarkIn(parts).Some?
    ensures MarkIn(parts).Some? && IsStamp(MarkIn(parts).value) ==> StampIn(parts) == Some(MarkIn(parts).value.date)
    decreases |parts|
  {
    if parts != [] {
      StampIsMark(parts[1..]);
    }
  }

  lemma {:induction false} FirstLegibleIsMarker(doc: Doc, inFence: bool, at: nat)
    requires FirstLegible(doc, inFence) && FirstFrom(doc, inFence).Some?
    ensures exists marker :: marker in MarkersFrom(doc, inFence, at) && marker.date == FirstFrom(doc, inFence).value
    decreases |doc|
  {
    var first := MarkerOf(doc[0], inFence, at);
    var rest := MarkersFrom(doc[1..], inFence != doc[0].fence, at + 1);
    StampIsMark(doc[0].parts);
    if RealStamp(doc[0], inFence) {
      assert first.value in MarkersFrom(doc, inFence, at);
    } else {
      FirstLegibleIsMarker(doc[1..], inFence != doc[0].fence, at + 1);
      var marker :| marker in rest && marker.date == FirstFrom(doc, inFence).value;
      assert marker in MarkersFrom(doc, inFence, at);
    }
  }

  // The marker with the earliest date.
  lemma {:induction false} LeastMarker(markers: seq<Marker>) returns (least: Marker)
    requires markers != [] && forall marker | marker in markers :: DateShaped(marker.date)
    ensures least in markers && forall marker | marker in markers :: !Precedes(marker.date, least.date)
  {
    if |markers| == 1 {
      least := markers[0];
    } else {
      least := LeastMarker(markers[1..]);
      least := if Precedes(markers[0].date, least.date) then markers[0] else least;
    }
  }

  // Whenever the validator is content the updater has nothing to move.
  ghost predicate ContentImpliesCurrent(doc: Doc) {
    forall date | DateShaped(date) && Clean(doc, date) :: !Outdated(doc, date)
  }

  // Whenever the updater has nothing to move the validator is content.
  ghost predicate CurrentImpliesContent(doc: Doc) {
    forall date | DateShaped(date) && !Outdated(doc, date) :: Clean(doc, date)
  }

  // The two tools' verdicts on one document, whatever its content date: the validator's approval is enough for the
  // updater exactly when some marker is no later than the first stamp, and the updater's for the validator exactly
  // when no marker is earlier than it.
  lemma ToolsAgreeExactly(doc: Doc)
    requires First(doc).Some? && DateShaped(First(doc).value) && Markers(doc) != []
    ensures ContentImpliesCurrent(doc) <==>
            exists marker :: marker in Markers(doc) && !Earlier(First(doc).value, marker.date)
    ensures CurrentImpliesContent(doc) <==>
            forall marker | marker in Markers(doc) :: !Earlier(marker.date, First(doc).value)
  {
    var stamp := First(doc).value;
    OrderOfMarkers(doc, stamp);
    var least := LeastMarker(Markers(doc));
    EarlierIrreflexive(stamp);
    if marker :| marker in Markers(doc) && !Earlier(stamp, marker.date) {
      forall date | DateShaped(date) && Clean(doc, date) ensures !Outdated(doc, date) {
        TextOrderIsDateOrder(stamp, date);
      }
    }
    if ContentImpliesCurrent(doc) {
      assert Clean(doc, least.date);
    }
    if forall marker | marker in Markers(doc) :: !Earlier(marker.date, stamp) {
      forall date | DateShaped(date) && !Outdated(doc, date) ensures Clean(doc, date) {
        TextOrderIsDateOrder(stamp, date);
      }
    }
    if CurrentImpliesContent(doc) {
      assert Clean(doc, stamp);
    }
  }

  // Between markers and a date-shaped stamp the updater's order is the validator's.
  lemma OrderOfMarkers(doc: Doc, stamp: Date)
    requires DateShaped(stamp)
    ensures forall marker | marker in Markers(doc) ::
              && Earlier(stamp, marker.date) == Precedes(stamp, marker.date)
              && Earlier(marker.date, stamp) == Precedes(marker.date, stamp)
  {
    forall marker | marker in Markers(doc)
      ensures Earlier(stamp, marker.date) == Precedes(stamp, marker.date)
      ensures Earlier(marker.date, stamp) == Precedes(marker.date, stamp)
    {
      TextOrderIsDateOrder(stamp, marker.date);
      TextOrderIsDateOrder(marker.date, stamp);
    }
  }

  // The tools agree at every content date exactly when the earliest marker carries the first stamp's date.
  lemma ToolsAgreeAtEveryDate(doc: Doc, least: Marker)
    requires First(doc).Some? && DateShaped(First(doc).value)
    requires least in Markers(doc) && forall marker | marker in Markers(doc) :: !Precedes(marker.date, least.date)
    ensures (forall date | DateShaped(date) :: Clean(doc, date) <==> !Outdated(doc, date))
       <==> least.date == First(doc).value
  {
    var stamp := First(doc).value;
    ToolsAgreeExactly(doc);
    OrderOfMarkers(doc, stamp);
    EarlierIrreflexive(stamp);
    if forall date | DateShaped(date) :: Clean(doc, date) <==> !Outdated(doc, date) {
      assert ContentImpliesCurrent(doc) && CurrentImpliesContent(doc);
      SameDay(least.date, stamp);
    }
    if least.date == stamp {
      assert ContentImpliesCurrent(doc) && CurrentImpliesContent(doc);
    }
  }

  // Dates are one text each.
  lemma SameDay(a: Date, b: Date)
    requires DateShaped(a) && DateShaped(b) && !Precedes(a, b) && !Precedes(b, a)
    ensures a == b
  {
    assert Year(a) == Year(b) && Month(a) == Month(b) && Day(a) == Day(b);
    assert forall i | 0 <= i < 10 && i != 4 && i != 7 :: 0 <= Value(a[i]) <= 9 && 0 <= Value(b[i]) <= 9;
    assert Value(a[0]) == Value(b[0]) && Value(a[1]) == Value(b[1]);
    assert Value(a[2]) == Value(b[2]) && Value(a[3]) == Value(b[3]);
  }

  // A number in decimal, in so many digits.
  function Written(n: nat, width: nat): (r: string)
    ensures |r| == width && forall c | c in r :: Digit(c)
  {
    if width == 0 then "" else Written(n / 10, width - 1) + [('0' as int + n % 10) as char]
  }

  function WrittenDate(year: nat, month: nat, day: nat): Date {
    Written(year, 4) + "-" + (Written(month, 2) + "-" + Written(day, 2))
  }

  lemma TwoDigits(n: nat)
    requires n < 100
    ensures var r := Written(n, 2); 10 * Value(r[0]) + Value(r[1]) == n
  {
    assert Written(n / 10, 1) == [('0' as int + n / 10) as char];
  }

  lemma FourDigits(n: nat)
    requires n < 10000
    ensures var r := Written(n, 4); 1000 * Value(r[0]) + 100 * Value(r[1]) + 10 * Value(r[2]) + Value(r[3]) == n
  {
    var r := Written(n, 4);
    assert n / 10 / 10 == n / 100;
    assert r[..3] == Written(n / 10, 3) && r[..3][..2] == r[..2] == Written(n / 100, 2);
    TwoDigits(n / 100);
  }

  // Writing a date and reading it are inverse.
  lemma DatesReadBack(year: nat, month: nat, day: nat)
    requires year < 10000 && month < 100 && day < 100
    ensures var d := WrittenDate(year, month, day);
            DateShaped(d) && Year(d) == year && Month(d) == month && Day(d) == day
  {
    FourDigits(year);
    TwoDigits(month);
    TwoDigits(day);
    var d := WrittenDate(year, month, day);
    forall i | 0 <= i < 10 && i != 4 && i != 7 ensures Digit(d[i]) {
      assert d[i] in Written(year, 4) || d[i] in Written(month, 2) || d[i] in Written(day, 2);
    }
  }

  // The dates the validator reads are the days of the calendar from year 1 to 9999 in their one spelling.
  lemma CalendarExactly(d: string)
    ensures Calendar(d) <==>
            exists year: nat, month: nat, day: nat | 1 <= year <= 9999 && 1 <= month <= 12 ::
              1 <= day <= DaysIn(year, month) && d == WrittenDate(year, month, day)
  {
    if Calendar(d) {
      assert forall i | 0 <= i < 10 && i != 4 && i != 7 :: 0 <= Value(d[i]) <= 9;
      DatesReadBack(Year(d), Month(d), Day(d));
      SameDay(d, WrittenDate(Year(d), Month(d), Day(d)));
    }
    if year: nat, month: nat, day: nat :|
      1 <= year <= 9999 && 1 <= month <= 12 && 1 <= day <= DaysIn(year, month) && d == WrittenDate(year, month, day)
    {
      DatesReadBack(year, month, day);
    }
  }

  // Where the validator is content the updater proposes nothing, whenever some marker is no later than the first
  // stamp, as it is when that stamp is legible.
  lemma CleanMeansNothingProposed(doc: Doc, history: seq<Commit>)
    requires ContentDate(history).Some? && DateShaped(ContentDate(history).value)
    requires FirstLegible(doc, false) && Clean(doc, ContentDate(history).value)
    ensures !Stale(doc, history)
  {
    if First(doc).Some? {
      FirstLegibleIsMarker(doc, false, 1);
      var marker :| marker in Markers(doc) && marker.date == First(doc).value;
      EarlierIrreflexive(marker.date);
      ToolsAgreeExactly(doc);
    }
  }

  lemma {:induction false} FlagIs(doc: Doc, inFence: bool, i: nat)
    requires i < |doc|
    ensures Flags(doc, inFence)[i] == RealStamp(doc[i], FencedAt(doc, i, inFence))
    decreases i
  {
    if i > 0 {
      FlagIs(doc[1..], inFence != doc[0].fence, i - 1);
    }
  }

  // A line with a stamp carries the new date once its document is rewritten.
  lemma RestampedLine(doc: Doc, gitDate: Date, i: nat)
    requires i < |doc|
    ensures |Restamped(doc, gitDate)| == |doc|
    ensures var line := Restamped(doc, gitDate)[i];
            RealStamp(line, FencedAt(Restamped(doc, gitDate), i, false)) ==> StampIn(line.parts) == Some(gitDate)
  {
    RestampKeeps(doc, gitDate, false);
    FlagIs(Restamped(doc, gitDate), false, i);
    FlagIs(doc, false, i);
    StampInRestamped(doc[i].parts, gitDate);
  }

  // After the updater has rewritten a document, every marker in the stamp's own spelling is current.
  lemma RestampedMarkersAreCurrent(doc: Doc, gitDate: Date, marker: Marker)
    requires DateShaped(gitDate) && marker in Markers(Restamped(doc, gitDate))
    ensures 1 <= marker.line <= |doc|
    ensures var mark := MarkIn(Restamped(doc, gitDate)[marker.line - 1].parts);
            mark.Some? && IsStamp(mark.value) ==> marker.date == gitDate && !StaleMarker(marker, gitDate)
  {
    MarkersAreTheLines(Restamped(doc, gitDate), false, 1, marker);
    RestampedLine(doc, gitDate, 0);
    RestampedLine(doc, gitDate, marker.line - 1);
    StampIsMark(Restamped(doc, gitDate)[marker.line - 1].parts);
  }

  // -------------------------------------------------------------------------
  // --fix
  // -------------------------------------------------------------------------

  // The first date on the line is its first marker's.
  predicate MarkerLeads(parts: seq<Part>) {
    parts != [] && (parts[0].Mark? || (parts[0].Plain? && MarkerLeads(parts[1..])))
  }

  // The first date of a line, whatever it belongs to, is the one rewritten; a line without one is left as it is.
  lemma {:induction false} RedatedIs(parts: seq<Part>, date: Date, k: nat)
    requires k <= |parts| && (k < |parts| ==> !parts[k].Plain?) && forall j | 0 <= j < k :: parts[j].Plain?
    ensures Redated(parts, date) == if k == |parts| then parts else parts[k := parts[k].(date := date)]
    decreases k
  {
    if k > 0 {
      RedatedIs(parts[1..], date, k - 1);
    }
  }

  // Rewriting a line's first date makes its marker current where the marker leads, and misses it elsewhere; a second
  // rewriting changes nothing.
  lemma {:induction false} RedatedMark(parts: seq<Part>, date: Date)
    ensures MarkerLeads(parts) ==> MarkIn(Redated(parts, date)).Some? && MarkIn(Redated(parts, date)).value.date == date
    ensures !MarkerLeads(parts) ==> MarkIn(Redated(parts, date)) == MarkIn(parts)
    ensures Redated(Redated(parts, date), date) == Redated(parts, date)
    decreases |parts|
  {
    if parts != [] && parts[0].Plain? {
      RedatedMark(parts[1..], date);
      assert Redated(parts, date)[1..] == Redated(parts[1..], date);
    }
  }

  ghost predicate OnLine(stale: seq<Marker>, i: nat) {
    exists marker :: marker in stale && marker.line == i + 1
  }

  // A line is rewritten when a stale marker stands on it, however many do, and is otherwise left alone.
  lemma {:induction false} FixedLines(doc: Doc, stale: seq<Marker>, date: Date)
    requires forall marker | marker in stale :: 1 <= marker.line <= |doc|
    ensures var out := FixedAll(doc, stale, date);
            && |out| == |doc|
            && forall i: nat | i < |doc| ::
                 out[i] == if OnLine(stale, i) then doc[i].(parts := Redated(doc[i].parts, date)) else doc[i]
    decreases |stale|
  {
    if stale != [] {
      var first := stale[0];
      assert first in stale;
      var next := FixedLine(doc, first.line, date);
      RedatedMark(doc[first.line - 1].parts, date);
      FixedLines(next, stale[1..], date);
      forall i: nat | i < |doc| ensures OnLine(stale, i) <==> first.line == i + 1 || OnLine(stale[1..], i) {
        if OnLine(stale, i) {
          var marker :| marker in stale && marker.line == i + 1;
          assert marker == first || marker in stale[1..];
        }
      }
    }
  }

  lemma {:induction false} SameFences(a: Doc, b: Doc, i: nat, inFence: bool)
    requires |a| == |b| && i <= |a| && forall k | 0 <= k < |a| :: a[k].fence == b[k].fence
    ensures FencedAt(a, i, inFence) == FencedAt(b, i, inFence)
    decreases i
  {
    if i > 0 {
      SameFences(a[1..], b[1..], i - 1, inFence != a[0].fence);
    }
  }

  // `--fix` leaves no stale marker if and only if each stale marker's date is the first on its line; every line
  // without one stays byte for byte.
  lemma FixLeavesNoneStale(doc: Doc, stale: seq<Marker>, gitDate: Date)
    requires DateShaped(gitDate)
    requires forall marker | marker in stale :: marker in Markers(doc)
    requires forall marker | marker in Markers(doc) :: marker in stale <==> StaleMarker(marker, gitDate)
    ensures var out := FixedAll(doc, stale, gitDate);
            && (Clean(out, gitDate) <==> forall marker | marker in stale :: MarkerLeads(doc[marker.line - 1].parts))
            && |out| == |doc|
            && forall i: nat | i < |doc| && !OnLine(stale, i) :: out[i] == doc[i]
  {
    var out := FixedAll(doc, stale, gitDate);
    FixedLines(doc, stale, gitDate);
    if marker :| marker in stale && !MarkerLeads(doc[marker.line - 1].parts) {
      assert OnLine(stale, marker.line - 1);
      MissedMarker(doc, gitDate, out, marker);
    } else {
      AllFixed(doc, stale, gitDate, out);
    }
  }

  lemma AllFixed(doc: Doc, stale: seq<Marker>, gitDate: Date, out: Doc)
    requires DateShaped(gitDate) && |out| == |doc|
    requires forall other | other in Markers(doc) && StaleMarker(other, gitDate) :: other in stale
    requires forall other | other in stale :: 1 <= other.line <= |doc| && MarkerLeads(doc[other.line - 1].parts)
    requires forall i: nat | i < |doc| ::
               out[i] == if OnLine(stale, i) then doc[i].(parts := Redated(doc[i].parts, gitDate)) else doc[i]
    ensures Clean(out, gitDate)
  {
    forall marker | marker in Markers(out) ensures !StaleMarker(marker, gitDate) {
      FixedMarker(doc, stale, gitDate, out, marker);
    }
  }

  // A marker that does not lead its line is still there when the line has been rewritten.
  lemma MissedMarker(doc: Doc, gitDate: Date, out: Doc, marker: Marker)
    requires |out| == |doc| && (forall i | 0 <= i < |doc| :: out[i].fence == doc[i].fence)
    requires marker in Markers(doc) && !MarkerLeads(doc[marker.line - 1].parts)
    requires out[marker.line - 1] == doc[marker.line - 1].(parts := Redated(doc[marker.line - 1].parts, gitDate))
    ensures marker in Markers(out)
  {
    MarkersAreTheLines(doc, false, 1, marker);
    RedatedMark(doc[marker.line - 1].parts, gitDate);
    SameFences(doc, out, marker.line - 1, false);
    MarkersAreTheLines(out, false, 1, marker);
  }

  lemma OffLine(stale: seq<Marker>, i: nat, marker: Marker)
    requires !OnLine(stale, i) && marker.line == i + 1
    ensures marker !in stale
  {
  }

  // A marker on a rewritten line is current.
  lemma RewrittenMarker(doc: Doc, gitDate: Date, out: Doc, marker: Marker)
    requires DateShaped(gitDate) && |out| == |doc| && marker in Markers(out) && 1 <= marker.line <= |doc|
    requires MarkerLeads(doc[marker.line - 1].parts)
    requires out[marker.line - 1] == doc[marker.line - 1].(parts := Redated(doc[marker.line - 1].parts, gitDate))
    ensures !StaleMarker(marker, gitDate)
  {
    MarkersAreTheLines(out, false, 1, marker);
    RedatedMarker(doc[marker.line - 1], FencedAt(out, marker.line - 1, false), gitDate, marker);
  }

  // A marker on a line left alone stood there before.
  lemma UntouchedMarker(doc: Doc, out: Doc, marker: Marker)
    requires |out| == |doc| && (forall i | 0 <= i < |doc| :: out[i].fence == doc[i].fence)
    requires marker in Markers(out) && 1 <= marker.line <= |doc| && out[marker.line - 1] == doc[marker.line - 1]
    ensures marker in Markers(doc)
  {
    MarkersAreTheLines(out, false, 1, marker);
    SameFences(doc, out, marker.line - 1, false);
    MarkersAreTheLines(doc, false, 1, marker);
  }

  lemma FixedMarker(doc: Doc, stale: seq<Marker>, gitDate: Date, out: Doc, marker: Marker)
    requires DateShaped(gitDate) && |out| == |doc| && marker in Markers(out)
    requires forall other | other in Markers(doc) && StaleMarker(other, gitDate) :: other in stale
    requires forall other | other in stale :: 1 <= other.line <= |doc| && MarkerLeads(doc[other.line - 1].parts)
    requires forall i: nat | i < |doc| ::
               out[i] == if OnLine(stale, i) then doc[i].(parts := Redated(doc[i].parts, gitDate)) else doc[i]
    ensures !StaleMarker(marker, gitDate)
  {
    MarkersAreTheLines(out, false, 1, marker);
    if OnLine(stale, marker.line - 1) {
      var other :| other in stale && other.line == marker.line;
      RewrittenMarker(doc, gitDate, out, marker);
    } else {
      UntouchedMarker(doc, out, marker);
      OffLine(stale, marker.line - 1, marker);
    }
  }

  lemma RedatedMarker(line: Line, inFence: bool, date: Date, marker: Marker)
    requires MarkerLeads(line.parts)
    requires MarkerOf(line.(parts := Redated(line.parts, date)), inFence, marker.line) == Some(marker)
    ensures marker.date == date
  {
    RedatedMark(line.parts, date);
  }

  // -------------------------------------------------------------------------
  // Where the two disagree
  // -------------------------------------------------------------------------

  // A marker earlier than the first stamp is flagged at that stamp's own date, where the updater has nothing to move.
  lemma EarlierMarkerIsNotUpdated(doc: Doc, marker: Marker, history: seq<Commit>)
    requires First(doc).Some? && DateShaped(First(doc).value) && ContentDate(history) == First(doc)
    requires marker in Markers(doc) && Earlier(marker.date, First(doc).value)
    ensures !Stale(doc, history) && !Clean(doc, First(doc).value)
  {
    EarlierIrreflexive(First(doc).value);
    OrderOfMarkers(doc, First(doc).value);
  }

  // A first stamp earlier than every marker is stale at the earliest marker's date, where the validator is content.
  lemma EarlierStampIsNotFlagged(doc: Doc, least: Marker, history: seq<Commit>)
    requires First(doc).Some? && ContentDate(history) == Some(least.date)
    requires least in Markers(doc) && forall marker | marker in Markers(doc) :: !Precedes(marker.date, least.date)
    requires Earlier(First(doc).value, least.date)
    ensures Stale(doc, history) && Clean(doc, least.date)
  {
  }

  // So a document whose footer alone is stale is flagged and never updated,
  lemma StaleFooterIsNotUpdated(
    header: string, footer: string, current: Date, past: Date, history: seq<Commit>)
    requires Calendar(current) && Calendar(past) && Earlier(past, current) && ContentDate(history) == Some(current)
    ensures var doc := [Line(false, [Mark(Bold, header, current)]), Line(false, [Mark(Bold, footer, past)])];
            !Stale(doc, history) && !Clean(doc, current)
  {
    var doc := [Line(false, [Mark(Bold, header, current)]), Line(false, [Mark(Bold, footer, past)])];
    MarkersAreTheLines(doc, false, 1, Marker(2, past));
    assert doc[1..][0] == doc[1] && FencedAt(doc, 1, false) == false;
    assert MarkIn(doc[1].parts) == Some(Mark(Bold, footer, past));
    EarlierMarkerIsNotUpdated(doc, Marker(2, past), history);
  }

  // and a marker in another spelling in front of a stale stamp hides it from the validator, not from the updater.
  lemma HiddenStampIsNotFlagged(lead: string, current: Date, past: Date, history: seq<Commit>)
    requires Calendar(current) && Earlier(past, current) && ContentDate(history) == Some(current)
    ensures var doc := [Line(false, [Mark(Bare, lead, current), Mark(Bold, lead, past)])];
            Stale(doc, history) && Clean(doc, current)
  {
    var parts := [Mark(Bare, lead, current), Mark(Bold, lead, past)];
    assert parts[1..][0] == parts[1];
    assert StampIn(parts) == StampIn(parts[1..]) == Some(past);
    var doc := [Line(false, parts)];
    assert MarkersFrom(doc[1..], false, 2) == [];
    assert Markers(doc) == [Marker(1, current)];
    EarlierStampIsNotFlagged(doc, Marker(1, current), history);
  }
}
