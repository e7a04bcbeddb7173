// The repeated headings of a changelog (scripts/validate/validate_changelog_headings.py).
module Changelog {
  // One message of the scan; lines count from one.
  datatype Problem = Problem(line: nat, release: string, heading: string, first: nat)

  // A release entry as a reader of the file sees it: its title and its section headings from top to bottom.
  datatype Entry = Entry(title: string, headings: seq<string>)

  // A line as the two expressions read it: a release line with its title, a section line with its text stripped of the
  // white space around it, or neither.
  datatype Line = Release(title: string) | Section(heading: string) | Other

  // -------------------------------------------------------------------------
  // The file as entries
  // -------------------------------------------------------------------------

  // The headings up to the next release line, or to the end of the file.
  function Body(lines: seq<Line>): seq<string> {
    if lines == [] || lines[0].Release? then []
    else (if lines[0].Section? then [lines[0].heading] else []) + Body(lines[1..])
  }

  function Entries(lines: seq<Line>): seq<Entry> {
    if lines == [] then []
    else (if lines[0].Release? then [Entry(lines[0].title, Body(lines[1..]))] else []) + Entries(lines[1..])
  }

  function Distinct(headings: seq<string>): set<string> {
    set heading | heading in headings
  }

  // Over all entries, the headings less the distinct headings.
  function Excess(entries: seq<Entry>): int {
    if entries == [] then 0
    else |entries[0].headings| - |Distinct(entries[0].headings)| + Excess(entries[1..])
  }

  predicate EachOnce(headings: seq<string>) {
    forall i, j | 0 <= i < j < |headings| :: headings[i] != headings[j]
  }

  // -------------------------------------------------------------------------
  // The problems by where they stand
  // -------------------------------------------------------------------------

  // The release line that line `i` stands under, or -1.
  function Owner(lines: seq<Line>, i: nat): (owner: int)
    requires i <= |lines|
    ensures -1 <= owner < i
    ensures owner >= 0 ==> lines[owner].Release?
    ensures forall k | owner < k < i :: !lines[k].Release?
  {
    if i == 0 then -1 else if lines[i - 1].Release? then i - 1 else Owner(lines, i - 1)
  }

  predicate Carries(lines: seq<Line>, i: nat, heading: string)
    requires i < |lines|
  {
    lines[i].Section? && lines[i].heading == heading
  }

  // Where the heading of line `i` is first met, from line `start` on.
  function FirstAt(lines: seq<Line>, start: nat, i: nat): (first: nat)
    requires start <= i < |lines| && lines[i].Section?
    ensures start <= first <= i
    ensures Carries(lines, first, lines[i].heading)
    ensures forall k | start <= k < first :: !Carries(lines, k, lines[i].heading)
    decreases i - start
  {
    if Carries(lines, start, lines[i].heading) then start else FirstAt(lines, start + 1, i)
  }

  // Line `i` carries a heading that its release carried before.
  predicate Repeats(lines: seq<Line>, i: nat)
    requires i < |lines|
  {
    lines[i].Section? && Owner(lines, i) >= 0 && FirstAt(lines, Owner(lines, i) + 1, i) < i
  }

  // The problem line `i` raises, if any: its line, its release, its heading, and the line where that release first
  // carries the heading.
  function ReportOn(lines: seq<Line>, i: nat): seq<Problem>
    requires i < |lines|
  {
    if Repeats(lines, i) then
      var owner := Owner(lines, i);
      [Problem(i + 1, lines[owner].title, lines[i].heading, FirstAt(lines, owner + 1, i) + 1)]
    else []
  }

  // The problems of the first `n` lines, from top to bottom.
  function Report(lines: seq<Line>, n: nat): seq<Problem>
    requires n <= |lines|
  {
    if n == 0 then [] else Report(lines, n - 1) + ReportOn(lines, n - 1)
  }

  // The lines a problem speaks of stand below the release line `owner`, with no other release line between, and the
  // heading first stands there on the earlier of them.
  predicate StandsUnder(lines: seq<Line>, owner: nat, p: Problem)
    requires 1 <= p.first < p.line <= |lines|
  {
    && owner < p.first - 1 && lines[owner] == Release(p.release)
    && (forall k | owner < k < p.line :: !lines[k].Release?)
    && forall k | owner < k < p.first - 1 :: lines[k] != Section(p.heading)
  }

  // What a problem says holds of the file: its heading stands on both lines, under one release of its title.
  ghost predicate Holds(lines: seq<Line>, p: Problem) {
    && 1 <= p.first < p.line <= |lines|
    && lines[p.first - 1] == lines[p.line - 1] == Section(p.heading)
    && exists owner: nat :: StandsUnder(lines, owner, p)
  }

  lemma OwnerIs(lines: seq<Line>, owner: nat, i: nat)
    requires owner < i <= |lines| && lines[owner].Release? && forall k | owner < k < i :: !lines[k].Release?
    ensures Owner(lines, i) == owner
  {
  }

  lemma RaisedExactly(lines: seq<Line>, i: nat, p: Problem)
    requires i < |lines|
    ensures p in ReportOn(lines, i) <==> p.line == i + 1 && Holds(lines, p)
  {
    if p in ReportOn(lines, i) {
      var owner := Owner(lines, i);
      forall k | owner < k < p.first - 1 ensures lines[k] != Section(p.heading) {
        assert !Carries(lines, k, p.heading);
      }
      assert StandsUnder(lines, owner, p);
    }
    if p.line == i + 1 && Holds(lines, p) {
      var owner: nat :| StandsUnder(lines, owner, p);
      OwnerIs(lines, owner, i);
      assert Carries(lines, p.first - 1, p.heading);
    }
  }

  // The problems reported are those that hold of the file,
  lemma {:induction false} ReportedExactly(lines: seq<Line>, n: nat, p: Problem)
    requires n <= |lines|
    ensures p in Report(lines, n) <==> p.line <= n && Holds(lines, p)
  {
    if n > 0 {
      ReportedExactly(lines, n - 1, p);
      RaisedExactly(lines, n - 1, p);
    }
  }

  predicate GoesDown(problems: seq<Problem>) {
    forall i, j | 0 <= i < j < |problems| :: problems[i].line < problems[j].line
  }

  // one for each line, from top to bottom.
  lemma {:induction false} ReportGoesDown(lines: seq<Line>, n: nat)
    requires n <= |lines|
    ensures GoesDown(Report(lines, n))
  {
    if n > 0 {
      ReportGoesDown(lines, n - 1);
      var before := Report(lines, n - 1);
      forall i | 0 <= i < |before| ensures before[i].line < n {
        assert before[i] in before;
        ReportedExactly(lines, n - 1, before[i]);
      }
      assert Report(lines, n) == before + ReportOn(lines, n - 1);
    }
  }

  // -------------------------------------------------------------------------
  // Counting
  // -------------------------------------------------------------------------

  // The headings of `headings` that are repeats when those of `seen` have been met.
  function Surplus(headings: seq<string>, seen: set<string>): int {
    |headings| - |Distinct(headings) - seen|
  }

  lemma SurplusStep(heading: string, rest: seq<string>, seen: set<string>)
    ensures Surplus([heading] + rest, seen) == (if heading in seen then 1 else 0) + Surplus(rest, seen + {heading})
  {
    var unmet := Distinct([heading] + rest) - seen;
    var later := Distinct(rest) - (seen + {heading});
    assert heading in [heading] + rest;
    assert forall h :: h in [heading] + rest <==> h == heading || h in rest;
    if heading in seen {
      assert unmet == later;
    } else {
      assert unmet == later + {heading};
    }
  }

  lemma SurplusOfAll(headings: seq<string>)
    ensures Surplus(headings, {}) == |headings| - |Distinct(headings)|
  {
    assert Distinct(headings) - {} == Distinct(headings);
  }

  // How many problems the scan still has to raise from line `n` on.
  function Pending(lines: seq<Line>, n: nat, inRelease: bool, seen: set<string>): nat
    requires n <= |lines|
    decreases |lines| - n
  {
    if n == |lines| then 0
    else if lines[n].Release? then Pending(lines, n + 1, true, {})
    else if inRelease && lines[n].Section? then
      (if lines[n].heading in seen then 1 else 0) + Pending(lines, n + 1, true, seen + {lines[n].heading})
    else Pending(lines, n + 1, inRelease, seen)
  }

  lemma {:induction false} PendingIsExcess(lines: seq<Line>, n: nat, inRelease: bool, seen: set<string>)
    requires n <= |lines|
    ensures Pending(lines, n, inRelease, seen)
         == (if inRelease then Surplus(Body(lines[n..]), seen) else 0) + Excess(Entries(lines[n..]))
    decreases |lines| - n
  {
    if n == |lines| {
      assert Distinct([]) - seen == {};
    } else {
      var rest := lines[n + 1..];
      assert lines[n..][0] == lines[n] && lines[n..][1..] == rest;
      if lines[n].Release? {
        PendingIsExcess(lines, n + 1, true, {});
        ExcessStep(Entry(lines[n].title, Body(rest)), Entries(rest));
        SurplusOfAll(Body(rest));
        assert Distinct([]) - seen == {};
      } else if inRelease && lines[n].Section? {
        PendingIsExcess(lines, n + 1, true, seen + {lines[n].heading});
        SurplusStep(lines[n].heading, Body(rest), seen);
        assert Entries(lines[n..]) == Entries(rest);
        assert Body(lines[n..]) == [lines[n].heading] + Body(rest);
      } else {
        PendingIsExcess(lines, n + 1, inRelease, seen);
        assert Entries(lines[n..]) == Entries(rest);
        assert inRelease ==> Body(lines[n..]) == Body(rest);
      }
    }
  }

  lemma ExcessStep(entry: Entry, entries: seq<Entry>)
    ensures Excess([entry] + entries) == |entry.headings| - |Distinct(entry.headings)| + Excess(entries)
  {
    assert ([entry] + entries)[1..] == entries;
  }

  // -------------------------------------------------------------------------
  // The scan
  // -------------------------------------------------------------------------

  // Each heading met from line `start` to line `n`, at the line it was first met.
  function Met(lines: seq<Line>, start: nat, n: nat): map<string, nat>
    requires start <= n <= |lines|
    decreases n
  {
    if n == start then map[]
    else
      var met := Met(lines, start, n - 1);
      if lines[n - 1].Section? && lines[n - 1].heading !in met then met[lines[n - 1].heading := n] else met
  }

  lemma {:induction false} MetIsFirst(lines: seq<Line>, start: nat, n: nat, i: nat)
    requires start <= n <= i < |lines| && lines[i].Section?
    ensures lines[i].heading in Met(lines, start, n) ==>
      FirstAt(lines, start, i) + 1 == Met(lines, start, n)[lines[i].heading] <= n
    ensures lines[i].heading !in Met(lines, start, n) ==> FirstAt(lines, start, i) >= n
    decreases n
  {
    if start < n {
      MetIsFirst(lines, start, n - 1, i);
      if lines[n - 1] == lines[i] {
        assert Carries(lines, n - 1, lines[i].heading);
      } else {
        assert !Carries(lines, n - 1, lines[i].heading);
      }
    }
  }

  lemma ReportsFromMemory(lines: seq<Line>, n: nat)
    requires n < |lines| && lines[n].Section? && Owner(lines, n) >= 0
    ensures var met, owner := Met(lines, Owner(lines, n) + 1, n), Owner(lines, n);
            ReportOn(lines, n)
            == if lines[n].heading in met
               then [Problem(n + 1, lines[owner].title, lines[n].heading, met[lines[n].heading])] else []
  {
    MetIsFirst(lines, Owner(lines, n) + 1, n, n);
  }

  // Where the scan stands after `n` lines.
  predicate Scanned(lines: seq<Line>, n: nat, inRelease: bool, release: string, seen: map<string, nat>,
                    problems: seq<Problem>)
    requires n <= |lines|
  {
    && (inRelease <==> Owner(lines, n) >= 0)
    && (inRelease ==> release == lines[Owner(lines, n)].title && seen == Met(lines, Owner(lines, n) + 1, n))
    && problems == Report(lines, n)
    && |problems| + Pending(lines, n, inRelease, seen.Keys) == Pending(lines, 0, false, {})
  }

  lemma EntersRelease(
    lines: seq<Line>, n: nat, inRelease: bool, release: string, seen: map<string, nat>, problems: seq<Problem>)
    requires n < |lines| && Scanned(lines, n, inRelease, release, seen, problems) && lines[n].Release?
    ensures Scanned(lines, n + 1, true, lines[n].title, map[], problems)
  {
    var none: map<string, nat> := map[];
    assert none.Keys == {};
  }

  lemma PassesOver(
    lines: seq<Line>, n: nat, inRelease: bool, release: string, seen: map<string, nat>, problems: seq<Problem>)
    requires n < |lines| && Scanned(lines, n, inRelease, release, seen, problems)
    requires lines[n].Other? || (lines[n].Section? && !inRelease)
    ensures Scanned(lines, n + 1, inRelease, release, seen, problems)
  {
  }

  lemma MeetsHeading(
    lines: seq<Line>, n: nat, release: string, seen: map<string, nat>, problems: seq<Problem>, heading: string)
    requires n < |lines| && Scanned(lines, n, true, release, seen, problems) && lines[n] == Section(heading)
    ensures heading in seen ==>
      Scanned(lines, n + 1, true, release, seen, problems + [Problem(n + 1, release, heading, seen[heading])])
    ensures heading !in seen ==> Scanned(lines, n + 1, true, release, seen[heading := n + 1], problems)
  {
    ReportsFromMemory(lines, n);
    if heading in seen {
      assert seen.Keys + {heading} == seen.Keys;
    } else {
      assert (seen[heading := n + 1]).Keys == seen.Keys + {heading};
    }
  }

  method DuplicateHeadings(lines: seq<Line>) returns (problems: seq<Problem>)
    ensures problems == Report(lines, |lines|)
    ensures |problems| == Excess(Entries(lines))
    ensures problems == [] <==> forall e | e in Entries(lines) :: EachOnce(e.headings)
  {
    problems := [];
    var release := "";
    var inRelease := false;
    var seen: map<string, nat> := map[];
    var n := 0;
    assert seen.Keys == {};
    while n < |lines|
      invariant 0 <= n <= |lines|
      invariant Scanned(lines, n, inRelease, release, seen, problems)
    {
      match lines[n] {
      case Release(title) =>
        EntersRelease(lines, n, inRelease, release, seen, problems);
        release, inRelease, seen := title, true, map[];
      case Section(heading) =>
        if !inRelease {
          PassesOver(lines, n, inRelease, release, seen, problems);
        } else {
          MeetsHeading(lines, n, release, seen, problems, heading);
          if heading in seen {
            problems := problems + [Problem(n + 1, release, heading, seen[heading])];
          } else {
            seen := seen[heading := n + 1];
          }
        }
      case Other =>
        PassesOver(lines, n, inRelease, release, seen, problems);
      }
      n := n + 1;
    }
    PendingIsExcess(lines, 0, false, {});
    NoExcess(Entries(lines));
    assert lines[0..] == lines;
  }

  // -------------------------------------------------------------------------
  // What the count says
  // -------------------------------------------------------------------------

  lemma {:induction false} DistinctCount(headings: seq<string>)
    ensures |Distinct(headings)| <= |headings|
    ensures |Distinct(headings)| == |headings| <==> EachOnce(headings)
  {
    if headings == [] {
      assert Distinct(headings) == {};
    } else {
      var rest := headings[1..];
      DistinctCount(rest);
      assert headings == [headings[0]] + rest;
      if headings[0] in rest {
        assert Distinct(headings) == Distinct(rest);
        var j :| 0 <= j < |rest| && rest[j] == headings[0];
        assert headings[0] == headings[j + 1];
      } else {
        assert Distinct(headings) == Distinct(rest) + {headings[0]};
        OnceMore(headings);
      }
    }
  }

  lemma OnceMore(headings: seq<string>)
    requires headings != [] && headings[0] !in headings[1..]
    ensures EachOnce(headings) <==> EachOnce(headings[1..])
  {
    var rest := headings[1..];
    assert forall k | 0 < k < |headings| :: headings[k] == rest[k - 1];
    assert forall k | 0 <= k < |rest| :: rest[k] == headings[k + 1];
  }

  // The excess vanishes exactly when no release entry carries a heading twice.
  lemma {:induction false} NoExcess(entries: seq<Entry>)
    ensures Excess(entries) >= 0
    ensures Excess(entries) == 0 <==> forall e | e in entries :: EachOnce(e.headings)
  {
    if entries != [] {
      DistinctCount(entries[0].headings);
      NoExcess(entries[1..]);
      assert forall e :: e in entries <==> e == entries[0] || e in entries[1..];
    }
  }

  // What stands above the first release line is not looked at.
  lemma {:induction false} PreambleIsIgnored(preamble: seq<Line>, rest: seq<Line>)
    requires forall line | line in preamble :: !line.Release?
    ensures Entries(preamble + rest) == Entries(rest)
  {
    if preamble == [] {
      assert preamble + rest == rest;
    } else {
      assert (preamble + rest)[0] == preamble[0] && (preamble + rest)[1..] == preamble[1..] + rest;
      PreambleIsIgnored(preamble[1..], rest);
    }
  }

  lemma {:induction false} BodyConcat(lines: seq<Line>, tail: seq<Line>)
    requires forall line | line in lines :: !line.Release?
    ensures Body(lines + tail) == Body(lines) + Body(tail)
  {
    if lines == [] {
      assert lines + tail == tail;
    } else {
      assert (lines + tail)[0] == lines[0] && (lines + tail)[1..] == lines[1..] + tail;
      BodyConcat(lines[1..], tail);
    }
  }

  // What stands below the last release entry is read as part of it: an appendix after any file that ends in an entry
  // adds one problem for each of its headings that the entry, or the appendix above it, already carries.
  lemma {:induction false} AppendixIsRead(lines: seq<Line>, at: nat, appendix: seq<Line>)
    requires at < |lines| && lines[at].Release?
    requires forall line | line in lines[at + 1..] + appendix :: !line.Release?
    ensures Excess(Entries(lines + appendix))
         == Excess(Entries(lines)) + Surplus(Body(appendix), Distinct(Body(lines[at + 1..])))
    decreases at
  {
    if at == 0 {
      LastEntryGrows(lines, appendix);
    } else {
      var rest := lines[1..];
      assert (lines + appendix)[0] == lines[0] && (lines + appendix)[1..] == rest + appendix;
      assert rest[at..] == lines[at + 1..];
      AppendixIsRead(rest, at - 1, appendix);
      if lines[0].Release? {
        BodyStops(rest, at - 1, appendix);
        ExcessStep(Entry(lines[0].title, Body(rest)), Entries(rest));
        ExcessStep(Entry(lines[0].title, Body(rest)), Entries(rest + appendix));
      } else {
        assert Entries(lines) == Entries(rest);
        assert Entries(lines + appendix) == Entries(rest + appendix);
      }
    }
  }

  lemma LastEntryGrows(lines: seq<Line>, appendix: seq<Line>)
    requires lines != [] && lines[0].Release?
    requires forall line | line in lines[1..] + appendix :: !line.Release?
    ensures Excess(Entries(lines + appendix))
         == Excess(Entries(lines)) + Surplus(Body(appendix), Distinct(Body(lines[1..])))
  {
    var own := lines[1..];
    assert (lines + appendix)[0] == lines[0] && (lines + appendix)[1..] == own + appendix;
    BodyConcat(own, appendix);
    PreambleIsIgnored(own, []);
    PreambleIsIgnored(own + appendix, []);
    assert own + [] == own && own + appendix + [] == own + appendix;
    ExcessStep(Entry(lines[0].title, Body(own)), []);
    ExcessStep(Entry(lines[0].title, Body(own) + Body(appendix)), []);
    DistinctConcat(Body(own), Body(appendix));
  }

  // A release line closes the body above it.
  lemma {:induction false} BodyStops(lines: seq<Line>, at: nat, appendix: seq<Line>)
    requires at < |lines| && lines[at].Release?
    ensures Body(lines + appendix) == Body(lines)
    decreases at
  {
    assert (lines + appendix)[0] == lines[0] && (lines + appendix)[1..] == lines[1..] + appendix;
    if at > 0 && !lines[0].Release? {
      assert lines[1..][at - 1] == lines[at];
      BodyStops(lines[1..], at - 1, appendix);
    }
  }

  lemma DistinctConcat(a: seq<string>, b: seq<string>)
    ensures |a + b| - |Distinct(a + b)| == |a| - |Distinct(a)| + Surplus(b, Distinct(a))
  {
    assert Distinct(a + b) == Distinct(a) + (Distinct(b) - Distinct(a));
  }
}
