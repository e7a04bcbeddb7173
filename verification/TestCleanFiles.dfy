// What the scan of a file promises of the tests laid out in it.
module TestCleanFiles {
  import opened Wrappers
  import opened TestLines
  import opened TestPrograms
  import opened TestMust
  import opened TestAcceptance
  import opened TestFiles
  import opened TestFileLayout

  // A file reported clean holds no test, exempt ones aside, that can run to completion having asserted nothing.
  lemma CleanFileAsserts(items: seq<Item>, i: nat)
    requires WfItems(items) && i < |items| && items[i].TestFn?
    requires TablesHold(items[i].body, {}) && !Marked(items[i].above)
    requires Offenders(TestsFrom(PrintItems(items), 0)) == []
    ensures EveryRunAsserts(WithoutExits(items[i].body))
  {
    EveryTestIsRead(items);
    EachWfItem(items, i);
    ListingHas(items, 0, i, items[i]);
    NoOffender(Listing(items, 0), PlaceOf(items, 0, i));
    WalkWithin(Reads(items[i].more) + Print(items[i].body), Reads(items[i].more), items[i].body);
    AcceptedBelowIsSound(Reads(items[i].more), items[i].body);
  }

  // -------------------------------------------------------------------------
  // Every entry of the report
  // -------------------------------------------------------------------------

  lemma {:induction false} ReportIsOffenders(tests: seq<Test>, entry: (nat, string))
    ensures entry in Offenders(tests) <==>
            exists k :: 0 <= k < |tests| && Offends(tests[k]) && entry == (tests[k].line, tests[k].name)
    decreases |tests|
  {
    if tests != [] {
      ReportIsOffenders(tests[1..], entry);
      var first := if Offends(tests[0]) then [(tests[0].line, tests[0].name)] else [];
      assert entry in Offenders(tests) <==> entry in first || entry in Offenders(tests[1..]);
      if k :| 0 <= k < |tests[1..]| && Offends(tests[1..][k]) && entry == (tests[1..][k].line, tests[1..][k].name) {
        assert tests[k + 1] == tests[1..][k];
      }
      if k :| 0 < k < |tests| && Offends(tests[k]) && entry == (tests[k].line, tests[k].name) {
        assert tests[1..][k - 1] == tests[k];
      }
    }
  }

  // The tests of a file stand on lines of their own, one below the other.
  predicate Rising(tests: seq<Test>, above: nat) {
    tests == [] || (tests[0].line > above && Rising(tests[1..], tests[0].line))
  }

  lemma {:induction false} RisingLower(tests: seq<Test>, above: nat, lower: nat)
    requires Rising(tests, above) && lower <= above
    ensures Rising(tests, lower)
  {
  }

  lemma {:induction false} LinesRise(items: seq<Item>, at: nat)
    ensures Rising(Listing(items, at), at)
    decreases |items|
  {
    if items != [] {
      var next := at + |PrintItem(items[0])|;
      ListingStep(items, at);
      LinesRise(items[1..], next);
      if items[0].TestFn? {
        var test := TestOf(items[0], at);
        FirstLine(items[0], at);
        RisingLower(Listing(items[1..], next), next, test.line);
        assert ([test] + Listing(items[1..], next))[1..] == Listing(items[1..], next);
      } else {
        RisingLower(Listing(items[1..], next), next, at);
        assert [] + Listing(items[1..], next) == Listing(items[1..], next);
      }
    }
  }

  lemma FirstLine(item: Item, at: nat)
    requires item.TestFn?
    ensures at < TestOf(item, at).line <= at + |PrintItem(item)|
  {
  }

  lemma {:induction false} RisingApart(tests: seq<Test>, above: nat, j: nat, k: nat)
    requires Rising(tests, above) && j < |tests| && k < |tests| && tests[j].line == tests[k].line
    ensures j == k && tests[j].line > above
    decreases |tests|
  {
    if j > 0 && k > 0 {
      RisingApart(tests[1..], tests[0].line, j - 1, k - 1);
    } else if j > 0 {
      RisingApart(tests[1..], tests[0].line, j - 1, j - 1);
    } else if k > 0 {
      RisingApart(tests[1..], tests[0].line, k - 1, k - 1);
    }
  }

  lemma ReportsPlace(tests: seq<Test>, k: nat)
    requires Rising(tests, 0) && k < |tests|
    ensures (tests[k].line, tests[k].name) in Offenders(tests) <==> Offends(tests[k])
  {
    var entry := (tests[k].line, tests[k].name);
    ReportIsOffenders(tests, entry);
    if j: nat :| j < |tests| && Offends(tests[j]) && entry == (tests[j].line, tests[j].name) {
      RisingApart(tests, 0, j, k);
    }
  }

  // A test laid out in a file is reported if and only if it is not exempt and, early exits apart, some run of it
  // asserts nothing.
  lemma ReportedExactly(items: seq<Item>, i: nat)
    requires WfItems(items) && i < |items| && items[i].TestFn?
    requires TablesHold(items[i].body, {}) && Visible(WithoutExits(items[i].body), map[], {}, {})
    ensures var test := TestOf(items[i], LineOf(items, 0, i));
            (test.line, test.name) in Offenders(TestsFrom(PrintItems(items), 0)) <==>
            !Marked(items[i].above) && !EveryRunAsserts(WithoutExits(items[i].body))
  {
    var item, more := items[i], Reads(items[i].more);
    EveryTestIsRead(items);
    EachWfItem(items, i);
    ListingHas(items, 0, i, item);
    LinesRise(items, 0);
    ReportsPlace(Listing(items, 0), PlaceOf(items, 0, i));
    WalkWithin(more + Print(item.body), more, item.body);
    AcceptedBelowIsExact(more, item.body);
  }
}
