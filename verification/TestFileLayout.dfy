// The scan of a whole file finds every test laid out in it, reads each body whole, and so reports exactly the
// tests that are neither exempt nor accepted.
module TestFileLayout {
  import opened Windows
  import opened Wrappers
  import opened TestLines
  import opened TestPrograms
  import opened TestLayout
  import opened TestMust
  import opened TestFiles

  datatype Item =
    | Code(lines: seq<FileLine>)
    | TestFn(
        above: seq<FileLine>,      // attributes and comments over the test attribute
        attr: FileLine,
        between: seq<FileLine>,    // further attributes
        name: string,
        sig: FileLine,
        more: seq<FileLine>,       // further lines of the signature
        code: seq<FileLine>,       // the lines of the body
        body: Block,
        close: FileLine)

  predicate NoAttr(lines: seq<FileLine>) {
    forall line | line in lines :: !line.testAttr
  }

  predicate AllAbove(lines: seq<FileLine>) {
    forall line | line in lines :: line.above
  }

  predicate Unnamed(lines: seq<FileLine>) {
    forall line | line in lines :: line.fnName.None?
  }

  predicate EndsBelow(lines: seq<FileLine>) {
    lines != [] ==> !lines[|lines| - 1].above
  }

  // The lines of a signature: the last opens the body.
  predicate Rises(lines: seq<Line>) {
    lines != [] && if |lines| == 1 then Net(lines[0]) == 1 else Net(lines[0]) == 0 && Rises(lines[1..])
  }

  // Lines that show the walk nothing: those of a signature below its first are read as the front of the body.
  predicate Silent(lines: seq<Line>) {
    FlatAll(lines) && BindNothing(lines) && !SaysAny(lines)
  }

  predicate WfItem(item: Item) {
    match item
    case Code(lines) => NoAttr(lines) && EndsBelow(lines)
    case TestFn(above, attr, between, name, sig, more, code, body, close) =>
      && NoAttr(above) && AllAbove(above)
      && attr.testAttr
      && Unnamed(between)
      && sig.fnName == Some(name) && Rises([sig.read] + Reads(more)) && Silent(Reads(more))
      && Reads(code) == Print(body) && Wf(body)
      && Net(close.read) == -1 && !close.above
  }

  function Rest(item: Item): seq<FileLine>
    requires item.TestFn?
  {
    Front(item) + item.code + [item.close]
  }

  // The lines of a test's signature.
  function Front(item: Item): seq<FileLine>
    requires item.TestFn?
  {
    [item.sig] + item.more
  }

  function PrintItem(item: Item): seq<FileLine> {
    match item
    case Code(lines) => lines
    case TestFn(above, attr, between, _, _, _, _, _, _) => above + ([attr] + between) + Rest(item)
  }

  function PrintItems(items: seq<Item>): seq<FileLine> {
    if items == [] then [] else PrintItem(items[0]) + PrintItems(items[1..])
  }

  // Some line carries an exemption marker.
  predicate Marked(lines: seq<FileLine>) {
    lines != [] && (lines[|lines| - 1].exempts || Marked(lines[..|lines| - 1]))
  }

  // The test an item lays out when its first line is line `at` of the file.
  function TestOf(item: Item, at: nat): Test
    requires item.TestFn?
  {
    var line := at + |item.above| + 1 + |item.between| + 1;
    Test(line, item.name, Marked(item.above), Reads(item.more) + Print(item.body))
  }

  predicate WfItems(items: seq<Item>) {
    items == [] || (WfItem(items[0]) && WfItems(items[1..]))
  }

  lemma {:induction false} EachWfItem(items: seq<Item>, i: nat)
    requires WfItems(items) && i < |items|
    ensures WfItem(items[i])
    decreases i
  {
    if i > 0 { EachWfItem(items[1..], i - 1); }
  }

  function TestsOf(item: Item, at: nat): seq<Test> {
    if item.TestFn? then [TestOf(item, at)] else []
  }

  function Listing(items: seq<Item>, at: nat): seq<Test> {
    if items == [] then []
    else TestsOf(items[0], at) + Listing(items[1..], at + |PrintItem(items[0])|)
  }

  lemma {:induction false} SkipsCode(file: seq<FileLine>, at: nat, lines: seq<FileLine>)
    requires At(file, at, lines) && NoAttr(lines)
    ensures TestsFrom(file, at) == TestsFrom(file, at + |lines|)
    decreases |lines|
  {
    if lines != [] {
      AtRest(file, at, lines);
      assert file[at] in lines;
      SkipsCode(file, at + 1, lines[1..]);
    }
  }

  lemma {:induction false} SignatureBelow(file: seq<FileLine>, at: nat, between: seq<FileLine>)
    requires At(file, at, between) && at + |between| < |file| && file[at + |between|].fnName.Some?
    requires Unnamed(between)
    ensures SignatureFrom(file, at) == at + |between|
    decreases |between|
  {
    if between != [] {
      AtRest(file, at, between);
      assert file[at] in between;
      SignatureBelow(file, at + 1, between[1..]);
    }
  }

  lemma {:induction false} ExemptionAbove(file: seq<FileLine>, at: nat, above: seq<FileLine>)
    requires At(file, at, above) && AllAbove(above)
    requires at > 0 ==> !file[at - 1].above
    ensures ExemptAbove(file, at + |above|) == Marked(above)
    decreases |above|
  {
    if above != [] {
      var init, last := above[..|above| - 1], above[|above| - 1];
      AtLast(file, at, above);
      assert above == init + [last];
      AtSplit(file, at, init, [last]);
      assert last in above;
      ExemptionAbove(file, at, init);
    }
  }

  // The walk of a body's braces, once inside, ends at the line that closes the function.
  lemma {:induction false} BodyEndsAtClose(file: seq<FileLine>, at: nat, code: seq<FileLine>, depth: nat)
    requires At(file, at, code) && |file| > 0 && at + |code| < |file|
    requires Nest(Reads(code), depth) == Some(0) && Net(file[at + |code|].read) == -1
    ensures BodyEnd(file, at, depth + 1, true) == at + |code|
    decreases |code|
  {
    if code != [] {
      AtRest(file, at, code);
      assert Reads(code)[1..] == Reads(code[1..]);
      BodyEndsAtClose(file, at + 1, code[1..], depth + Net(code[0].read));
    }
  }

  lemma ReadsAt(file: seq<FileLine>, at: nat, code: seq<FileLine>)
    requires At(file, at, code)
    ensures Reads(file)[at..at + |code|] == Reads(code)
  {
    forall i: nat | i < |code| ensures Reads(file)[at + i] == Reads(code)[i] {
      AtEach(file, at, code, i);
      ReadsEach(file, at + i);
      ReadsEach(code, i);
    }
  }

  lemma {:induction false} BodyParts(
    file: seq<FileLine>, start: nat, front: seq<FileLine>, code: seq<FileLine>, close: FileLine)
    requires At(file, start, front + code + [close])
    ensures var end := start + |front| + |code|;
            && end < |file| && At(file, start, front) && At(file, start, front + code)
            && At(file, start + |front|, code) && file[end] == close
  {
    AtSplit3(file, start, front, code, [close]);
    AtSplit(file, start, front + code, [close]);
    AtRest(file, start + |front| + |code|, [close]);
  }

  lemma {:induction false} ReadsConcat(a: seq<FileLine>, b: seq<FileLine>)
    ensures Reads(a + b) == Reads(a) + Reads(b)
    decreases |a|
  {
    if a == [] {
      assert a + b == b;
    } else {
      assert (a + b)[1..] == a[1..] + b;
      ReadsConcat(a[1..], b);
    }
  }

  // A signature is passed without entering the body until its last line.
  lemma {:induction false} EntersBody(file: seq<FileLine>, at: nat, front: seq<FileLine>)
    requires At(file, at, front) && Rises(Reads(front)) && at + |front| <= |file|
    ensures BodyEnd(file, at, 0, false) == BodyEnd(file, at + |front|, 1, true)
    decreases |front|
  {
    AtRest(file, at, front);
    assert Reads(front)[1..] == Reads(front[1..]);
    if |front| > 1 {
      EntersBody(file, at + 1, front[1..]);
    }
  }

  lemma {:induction false} EndOfBody(
    file: seq<FileLine>, start: nat, front: seq<FileLine>, code: seq<FileLine>, close: FileLine)
    requires At(file, start, front + code + [close])
    requires Rises(Reads(front)) && Net(close.read) == -1 && Nest(Reads(code), 0) == Some(0)
    ensures var end := start + |front| + |code|;
            end < |file| && file[end] == close && BodyEnd(file, start, 0, false) == end
  {
    BodyParts(file, start, front, code, close);
    EntersBody(file, start, front);
    BodyEndsAtClose(file, start + |front|, code, 0);
  }

  lemma {:induction false} SliceOfBody(
    file: seq<FileLine>, start: nat, front: seq<FileLine>, code: seq<FileLine>, end: nat)
    requires At(file, start, front + code) && front != [] && end == start + |front + code| < |file|
    ensures Slice(Reads(file), start + 1, end) == Reads(front)[1..] + Reads(code)
  {
    ReadsAt(file, start, front + code);
    ReadsConcat(front, code);
    SliceBelow(Reads(file), start, end, Reads(front), Reads(code));
  }

  lemma SliceBelow(lines: seq<Line>, start: nat, end: nat, front: seq<Line>, code: seq<Line>)
    requires start < end <= |lines| && front != [] && lines[start..end] == front + code
    ensures Slice(lines, start + 1, end) == front[1..] + code
  {
    assert lines[start + 1..end] == lines[start..end][1..];
  }

  // A signature's body is read whole, to the line that closes it.
  lemma {:induction false} ReadsBody(
    file: seq<FileLine>, start: nat, front: seq<FileLine>, code: seq<FileLine>, close: FileLine, body: Block)
    requires At(file, start, front + code + [close]) && front != []
    requires Rises(Reads(front)) && Net(close.read) == -1 && Reads(code) == Print(body) && Wf(body)
    ensures var end := start + |front| + |code|;
            && end < |file| && file[end] == close && BodyEnd(file, start, 0, false) == end
            && Slice(Reads(file), start + 1, end) == Reads(front)[1..] + Print(body)
  {
    NestPrint(body, 0);
    EndOfBody(file, start, front, code, close);
    BodyParts(file, start, front, code, close);
    SliceOfBody(file, start, front, code, start + |front| + |code|);
  }

  lemma ReadsSignature(file: seq<FileLine>, at: nat, attr: FileLine, between: seq<FileLine>)
    requires At(file, at, [attr] + between)
    requires at + 1 + |between| < |file| && file[at + 1 + |between|].fnName.Some?
    requires Unnamed(between)
    ensures file[at] == attr && SignatureFrom(file, at + 1) == at + 1 + |between|
  {
    AtSplit(file, at, [attr], between);
    AtRest(file, at, [attr]);
    SignatureBelow(file, at + 1, between);
  }

  // From line `at` the scan lists `tests` and goes on at `end`.
  predicate Scans(file: seq<FileLine>, at: nat, tests: seq<Test>, end: nat) {
    at <= |file| && end <= |file| && TestsFrom(file, at) == tests + TestsFrom(file, end)
  }

  lemma ScansOn(file: seq<FileLine>, at: nat, tests: seq<Test>, end: nat, rest: seq<Test>)
    requires Scans(file, at, tests, end) && TestsFrom(file, end) == rest
    ensures TestsFrom(file, at) == tests + rest
  {
  }

  // The line of a test's signature.
  function SigAt(item: Item, at: nat): nat
    requires item.TestFn?
  {
    at + |item.above| + 1 + |item.between|
  }

  lemma {:induction false} PiecesOf(file: seq<FileLine>, at: nat, item: Item)
    requires item.TestFn? && At(file, at, PrintItem(item))
    ensures At(file, at, item.above) && At(file, at + |item.above|, [item.attr] + item.between)
    ensures At(file, SigAt(item, at), Rest(item))
    ensures |PrintItem(item)| == |item.above| + 1 + |item.between| + |Front(item)| + |item.code| + 1
  {
    PrintedTest(item);
    AtSplit3(file, at, item.above, [item.attr] + item.between, Rest(item));
  }

  lemma {:induction false} PrintedTest(item: Item)
    requires item.TestFn?
    ensures PrintItem(item) == item.above + ([item.attr] + item.between) + Rest(item)
    ensures |Rest(item)| == |Front(item)| + |item.code| + 1
  {
  }

  lemma {:induction false} SignatureStands(file: seq<FileLine>, at: nat, item: Item)
    requires item.TestFn? && At(file, SigAt(item, at), Rest(item))
    ensures SigAt(item, at) < |file| && file[SigAt(item, at)] == item.sig
  {
    BodyParts(file, SigAt(item, at), Front(item), item.code, item.close);
    AtRest(file, SigAt(item, at), Front(item));
  }

  // A test laid out at `at` is found at its attribute, and its signature and exemption are read.
  lemma {:induction false} FrontOfTest(file: seq<FileLine>, at: nat, item: Item)
    requires item.TestFn? && WfItem(item) && At(file, at, PrintItem(item)) && (at > 0 ==> !file[at - 1].above)
    ensures var attrAt := at + |item.above|;
            && attrAt < |file| && TestsFrom(file, at) == TestsFrom(file, attrAt) && file[attrAt].testAttr
            && SignatureFrom(file, attrAt + 1) == SigAt(item, at)
            && ExemptAbove(file, attrAt) == Marked(item.above)
  {
    PiecesOf(file, at, item);
    SignatureStands(file, at, item);
    FrontStands(file, at, item.above, item.attr, item.between);
  }

  lemma {:induction false} FrontStands(
    file: seq<FileLine>, at: nat, above: seq<FileLine>, attr: FileLine, between: seq<FileLine>)
    requires At(file, at, above) && NoAttr(above) && AllAbove(above) && (at > 0 ==> !file[at - 1].above)
    requires var attrAt := at + |above|;
             && At(file, attrAt, [attr] + between) && attr.testAttr && Unnamed(between)
             && attrAt + 1 + |between| < |file| && file[attrAt + 1 + |between|].fnName.Some?
    ensures var attrAt := at + |above|;
            && TestsFrom(file, at) == TestsFrom(file, attrAt) && file[attrAt].testAttr
            && SignatureFrom(file, attrAt + 1) == attrAt + 1 + |between|
            && ExemptAbove(file, attrAt) == Marked(above)
  {
    AboveTest(file, at, above);
    ReadsSignature(file, at + |above|, attr, between);
  }

  lemma AboveTest(file: seq<FileLine>, at: nat, above: seq<FileLine>)
    requires At(file, at, above) && NoAttr(above) && AllAbove(above) && (at > 0 ==> !file[at - 1].above)
    ensures at + |above| <= |file| && TestsFrom(file, at) == TestsFrom(file, at + |above|)
    ensures ExemptAbove(file, at + |above|) == Marked(above)
  {
    SkipsCode(file, at, above);
    ExemptionAbove(file, at, above);
  }

  lemma {:induction false} FrontReads(item: Item)
    requires item.TestFn?
    ensures Reads(Front(item)) == [item.sig.read] + Reads(item.more) && Reads(Front(item))[1..] == Reads(item.more)
    ensures |PrintItem(item)| == |item.above| + 1 + |item.between| + |Front(item)| + |item.code| + 1
  {
    PrintedTest(item);
    assert Front(item)[1..] == item.more;
  }

  lemma {:induction false} BodyOfTest(file: seq<FileLine>, at: nat, item: Item, end: nat)
    requires item.TestFn? && WfItem(item) && At(file, at, PrintItem(item)) && end == at + |PrintItem(item)| - 1
    ensures SigAt(item, at) < end < |file| && file[SigAt(item, at)] == item.sig && file[end] == item.close
    ensures BodyEnd(file, SigAt(item, at), 0, false) == end
    ensures Slice(Reads(file), SigAt(item, at) + 1, end) == Reads(item.more) + Print(item.body)
  {
    PiecesOf(file, at, item);
    SignatureStands(file, at, item);
    FrontReads(item);
    ReadsBody(file, SigAt(item, at), Front(item), item.code, item.close, item.body);
  }

  lemma {:induction false} ReadsTest(file: seq<FileLine>, at: nat, item: Item)
    requires item.TestFn? && WfItem(item) && At(file, at, PrintItem(item)) && (at > 0 ==> !file[at - 1].above)
    ensures at + |PrintItem(item)| <= |file| && file[at + |PrintItem(item)| - 1] == item.close
    ensures Scans(file, at, [TestOf(item, at)], at + |PrintItem(item)|)
  {
    var start, end := SigAt(item, at), at + |PrintItem(item)| - 1;
    FrontOfTest(file, at, item);
    BodyOfTest(file, at, item, end);
    ListsTest(file, at, item, start, end);
  }

  lemma ListsTest(file: seq<FileLine>, at: nat, item: Item, start: nat, end: nat)
    requires item.TestFn? && item.sig.fnName == Some(item.name) && start == SigAt(item, at) < end < |file|
    requires TestsFrom(file, at) == TestsFrom(file, at + |item.above|) && file[at + |item.above|].testAttr
    requires SignatureFrom(file, at + |item.above| + 1) == start && file[start] == item.sig
    requires ExemptAbove(file, at + |item.above|) == Marked(item.above)
    requires BodyEnd(file, start, 0, false) == end
    requires Slice(Reads(file), start + 1, end) == Reads(item.more) + Print(item.body)
    ensures Scans(file, at, [TestOf(item, at)], end + 1)
  {
    assert TestAt(file, at + |item.above|, start, end) == TestOf(item, at);
    TestsStep(file, at + |item.above|, start, end);
  }

  lemma ReadsItem(file: seq<FileLine>, at: nat, item: Item, end: nat)
    requires WfItem(item) && At(file, at, PrintItem(item)) && (at > 0 ==> !file[at - 1].above)
    requires end == at + |PrintItem(item)|
    ensures Scans(file, at, TestsOf(item, at), end)
    ensures end > 0 ==> !file[end - 1].above
  {
    if item.Code? {
      SkipsCode(file, at, item.lines);
      assert [] + TestsFrom(file, at) == TestsFrom(file, at);
      if item.lines != [] { AtLast(file, at, item.lines); }
    } else {
      ReadsTest(file, at, item);
    }
  }

  lemma ListingStep(items: seq<Item>, at: nat)
    requires items != []
    ensures Listing(items, at) == TestsOf(items[0], at) + Listing(items[1..], at + |PrintItem(items[0])|)
  {
  }

  lemma ItemsSplit(file: seq<FileLine>, at: nat, items: seq<Item>, end: nat)
    requires items != [] && At(file, at, PrintItems(items)) && end == at + |PrintItem(items[0])|
    ensures At(file, at, PrintItem(items[0])) && At(file, end, PrintItems(items[1..]))
    ensures |PrintItems(items)| == |PrintItem(items[0])| + |PrintItems(items[1..])|
  {
    AtSplit(file, at, PrintItem(items[0]), PrintItems(items[1..]));
  }

  // The scan lists each item's test and goes on at the next item.
  predicate ScansEach(file: seq<FileLine>, at: nat, items: seq<Item>)
    decreases |items|
  {
    if items == [] then at == |file|
    else
      var end := at + |PrintItem(items[0])|;
      Scans(file, at, TestsOf(items[0], at), end) && ScansEach(file, end, items[1..])
  }

  lemma {:induction false} ReadsItems(file: seq<FileLine>, at: nat, items: seq<Item>)
    requires WfItems(items)
    requires At(file, at, PrintItems(items)) && at + |PrintItems(items)| == |file|
    requires at > 0 ==> !file[at - 1].above
    ensures ScansEach(file, at, items)
    decreases |items|
  {
    if items != [] {
      var end := at + |PrintItem(items[0])|;
      ItemsSplit(file, at, items, end);
      ReadsItem(file, at, items[0], end);
      ReadsItems(file, end, items[1..]);
    }
  }

  lemma {:induction false} ScansJoin(file: seq<FileLine>, at: nat, items: seq<Item>)
    requires ScansEach(file, at, items) && at <= |file|
    ensures TestsFrom(file, at) == Listing(items, at)
    decreases |items|
  {
    if items != [] {
      var end := at + |PrintItem(items[0])|;
      ScansJoin(file, end, items[1..]);
      ScansOn(file, at, TestsOf(items[0], at), end, Listing(items[1..], end));
      ListingStep(items, at);
    }
  }

  // No test is left unread and none is invented: the scan's tests are the ones laid out, in order, each with its
  // own line, name, exemption and body, however many come before it.
  lemma EveryTestIsRead(items: seq<Item>)
    requires WfItems(items)
    ensures TestsFrom(PrintItems(items), 0) == Listing(items, 0)
    ensures Answered(TestsFrom(PrintItems(items), 0))
  {
    var file := PrintItems(items);
    AtWhole(file);
    ReadsItems(file, 0, items);
    ScansJoin(file, 0, items);
    ItemsAnswered(items, 0);
    ListingAnswered(items, 0);
  }

  lemma ItemAnswered(item: Item, at: nat)
    requires WfItem(item)
    ensures Answered(TestsOf(item, at))
  {
    if item.TestFn? {
      WalkWithin(Reads(item.more) + Print(item.body), Reads(item.more), item.body);
    }
  }

  lemma {:induction false} AnsweredJoin(tests: seq<Test>, rest: seq<Test>)
    requires Answered(tests) && Answered(rest)
    ensures Answered(tests + rest)
    decreases |tests|
  {
    if tests == [] {
      assert [] + rest == rest;
    } else {
      assert (tests + rest)[0] == tests[0] && (tests + rest)[1..] == tests[1..] + rest;
      AnsweredJoin(tests[1..], rest);
    }
  }

  predicate EachAnswered(items: seq<Item>, at: nat)
    decreases |items|
  {
    items == [] || (Answered(TestsOf(items[0], at)) && EachAnswered(items[1..], at + |PrintItem(items[0])|))
  }

  lemma {:induction false} ItemsAnswered(items: seq<Item>, at: nat)
    requires WfItems(items)
    ensures EachAnswered(items, at)
    decreases |items|
  {
    if items != [] {
      ItemAnswered(items[0], at);
      ItemsAnswered(items[1..], at + |PrintItem(items[0])|);
    }
  }

  lemma {:induction false} ListingAnswered(items: seq<Item>, at: nat)
    requires EachAnswered(items, at)
    ensures Answered(Listing(items, at))
    decreases |items|
  {
    if items != [] {
      var next := at + |PrintItem(items[0])|;
      ListingAnswered(items[1..], next);
      AnsweredJoin(TestsOf(items[0], at), Listing(items[1..], next));
      ListingStep(items, at);
    }
  }

  lemma {:induction false} NoOffender(tests: seq<Test>, k: nat)
    requires Offenders(tests) == [] && k < |tests|
    ensures !Offends(tests[k])
    decreases |tests|
  {
    if k > 0 { NoOffender(tests[1..], k - 1); }
  }

  // Test number `k` of the list.
  predicate Stands(tests: seq<Test>, k: nat, test: Test) {
    k < |tests| && tests[k] == test
  }

  lemma StandsBehind(first: seq<Test>, below: seq<Test>, j: nat, test: Test)
    requires Stands(below, j, test)
    ensures Stands(first + below, |first| + j, test)
  {
  }

  lemma ListingFirst(items: seq<Item>, at: nat)
    requires items != [] && items[0].TestFn?
    ensures Stands(Listing(items, at), 0, TestOf(items[0], at))
  {
    ListingStep(items, at);
  }

  // The line of the file an item begins on.
  function LineOf(items: seq<Item>, at: nat, i: nat): nat
    requires i < |items|
  {
    if i == 0 then at else LineOf(items[1..], at + |PrintItem(items[0])|, i - 1)
  }

  // Where an item's test stands in the list of its file's tests.
  function PlaceOf(items: seq<Item>, at: nat, i: nat): nat
    requires i < |items|
  {
    if i == 0 then 0 else |TestsOf(items[0], at)| + PlaceOf(items[1..], at + |PrintItem(items[0])|, i - 1)
  }

  lemma {:induction false} ListingHas(items: seq<Item>, at: nat, i: nat, item: Item)
    requires i < |items| && items[i] == item && item.TestFn?
    ensures Stands(Listing(items, at), PlaceOf(items, at, i), TestOf(item, LineOf(items, at, i)))
    decreases |items|
  {
    if i == 0 {
      ListingFirst(items, at);
    } else {
      var next := at + |PrintItem(items[0])|;
      ListingHas(items[1..], next, i - 1, item);
      ListingStep(items, at);
      StandsBehind(TestsOf(items[0], at), Listing(items[1..], next), PlaceOf(items[1..], next, i - 1),
                   TestOf(item, LineOf(items, at, i)));
    }
  }

  // A test whose body stands on its signature's line is never seen to be entered: it is read on to the end of the next
  // test, which is neither counted nor checked on its own.
  lemma OneLineTestSwallowsNext(attr: FileLine, empty: FileLine, next: FileLine, sig: FileLine, say: FileLine,
                                close: FileLine)
    requires attr.testAttr && next.testAttr && Net(next.read) == 0
    requires empty.fnName.Some? && Net(empty.read) == 0
    requires Net(sig.read) == 1 && Net(say.read) == 0 && Net(close.read) == -1
    ensures var file := [attr, empty, next, sig, say, close];
            TestsFrom(file, 0) == [Test(2, empty.fnName.value, false, [next.read, sig.read, say.read])]
  {
    var file := [attr, empty, next, sig, say, close];
    assert SignatureFrom(file, 1) == 1;
    assert BodyEnd(file, 5, 1, true) == 5 && BodyEnd(file, 4, 1, true) == 5 && BodyEnd(file, 3, 0, false) == 5;
    assert BodyEnd(file, 2, 0, false) == 5 && BodyEnd(file, 1, 0, false) == 5;
    TestsStep(file, 0, 1, 5);
    assert TestsFrom(file, 6) == [];
    forall i: nat | i < 6 ensures Reads(file)[i] == file[i].read {
      ReadsEach(file, i);
    }
    assert Slice(Reads(file), 2, 5) == [next.read, sig.read, say.read];
  }
}
