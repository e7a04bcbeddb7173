// `check_file` of scripts/validate/validate_test_assertions.py: finding the tests of a file, their exemptions and
// where their bodies end.
module TestFiles {
  import opened Windows
  import opened Wrappers
  import opened TestLines

  // A line of a source file: what the walk reads of it, and what finding the tests reads of it.
  datatype FileLine = FileLine(
    read: Line,
    testAttr: bool,
    fnName: Option<string>,
    above: bool,       // begins with `#[` or `//`
    exempts: bool      // carries the `assertions-in-helper:` marker
  )

  function Reads(lines: seq<FileLine>): (r: seq<Line>)
    ensures |r| == |lines|
  {
    if lines == [] then [] else [lines[0].read] + Reads(lines[1..])
  }

  lemma {:induction false} ReadsEach(lines: seq<FileLine>, i: nat)
    requires i < |lines|
    ensures Reads(lines)[i] == lines[i].read
  {
    if i > 0 {
      ReadsEach(lines[1..], i - 1);
    }
  }

  // A test as the scan reads it: the line of its signature, its name, whether it is exempt, and its body.
  datatype Test = Test(line: nat, name: string, exempt: bool, body: seq<Line>)

  // Whether a marker stands in the run of attributes and comments ending above line `look`.
  function ExemptAbove(lines: seq<FileLine>, look: nat): bool
    requires look <= |lines|
  {
    look > 0 && lines[look - 1].above && (lines[look - 1].exempts || ExemptAbove(lines, look - 1))
  }

  function SignatureFrom(lines: seq<FileLine>, start: nat): (r: nat)
    requires start <= |lines|
    ensures start <= r <= |lines| && (r < |lines| ==> lines[r].fnName.Some?)
    decreases |lines| - start
  {
    if start == |lines| || lines[start].fnName.Some? then start else SignatureFrom(lines, start + 1)
  }

  function BodyEnd(lines: seq<FileLine>, i: nat, depth: int, entered: bool): (end: nat)
    requires 1 <= i + 1 <= |lines| + 1 && |lines| > 0 && i <= |lines|
    ensures end < |lines| && (i < |lines| ==> i <= end) && (i == |lines| ==> end == i - 1)
    decreases |lines| - i
  {
    if i == |lines| then |lines| - 1
    else
      var depth' := depth + Net(lines[i].read);
      var entered' := entered || depth' > 0;
      if entered' && depth' <= 0 then i else BodyEnd(lines, i + 1, depth', entered')
  }

  function TestAt(lines: seq<FileLine>, index: nat, start: nat, end: nat): Test
    requires index < start <= end < |lines| && lines[start].fnName.Some?
  {
    Test(start + 1, lines[start].fnName.value, ExemptAbove(lines, index), Slice(Reads(lines), start + 1, end))
  }

  function TestsFrom(lines: seq<FileLine>, index: nat): seq<Test>
    requires index <= |lines|
    decreases |lines| - index
  {
    if index == |lines| then []
    else if !lines[index].testAttr then TestsFrom(lines, index + 1)
    else
      var start := SignatureFrom(lines, index + 1);
      if start == |lines| then []
      else
        var end := BodyEnd(lines, start, 0, false);
        [TestAt(lines, index, start, end)] + TestsFrom(lines, end + 1)
  }

  lemma TestsStep(lines: seq<FileLine>, index: nat, start: nat, end: nat)
    requires index < start <= end < |lines| && lines[index].testAttr
    requires start == SignatureFrom(lines, index + 1) && end == BodyEnd(lines, start, 0, false)
    ensures TestsFrom(lines, index) == [TestAt(lines, index, start, end)] + TestsFrom(lines, end + 1)
  {
  }

  // An exempt test's body is never walked.
  predicate Offends(test: Test) {
    !test.exempt && Walk(test.body) == Answer(false)
  }

  function Offenders(tests: seq<Test>): seq<(nat, string)> {
    if tests == [] then []
    else (if Offends(tests[0]) then [(tests[0].line, tests[0].name)] else []) + Offenders(tests[1..])
  }

  lemma {:induction false} OffendersAppend(tests: seq<Test>, test: Test)
    ensures Offenders(tests + [test]) == Offenders(tests) + if Offends(test) then [(test.line, test.name)] else []
  {
    if tests == [] {
      assert [] + [test] == [test];
    } else {
      var first := if Offends(tests[0]) then [(tests[0].line, tests[0].name)] else [];
      assert (tests + [test])[0] == tests[0] && (tests + [test])[1..] == tests[1..] + [test];
      OffendersAppend(tests[1..], test);
      Assoc(first, Offenders(tests[1..]), if Offends(test) then [(test.line, test.name)] else []);
    }
  }

  method IsExempt(lines: seq<FileLine>, index: nat) returns (exempt: bool)
    requires index <= |lines|
    ensures exempt == ExemptAbove(lines, index)
  {
    exempt := false;
    var look := index;
    while look > 0 && lines[look - 1].above
      invariant 0 <= look <= index
      invariant ExemptAbove(lines, index) == (exempt || ExemptAbove(lines, look))
    {
      if lines[look - 1].exempts {
        exempt := true;
      }
      look := look - 1;
    }
  }

  method FindSignature(lines: seq<FileLine>, index: nat) returns (start: nat)
    requires index < |lines|
    ensures start == SignatureFrom(lines, index + 1)
  {
    start := index + 1;
    while start < |lines| && lines[start].fnName.None?
      invariant index + 1 <= start <= |lines|
      invariant SignatureFrom(lines, start) == SignatureFrom(lines, index + 1)
    {
      start := start + 1;
    }
  }

  method FindBodyEnd(lines: seq<FileLine>, start: nat) returns (end: nat)
    requires start < |lines|
    ensures end == BodyEnd(lines, start, 0, false)
  {
    var depth := 0;
    var entered := false;
    end := start;
    while end < |lines|
      invariant start <= end <= |lines|
      invariant BodyEnd(lines, end, depth, entered) == BodyEnd(lines, start, 0, false)
    {
      depth := depth + Net(lines[end].read);
      entered := entered || depth > 0;
      if entered && depth <= 0 {
        return;
      }
      end := end + 1;
    }
    end := |lines| - 1;
  }

  // The walk terminates on every test that is not exempt.
  predicate Answered(tests: seq<Test>) {
    tests == [] || ((!tests[0].exempt ==> Walk(tests[0].body).Answer?) && Answered(tests[1..]))
  }

  lemma AnsweredSplit(test: Test, rest: seq<Test>)
    requires Answered([test] + rest)
    ensures (!test.exempt ==> Walk(test.body).Answer?) && Answered(rest)
  {
    assert ([test] + rest)[1..] == rest;
  }

  // Reads the test whose attribute stands at `index`: whether there is one, whether it offends, and where it ends.
  method ReadTest(lines: seq<FileLine>, index: nat) returns (found: bool, offends: bool, start: nat, end: nat)
    requires index < |lines| && lines[index].testAttr && Answered(TestsFrom(lines, index))
    ensures found <==> TestsFrom(lines, index) != []
    ensures found ==>
      && index < start <= end < |lines|
      && TestsFrom(lines, index)[1..] == TestsFrom(lines, end + 1)
    ensures found ==> var test := TestsFrom(lines, index)[0];
      lines[start].fnName == Some(test.name) && test.line == start + 1 && offends == Offends(test)
  {
    found, offends, end := false, false, index;
    var exempt := IsExempt(lines, index);
    start := FindSignature(lines, index);
    if start < |lines| {
      found := true;
      end := FindBodyEnd(lines, start);
      TestsStep(lines, index, start, end);
      AnsweredSplit(TestAt(lines, index, start, end), TestsFrom(lines, end + 1));
      if !exempt {
        var asserts := AssertsOnEveryPath(Slice(Reads(lines), start + 1, end));
        offends := !asserts;
      }
    }
  }

  method CheckFile(lines: seq<FileLine>) returns (offenders: seq<(nat, string)>, total: nat)
    requires Answered(TestsFrom(lines, 0))
    ensures total == |TestsFrom(lines, 0)|
    ensures offenders == Offenders(TestsFrom(lines, 0))
  {
    offenders := [];
    total := 0;
    var index := 0;
    ghost var done: seq<Test> := [];
    while index < |lines|
      invariant 0 <= index <= |lines|
      invariant TestsFrom(lines, 0) == done + TestsFrom(lines, index)
      invariant total == |done| && offenders == Offenders(done)
      invariant Answered(TestsFrom(lines, index))
    {
      if lines[index].testAttr {
        var found, offends, start, end := ReadTest(lines, index);
        if !found {
          break;
        }
        ghost var test := TestsFrom(lines, index)[0];
        assert TestsFrom(lines, index) == [test] + TestsFrom(lines, end + 1);
        total := total + 1;
        if offends {
          offenders := offenders + [(start + 1, lines[start].fnName.value)];
        }
        AnsweredSplit(test, TestsFrom(lines, end + 1));
        OffendersAppend(done, test);
        Assoc(done, [test], TestsFrom(lines, end + 1));
        done := done + [test];
        index := end + 1;
      } else {
        index := index + 1;
      }
    }
    assert done + [] == done;
  }
}
