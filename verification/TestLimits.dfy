// Where the analysis of test bodies stops: accepted bodies with a silent run, bodies it cannot accept, and the one
// shape on which its walk makes no progress.
module TestLimits {
  import opened Wrappers
  import opened TestLines
  import opened TestPrograms
  import opened TestMust
  import opened TestExactness
  import opened TestAcceptance
  import opened TestTermination

  // Lines of the shapes below, whatever their text.
  predicate Text(line: Line) {
    Flat(line) && Net(line) == 0 && !line.leads && !line.asserts && !line.arrow && line.binding.NoBinding?
  }

  predicate Assertion(line: Line) {
    Flat(line) && Net(line) == 0 && !line.leads && !line.skipped && line.asserts && line.binding.NoBinding?
  }

  predicate Opening(line: Line, keyword: Keyword) {
    && line.opener == Some(keyword) && !line.skipped && !line.leads && !line.asserts && line.binding.NoBinding?
    && keyword != KwElse && Net(line) == 1
  }

  function Say(line: Line): Block {
    Then(Simple([line], Unknown, Falls), Done)
  }

  lemma OneLine(line: Line, ends: Ends)
    requires Flat(line) && Net(line) == 0 && !line.leads && (line.binding.Binds? ==> !line.binding.form.OpenForm?)
    requires Exits(ends) ==> !Says(line)
    ensures WfSimple([line], ends) && (SaysAny([line]) <==> Says(line))
  {
    assert line in [line];
    assert Nest([line], 0) == Nest([line][1..], 0);
  }

  lemma OneLineHead(line: Line, keyword: Keyword)
    requires Opening(line, keyword)
    ensures WfHead(Head(line, []), keyword) && !SaysAny(PrintHead(Head(line, [])))
  {
    assert PrintHead(Head(line, [])) == [line];
  }

  // A header with its block opened on a second line.
  lemma SplitHead(header: Line, rest: Line, keyword: Keyword)
    requires Opening(header.(opens := header.opens + 1), keyword) && header.opens == 0
    requires Text(rest.(closes := rest.opens)) && Net(rest) == 1
    ensures WfHead(Head(header, [rest]), keyword) && !SaysAny(PrintHead(Head(header, [rest])))
  {
    assert [rest][1..] == [] && OpensOne([rest][1..], 1);
    assert PrintHead(Head(header, [rest])) == [header, rest];
  }

  lemma Asserting(line: Line, before: seq<Line>, env: Env, hidden: set<string>)
    requires Assertion(line)
    ensures Wf(Say(line)) && Must(Say(line), before) && QuietOf(Say(line), env) == SILENCED
    ensures TablesHold(Say(line), hidden) && OnlyReturns(Say(line))
  {
    OneLine(line, Falls);
  }

  lemma AcceptedInSilence(b: Block)
    requires Wf(b) && Must(b, []) && QuietOf(b, map[]) != SILENCED
    ensures Accepted(b) && !EveryRunAsserts(b)
  {
    WalkIsMust(b);
    RunsAssertIffSilenced(b);
  }

  // `if skip { return; }` above the assertion.
  lemma EarlyReturnIsAccepted(header: Line, leave: Line, close: Line, say: Line)
    requires Opening(header, KwIf) && Text(leave) && WfClose(close) && Assertion(say)
    ensures var guard := Then(Simple([leave], Unknown, Leaves(LeavesTest)), Done);
            var b := Then(Cond(Head(header, []), guard, NoElse(close)), Say(say));
            Wf(b) && TablesHold(b, {}) && OnlyReturns(b) && Accepted(b) && !EveryRunAsserts(b)
  {
    var guard := Then(Simple([leave], Unknown, Leaves(LeavesTest)), Done);
    var s := Cond(Head(header, []), guard, NoElse(close));
    OneLine(leave, Leaves(LeavesTest));
    OneLineHead(header, KwIf);
    Asserting(say, [] + PrintStmt(s), Bind(map[], s), Hide({}, s));
    assert WfStmt(guard.first) && TablesHoldStmt(guard.first, {}) && TablesHold(Done, Hide({}, guard.first));
    assert guard.first == EraseStmt(guard.first, RoundExits) && guard == Erase(guard, RoundExits);
    assert s.rest == EraseChain(s.rest, RoundExits) && s == EraseStmt(s, RoundExits);
    assert TablesHold(guard, {}) && Wf(guard);
    assert QuietStmt(guard.first, map[]).test && QuietOf(guard, map[]).test && QuietStmt(s, map[]).test;
    AcceptedInSilence(Then(s, Say(say)));
  }

  // A closure that asserts, never called: `let check = |r| {`, its assertion, and `};`.
  lemma UncalledClosureIsAccepted(define: Line, say: Line, close: Line)
    requires Flat(define) && !define.leads && Net(define) == 1
    requires define.binding.Binds? && !define.binding.form.OpenForm?
    requires Assertion(say) && WfClose(close)
    ensures var b := Then(Simple([define, say, close], Unknown, Deferred), Done);
            Wf(b) && Accepted(b) && !EveryRunAsserts(b)
  {
    var lines := [define, say, close];
    var s := Simple(lines, Unknown, Deferred);
    assert lines[1..] == [say, close] && [say, close][1..] == [close] && [close][1..] == [];
    assert Nest(lines, 0) == Nest(lines[1..], 1) && Nest([say, close], 1) == Nest([say, close][1..], 1);
    assert Nest([close], 1) == Some(0);
    assert say in lines && SaysAny(lines);
    assert WfStmt(s) && MustStmt(s, []) && QuietStmt(s, map[]).falls;
    assert QuietOf(Done, Bind(map[], s)).falls;
    AcceptedInSilence(Then(s, Done));
  }

  // A counted loop whose every round may `continue` above its assertion.
  lemma SkippedRoundsAreAccepted(header: Line, skip: Line, close: Line, say: Line)
    requires Opening(header, KwFor) && header.subject == InlineList(false)
    requires Text(skip) && WfClose(close) && Assertion(say)
    ensures var body := Then(Simple([skip], Unknown, MayLeave(LeavesRound)), Say(say));
            var b := Then(ForLoop(Head(header, []), NonEmpty, body, close), Done);
            Wf(b) && TablesHold(b, {}) && !Firm(b, [], map[]) && Accepted(b) && !EveryRunAsserts(b)
  {
    var s := Simple([skip], Unknown, MayLeave(LeavesRound));
    OneLine(skip, s.ends);
    OneLineHead(header, KwFor);
    Asserting(say, [] + PrintStmt(s), Bind(map[], s), Hide({}, s));
    var body := Then(s, Say(say));
    assert [] + PrintStmt(s) == [skip];
    assert WfStmt(s) && Wf(body) && TablesHold(body, {}) && Must(body, []);
    assert QuietStmt(s, map[]).round && QuietOf(body, map[]).round;
    var loop := ForLoop(Head(header, []), NonEmpty, body, close);
    assert TablesHoldStmt(loop, {}) && TablesHold(Done, Hide({}, loop));
    assert MustStmt(loop, []) && QuietStmt(loop, map[]).falls;
    assert QuietOf(Done, Bind(map[], loop)).falls;
    AcceptedInSilence(Then(loop, Done));
  }

  // A loop over an empty list that reads as a table: `for value in [` with its `] {` on the next line.
  lemma SplitEmptyListIsAccepted(header: Line, bracket: Line, close: Line, say: Line)
    requires Opening(header.(opens := header.opens + 1), KwFor) && header.opens == 0
    requires header.subject == InlineList(false) && WfClose(close) && Assertion(say)
    requires Text(bracket.(closes := bracket.opens)) && bracket.bracket && Net(bracket) == 1
    ensures var b := Then(ForLoop(Head(header, [bracket]), IsEmpty, Say(say), close), Done);
            Wf(b) && Accepted(b) && !EveryRunAsserts(b)
  {
    var head := Head(header, [bracket]);
    var loop := ForLoop(head, IsEmpty, Say(say), close);
    SplitHead(header, bracket, KwFor);
    Asserting(say, [bracket], map[], {});
    assert head.line == header && head.more == [bracket];
    assert WfStmt(loop);
    assert Countable([], header.subject) && MustStmt(loop, []);
    assert SubjectSize(map[], header.subject, IsEmpty) == IsEmpty && QuietStmt(loop, map[]).falls;
    assert QuietOf(Done, Bind(map[], loop)).falls;
    AcceptedInSilence(Then(loop, Done));
  }

  // A binding inside an earlier nested block decides what the scan reads, though it is no longer in force.
  lemma NestedBindingIsAccepted(guard: Line, table: Line, header: Line, close: Line, say: Line)
    requires Opening(guard, KwIf) && Opening(header, KwFor) && WfClose(close) && Assertion(say)
    requires Text(table.(binding := NoBinding)) && table.binding.Binds? && table.binding.form.ListForm?
    requires header.subject == Named(table.binding.name)
    ensures var nested := Cond(Head(guard, []), Then(Simple([table], NonEmpty, Falls), Done), NoElse(close));
            var b := Then(nested, Then(ForLoop(Head(header, []), Unknown, Say(say), close), Done));
            Wf(b) && Accepted(b) && !EveryRunAsserts(b)
  {
    var bound := Then(Simple([table], NonEmpty, Falls), Done);
    var nested := Cond(Head(guard, []), bound, NoElse(close));
    var loop := ForLoop(Head(header, []), Unknown, Say(say), close);
    OneLine(table, Falls);
    OneLineHead(guard, KwIf);
    OneLineHead(header, KwFor);
    Asserting(say, [], map[], {});
    assert bound.rest == Done && Print(bound) == [table] + [];
    assert [] + PrintStmt(nested) == [guard] + ([table] + [close]);
    assert WfStmt(bound.first) && Wf(bound) && Wf(Then(loop, Done));
    DecidingHere([guard], table, [close], table.binding.name);
    assert MustStmt(loop, [] + PrintStmt(nested)) && Must(Then(loop, Done), [] + PrintStmt(nested));
    assert QuietOf(Done, Bind(map[], loop)).falls && QuietStmt(loop, map[]).falls;
    assert Bind(map[], nested) == map[] && QuietChain(nested.rest, map[]).falls;
    assert QuietOf(Then(loop, Done), map[]).falls && QuietStmt(nested, map[]).falls;
    AcceptedInSilence(Then(nested, Then(loop, Done)));
  }

  // A match whose header is written over several lines yields no arm, so it is never accepted.
  lemma SplitMatchHeaderIsRefused(header: Line, rest: Line, arm: Line, close: Line)
    requires Opening(header.(opens := header.opens + 1), KwMatch) && header.opens == 0
    requires Text(rest.(closes := rest.opens)) && Net(rest) == 1
    requires Assertion(arm) && arm.arrow && WfClose(close)
    ensures var b := Then(MatchOn(Head(header, [rest]), Arm(arm, Done, [], NoArms), close), Done);
            Wf(b) && !Accepted(b) && EveryRunAsserts(b)
  {
    var arms := Arm(arm, Done, [], NoArms);
    var b := Then(MatchOn(Head(header, [rest]), arms, close), Done);
    SplitHead(header, rest, KwMatch);
    assert WfArms(NoArms) && QuietArms(NoArms, map[]) == SILENCED;
    assert Says(arm) && QuietArms(arms, map[]) == Either(SILENCED, QuietArms(NoArms, map[]));
    assert WfArms(arms) && QuietArms(arms, map[]) == SILENCED;
    assert QuietStmt(b.first, map[]) == SILENCED;
    assert !MustStmt(b.first, []) && !Must(Done, [] + PrintStmt(b.first));
    WalkIsMust(b);
    RunsAssertIffSilenced(b);
  }

  // `} else if x { .. }` closed on its own line leaves the chain's cursor where it stands, whatever follows,
  lemma ElseIfOnOneLineDiverges(header: Line, chain: Line, rest: seq<Line>)
    requires Opening(header, KwIf) && ChainElseIf(chain) && ClosesItself(chain)
    ensures Walk([header, chain] + rest) == Diverges
  {
    var body := [header, chain] + rest;
    assert body[0] == header && body[1] == chain;
    assert CloseFrom(body, 1, 1) == 1 && ExtentOf(body, 0) == 1;
    assert StallsAt(body, 1, 1);
    StalledWalk(body, 0, 1);
  }

  // and so does a balanced body cut off in front of the brace such a line would open.
  lemma CutElseIfDiverges(header: Line, chain: Line)
    requires Opening(header, KwIf) && ChainElseIf(chain) && chain.opens == 0 && chain.closes == 1
    ensures var body := [header, chain]; Nest(body, 0) == Some(0) && Walk(body) == Diverges
  {
    var body := [header, chain];
    assert body[1..][1..] == [] && body[1..][0] == chain;
    assert Nest(body, 0) == Nest(body[1..], 1) == Nest(body[1..][1..], 0);
    assert CloseFrom(body, 1, 1) == 1 && ExtentOf(body, 0) == 1;
    assert StallsAt(body, 1, 1);
    StalledWalk(body, 0, 1);
  }

  // A counted loop around an `if` whose last two blocks close on one line, `}}`: balanced, with no `else if` closed on
  // its own line; the loop's block is taken to end below the chain's, and the walk of it does not terminate.
  lemma TwoClosedAtOnceDiverges(loop: Line, guard: Line, chain: Line, close: Line)
    requires Opening(loop, KwFor) && loop.subject == InlineList(false) && Opening(guard, KwIf)
    requires ChainElseIf(chain) && chain.opens == 1 && chain.closes == 1
    requires Flat(close) && close.leads && Net(close) == -2
    ensures var body := [loop, guard, chain, close];
            Nest(body, 0) == Some(0) && !ClosesItself(chain) && Walk(body) == Diverges
  {
    var body := [loop, guard, chain, close];
    assert body[1..] == [guard, chain, close] && body[1..][1..] == [chain, close];
    assert body[1..][1..][1..] == [close] && [close][1..] == [];
    assert Nest([close], 2) == Some(0) && Nest([chain, close], 2) == Nest([chain, close][1..], 2);
    assert Nest(body[1..], 1) == Nest(body[1..][1..], 2) && Nest(body, 0) == Nest(body[1..], 1);
    assert CloseFrom(body, 4, 0) == 3 && CloseFrom(body, 3, 2) == CloseFrom(body, 4, 0);
    assert CloseFrom(body, 2, 2) == CloseFrom(body, 3, 2) && CloseFrom(body, 1, 1) == CloseFrom(body, 2, 2);
    assert ExtentOf(body, 0) == 3;
    var inner := Slice(body, 1, 3);
    assert inner == [guard, chain];
    assert CloseFrom(inner, 1, 1) == 1 && ExtentOf(inner, 0) == 1;
    assert StallsAt(inner, 1, 1);
    StalledWalk(inner, 0, 1);
    assert Settle(body, 0).verdict == Diverges;
  }
}
