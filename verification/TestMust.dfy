// The walk over printed lines answers a must-analysis of the program: the line-based code is exact for it.
module TestMust {
  import opened Windows
  import opened Wrappers
  import opened TestLines
  import opened TestPrograms
  import opened TestLayout

  // Whether the analysis finds an assertion on every path of `b`, whose block already shows the lines `before`.
  predicate Must(b: Block, before: seq<Line>)
    decreases b, 0
  {
    match b
    case Done => false
    case Then(s, rest) => MustStmt(s, before) || Must(rest, before + PrintStmt(s))
  }

  predicate MustStmt(s: Stmt, before: seq<Line>) {
    match s
    case Simple(lines, _, _) => SaysAny(lines)
    case Cond(head, body, rest) => MustWithin(head.more, body) && Closed(rest) && MustChain(rest)
    case ForLoop(head, _, body, _) => Countable(before, head.line.subject) && MustWithin(head.more, body)
    case WhileLoop(_, _, _) => false
    case MatchOn(head, arms, _) => HeaderDepth(head.line) == 1 && arms.Arm? && MustArms(arms)
  }

  predicate MustWithin(more: seq<Line>, body: Block)
    decreases body, 1
  {
    SaysAny(more) || Must(body, more)
  }

  predicate Closed(c: Chain) {
    match c
    case NoElse(_) => false
    case Otherwise(_, _, _) => true
    case OrIf(_, _, rest) => Closed(rest)
  }

  predicate MustChain(c: Chain) {
    match c
    case NoElse(_) => true
    case Otherwise(_, body, _) => MustWithin([], body)
    case OrIf(head, body, rest) => MustWithin(head.more, body) && MustChain(rest)
  }

  predicate MustArms(arms: Arms) {
    match arms
    case NoArms => true
    case Arm(line, body, tail, rest) =>
      (Says(line) || Must(body, [line]) || SaysAny(tail)) && MustArms(rest)
  }

  function BranchesOf(c: Chain): seq<seq<Line>> {
    match c
    case NoElse(_) => []
    case Otherwise(_, body, _) => [Print(body)]
    case OrIf(head, body, rest) => [head.more + Print(body)] + BranchesOf(rest)
  }

  lemma SaysFirst(lines: seq<Line>)
    requires lines != []
    ensures SaysAny(lines) == (Says(lines[0]) || SaysAny(lines[1..]))
  {
    assert forall line | line in lines :: line == lines[0] || line in lines[1..];
    assert forall line | line in lines[1..] :: line in lines;
  }

  // From line `at` the walk either has its assertion or goes on from line `end`.
  predicate Walked(body: seq<Line>, at: nat, asserts: bool, end: nat) {
    at <= |body| && end <= |body| && WalkFrom(body, at) == if asserts then Answer(true) else WalkFrom(body, end)
  }

  lemma {:induction false} WalkFlat(body: seq<Line>, at: nat, lines: seq<Line>)
    requires At(body, at, lines) && FlatAll(lines)
    ensures Walked(body, at, SaysAny(lines), at + |lines|)
    decreases |lines|
  {
    if lines != [] {
      AtRest(body, at, lines);
      SaysFirst(lines);
      assert Flat(body[at]);
      WalkFlat(body, at + 1, lines[1..]);
    }
  }

  lemma MustOf(s: Stmt, rest: Block, before: seq<Line>, shown: seq<Line>)
    requires shown == before + PrintStmt(s)
    ensures Must(Then(s, rest), before) == (MustStmt(s, before) || Must(rest, shown))
  {
  }

  lemma WalkOn(body: seq<Line>, at: nat, next: nat, end: nat, first: bool, second: bool)
    requires Walked(body, at, first, next) && Walked(body, next, second, end)
    ensures Walked(body, at, first || second, end)
  {
  }

  lemma {:induction false} WalkBlock(body: seq<Line>, at: nat, b: Block)
    requires Wf(b) && At(body, at, Print(b))
    ensures at <= |body| && Walked(body, at, Must(b, body[..at]), at + |Print(b)|)
    decreases b, 0
  {
    match b
    case Done =>
    case Then(s, rest) =>
      AtSplit(body, at, PrintStmt(s), Print(rest));
      AtExtends(body, at, PrintStmt(s));
      var next := at + |PrintStmt(s)|;
      assert at + |Print(b)| == next + |Print(rest)|;
      WalkStmt(body, at, s);
      WalkBlock(body, next, rest);
      MustOf(s, rest, body[..at], body[..next]);
      WalkOn(body, at, next, next + |Print(rest)|, MustStmt(s, body[..at]), Must(rest, body[..next]));
  }

  // A slice that is a header's further lines and a block is walked whole.
  lemma {:induction false} WalkWithin(inner: seq<Line>, more: seq<Line>, b: Block)
    requires Wf(b) && FlatAll(more) && inner == more + Print(b)
    ensures WalkFrom(inner, 0) == Answer(MustWithin(more, b))
    decreases b, 1
  {
    AtWhole(inner);
    AtSplit(inner, 0, more, Print(b));
    WalkFlat(inner, 0, more);
    WalkBlock(inner, |more|, b);
    assert inner[..|more|] == more;
  }

  lemma {:induction false} WalkStmt(body: seq<Line>, at: nat, s: Stmt)
    requires WfStmt(s) && At(body, at, PrintStmt(s))
    ensures at <= |body| && Walked(body, at, MustStmt(s, body[..at]), at + |PrintStmt(s)|)
    decreases s, 2
  {
    match s
    case Simple(lines, _, _) => WalkFlat(body, at, lines);
    case Cond(_, _, _) => WalkCond(body, at, s);
    case ForLoop(_, _, _, _) => WalkFor(body, at, s);
    case WhileLoop(head, b, close) => ReadBlock(body, at, head, KwWhile, b, [close]);
    case MatchOn(_, _, _) => WalkMatch(body, at, s);
  }

  // A construct that settles with `end` to resume from.
  lemma WalkSettled(body: seq<Line>, at: nat, asserts: bool, end: nat)
    requires at < |body| && body[at].opener.Some? && !body[at].skipped && end <= |body|
    requires Settle(body, at) == Settled(Answer(asserts), end)
    ensures Walked(body, at, asserts, end)
  {
  }

  lemma {:induction false} SettleFor(body: seq<Line>, at: nat, head: Head, b: Block, close: Line)
    requires WfHead(head, KwFor) && Wf(b) && close.leads && At(body, at, PrintHead(head) + Print(b) + [close])
    ensures at < |body| && body[at] == head.line
    ensures Settle(body, at)
         == Settled(Answer(Countable(body[..at], head.line.subject) && MustWithin(head.more, b)),
                    at + |PrintHead(head) + Print(b) + [close]|)
    decreases b, 2
  {
    ReadBlock(body, at, head, KwFor, b, [close]);
    WalkWithin(head.more + Print(b), head.more, b);
  }

  lemma {:induction false} WalkFor(body: seq<Line>, at: nat, s: Stmt)
    requires s.ForLoop? && WfStmt(s) && At(body, at, PrintStmt(s))
    ensures at <= |body| && Walked(body, at, MustStmt(s, body[..at]), at + |PrintStmt(s)|)
    decreases s, 0
  {
    SettleFor(body, at, s.head, s.body, s.close);
    WalkSettled(body, at, MustStmt(s, body[..at]), at + |PrintStmt(s)|);
  }

  // What the walk reads at a header: its keyword, where its block ends, and the slice inside.
  lemma ReadBlock(body: seq<Line>, at: nat, head: Head, keyword: Keyword, b: Block, after: seq<Line>)
    requires WfHead(head, keyword) && Wf(b) && after != [] && after[0].leads
    requires At(body, at, PrintHead(head) + Print(b) + after)
    ensures at < |body| && body[at] == head.line
    ensures ExtentOf(body, at) == at + |PrintHead(head)| + |Print(b)| < |body|
    ensures Slice(body, at + 1, ExtentOf(body, at)) == head.more + Print(b)
    ensures At(body, ExtentOf(body, at), after)
  {
    NestPrint(b, 0);
    ReadInside(body, at, head, keyword, Print(b), after);
  }

  lemma {:induction false} ReadInside(
    body: seq<Line>, at: nat, head: Head, keyword: Keyword, inside: seq<Line>, after: seq<Line>)
    requires WfHead(head, keyword) && Nest(inside, 0) == Some(0) && after != [] && after[0].leads
    requires At(body, at, PrintHead(head) + inside + after)
    ensures at < |body| && body[at] == head.line
    ensures ExtentOf(body, at) == at + |PrintHead(head)| + |inside| < |body|
    ensures Slice(body, at + 1, ExtentOf(body, at)) == head.more + inside
    ensures At(body, ExtentOf(body, at), after)
  {
    PartsOfBlock(body, at, head, inside, after);
    ExtentIsMatchingLine(body, at, head, keyword, inside);
  }

  lemma PartsOfBlock(body: seq<Line>, at: nat, head: Head, inside: seq<Line>, after: seq<Line>)
    requires At(body, at, PrintHead(head) + inside + after) && after != []
    ensures |PrintHead(head)| == 1 + |head.more|
    ensures At(body, at, PrintHead(head)) && body[at] == head.line
    ensures var inner := at + |PrintHead(head)|; At(body, inner, inside) && At(body, inner + |inside|, after)
    ensures var end := at + |PrintHead(head)| + |inside|;
            end < |body| && body[end] == after[0] && body[at + 1..end] == head.more + inside
  {
    AtSplit3(body, at, PrintHead(head), inside, after);
    AtHead(body, at, head);
    AtRest(body, at + |PrintHead(head)| + |inside|, after);
    AtJoin(body, at + 1, head.more, inside);
    AtIs(body, at + 1, head.more + inside);
  }

  lemma AtHead(body: seq<Line>, at: nat, head: Head)
    requires At(body, at, PrintHead(head))
    ensures body[at] == head.line && At(body, at + 1, head.more) && |PrintHead(head)| == 1 + |head.more|
  {
    AtRest(body, at, PrintHead(head));
    assert PrintHead(head)[1..] == head.more;
  }

  lemma {:induction false} ReadChain(body: seq<Line>, cursor: nat, c: Chain, branches: seq<seq<Line>>)
    requires WfChain(c) && At(body, cursor, PrintChain(c)) && cursor < |body|
    requires forall b | b in branches :: |b| < |body|
    ensures ChainFrom(body, cursor, branches)
         == Chained(branches + BranchesOf(c), Closed(c), cursor + |PrintChain(c)| - 1)
    decreases c
  {
    AtRest(body, cursor, PrintChain(c));
    match c
    case NoElse(close) =>
      assert branches + [] == branches;
    case Otherwise(line, b, close) =>
      assert PrintChain(c) == PrintHead(Head(line, [])) + Print(b) + [close];
      ReadBlock(body, cursor, Head(line, []), KwElse, b, [close]);
      assert [] + Print(b) == Print(b);
    case OrIf(head, b, rest) =>
      LeadsChain(rest);
      ReadBlock(body, cursor, head, KwElse, b, PrintChain(rest));
      ReadChain(body, ExtentOf(body, cursor), rest, branches + [head.more + Print(b)]);
      Assoc(branches, [head.more + Print(b)], BranchesOf(rest));
  }

  lemma LeadsChain(c: Chain)
    requires WfChain(c)
    ensures PrintChain(c)[0].leads
  {
  }

  lemma {:induction false} WalkBranches(c: Chain, bound: nat)
    requires WfChain(c) && forall branch | branch in BranchesOf(c) :: |branch| < bound
    ensures WalkAll(BranchesOf(c), bound) == Answer(MustChain(c))
    decreases c
  {
    match c
    case NoElse(close) =>
    case Otherwise(_, b, _) =>
      WalkWithin(Print(b), [], b);
    case OrIf(head, b, rest) =>
      WalkWithin(head.more + Print(b), head.more, b);
      assert BranchesOf(c)[1..] == BranchesOf(rest);
      WalkBranches(rest, bound);
  }

  lemma {:induction false} ChainCloses(c: Chain)
    requires WfChain(c)
    ensures var close := PrintChain(c)[|PrintChain(c)| - 1]; Flat(close) && !close.asserts
  {
    match c
    case NoElse(_) =>
    case Otherwise(_, _, _) =>
    case OrIf(_, _, rest) => ChainCloses(rest);
  }

  lemma SettlesChain(body: seq<Line>, at: nat, end: nat, inner: seq<Line>, c: Chain, last: nat)
    requires at < end <= last < |body| && body[at].opener == Some(KwIf) && ExtentOf(body, at) == end
    requires Slice(body, at + 1, end) == inner
    requires forall branch | branch in [inner] + BranchesOf(c) :: |branch| < |body|
    requires ChainFrom(body, end, [inner]) == Chained([inner] + BranchesOf(c), Closed(c), last)
    ensures Settle(body, at)
         == Settled(if Closed(c) then WalkAll([inner] + BranchesOf(c), |body|) else Answer(false), last)
  {
  }

  // An `if` chain settles the walk when it is closed and every branch does; otherwise the walk resumes at its
  // closing line.
  lemma {:induction false} SettleCond(
    body: seq<Line>, at: nat, s: Stmt, head: Head, b: Block, rest: Chain, end: nat, last: nat)
    requires s == Cond(head, b, rest) && WfHead(head, KwIf) && Wf(b) && WfChain(rest)
    requires At(body, at, PrintHead(head) + Print(b) + PrintChain(rest))
    requires end == at + |PrintHead(head)| + |Print(b)| && last == end + |PrintChain(rest)| - 1
    ensures at < |body| && body[at] == head.line && At(body, end, PrintChain(rest))
    ensures Settle(body, at) == Settled(Answer(MustWithin(head.more, b) && Closed(rest) && MustChain(rest)), last)
    decreases s, 0
  {
    var inner := head.more + Print(b);
    LeadsChain(rest);
    ReadBlock(body, at, head, KwIf, b, PrintChain(rest));
    ReadChain(body, end, rest, [inner]);
    SettlesChain(body, at, end, inner, rest, last);
    if Closed(rest) {
      WalkWithin(inner, head.more, b);
      assert ([inner] + BranchesOf(rest))[1..] == BranchesOf(rest);
      WalkBranches(rest, |body|);
    }
  }

  lemma WalkClose(body: seq<Line>, at: nat, c: Chain)
    requires WfChain(c) && At(body, at, PrintChain(c))
    ensures Walked(body, at + |PrintChain(c)| - 1, false, at + |PrintChain(c)|)
  {
    ChainCloses(c);
    AtLast(body, at, PrintChain(c));
  }

  lemma {:induction false} WalkOnFromClose(body: seq<Line>, at: nat, asserts: bool, end: nat, c: Chain, last: nat)
    requires WfChain(c) && At(body, end, PrintChain(c)) && last == end + |PrintChain(c)| - 1 && at < |body|
    requires body[at].opener.Some? && !body[at].skipped && Settle(body, at) == Settled(Answer(asserts), last)
    ensures Walked(body, at, asserts, last + 1)
  {
    WalkSettled(body, at, asserts, last);
    WalkClose(body, end, c);
    WalkOn(body, at, last, last + 1, asserts, false);
  }

  lemma {:induction false} WalkCond(body: seq<Line>, at: nat, s: Stmt)
    requires s.Cond? && WfStmt(s) && At(body, at, PrintStmt(s))
    ensures at <= |body| && Walked(body, at, MustStmt(s, body[..at]), at + |PrintStmt(s)|)
    decreases s, 1
  {
    var end := at + |PrintHead(s.head)| + |Print(s.body)|;
    var last := end + |PrintChain(s.rest)| - 1;
    SettleCond(body, at, s, s.head, s.body, s.rest, end, last);
    WalkOnFromClose(body, at, MustStmt(s, body[..at]), end, s.rest, last);
  }

  lemma {:induction false} WalkArm(line: Line, b: Block, tail: seq<Line>)
    requires Flat(line) && Wf(b) && FlatAll(tail)
    ensures WalkFrom(ArmLines(line, b, tail), 0) == Answer(Says(line) || Must(b, [line]) || SaysAny(tail))
    decreases b, 1
  {
    var arm := ArmLines(line, b, tail);
    AtWhole(arm);
    AtSplit3(arm, 0, [line], Print(b), tail);
    WalkFlat(arm, 0, [line]);
    WalkBlock(arm, 1, b);
    WalkFlat(arm, 1 + |Print(b)|, tail);
    assert arm[..1] == [line];
    SaysFirst([line]);
  }

  lemma {:induction false} WalkArms(arms: Arms, bound: nat)
    requires WfArms(arms) && forall arm | arm in ArmList(arms) :: |arm| < bound
    ensures WalkAll(ArmList(arms), bound) == Answer(MustArms(arms))
    decreases arms, 0
  {
    match arms
    case NoArms =>
    case Arm(line, b, tail, rest) =>
      WalkArm(line, b, tail);
      assert ArmList(arms)[0] == ArmLines(line, b, tail) && ArmList(arms)[1..] == ArmList(rest);
      WalkArms(rest, bound);
  }

  // A match settles once its arms are read and walked.
  lemma SettlesMatch(
    body: seq<Line>, at: nat, end: nat, inner: seq<Line>, arms: seq<seq<Line>>, asserts: bool)
    requires at < end < |body| && body[at].opener == Some(KwMatch) && ExtentOf(body, at) == end
    requires Slice(body, at + 1, end) == inner && ArmsOf(inner) == arms
    requires forall arm | arm in arms :: |arm| < |body|
    requires if arms == [] then !asserts else WalkAll(arms, |body|) == Answer(asserts)
    ensures Settle(body, at) == Settled(Answer(asserts), end + 1)
  {
  }

  lemma {:induction false} SettleMatch(body: seq<Line>, at: nat, head: Head, arms: Arms, close: Line)
    requires WfMatchHead(head) && WfArms(arms) && close.leads
    requires At(body, at, PrintHead(head) + PrintArms(arms) + [close])
    ensures at < |body| && body[at] == head.line
    ensures Settle(body, at)
         == Settled(Answer(HeaderDepth(head.line) == 1 && arms.Arm? && MustArms(arms)),
                    at + |PrintHead(head) + PrintArms(arms) + [close]|)
    decreases arms, 1
  {
    var inner := head.more + PrintArms(arms);
    NestArms(arms, 0);
    ReadInside(body, at, head, KwMatch, PrintArms(arms), [close]);
    ReadArms(head, arms);
    SplitSizes(inner, 0, [], None, |inner|);
    if HeaderDepth(head.line) == 1 {
      WalkArms(arms, |body|);
      SettlesMatch(body, at, ExtentOf(body, at), inner, ArmList(arms), arms.Arm? && MustArms(arms));
    } else {
      SettlesMatch(body, at, ExtentOf(body, at), inner, [], false);
    }
  }

  lemma {:induction false} WalkMatch(body: seq<Line>, at: nat, s: Stmt)
    requires s.MatchOn? && WfStmt(s) && At(body, at, PrintStmt(s))
    ensures at <= |body| && Walked(body, at, MustStmt(s, body[..at]), at + |PrintStmt(s)|)
    decreases s, 0
  {
    SettleMatch(body, at, s.head, s.arms, s.close);
    WalkSettled(body, at, MustStmt(s, body[..at]), at + |PrintStmt(s)|);
  }

  // A match whose header opens its block on a later line yields no arm at all.
  lemma ReadArms(head: Head, arms: Arms)
    requires WfMatchHead(head) && WfArms(arms)
    ensures ArmsOf(head.more + PrintArms(arms)) == if HeaderDepth(head.line) == 1 then ArmList(arms) else []
  {
    NestArms(arms, 0);
    if HeaderDepth(head.line) == 1 {
      ArmsAreTheArmsWritten(head.more, arms);
    } else {
      SplitRises(head.more, PrintArms(arms), HeaderDepth(head.line), 0);
    }
  }

  // The walk over a printed body terminates, and answers exactly the must-analysis.
  lemma WalkIsMust(b: Block)
    requires Wf(b)
    ensures Walk(Print(b)) == Answer(Must(b, []))
  {
    assert [] + Print(b) == Print(b);
    WalkWithin(Print(b), [], b);
  }
}
