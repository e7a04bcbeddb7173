// What the line-based walk reads off a printed body: blocks end at their own closing line, arms are the arms
// written, and the whole walk answers a must-analysis of the program.
module TestLayout {
  import opened Windows
  import opened Wrappers
  import opened TestLines
  import opened TestPrograms

  // -------------------------------------------------------------------------
  // Brace depth over printed lines
  // -------------------------------------------------------------------------

  lemma {:induction false} NestConcat(a: seq<Line>, b: seq<Line>, depth: nat)
    requires Nest(a, depth).Some?
    ensures Nest(a + b, depth) == Nest(b, Nest(a, depth).value)
    decreases |a|
  {
    if a == [] {
      assert a + b == b;
    } else {
      assert (a + b)[1..] == a[1..] + b;
      NestConcat(a[1..], b, depth + Net(a[0]));
    }
  }

  lemma {:induction false} NestLift(lines: seq<Line>, depth: nat, lift: nat)
    requires Nest(lines, depth).Some?
    ensures Nest(lines, depth + lift) == Some(Nest(lines, depth).value + lift)
    decreases |lines|
  {
    if lines != [] {
      NestLift(lines[1..], depth + Net(lines[0]), lift);
    }
  }

  lemma {:induction false} NestMore(more: seq<Line>, depth: nat, lift: nat)
    requires OpensOne(more, depth)
    ensures Nest(more, lift + depth) == Some(lift + 1)
    decreases |more|
  {
    if more != [] {
      NestMore(more[1..], depth + Net(more[0]), lift);
    }
  }

  // A header of a block entered at `depth`, whichever keyword it carries.
  lemma NestHead(head: Head, keyword: Keyword, rest: seq<Line>, depth: nat)
    requires WfHead(head, keyword)
    requires keyword == KwElse ==> depth > 0
    ensures Nest(PrintHead(head) + rest, depth) == Nest(rest, if keyword == KwElse then depth else depth + 1)
  {
    var outer := if keyword == KwElse then depth - 1 else depth;
    var h := HeaderDepth(head.line);
    NestMore(head.more, h, outer);
    assert depth + Net(head.line) == outer + h;
    assert (PrintHead(head) + rest)[1..] == head.more + rest;
    NestConcat(head.more, rest, outer + h);
  }

  lemma NestClose(close: Line, rest: seq<Line>, depth: nat)
    requires WfClose(close)
    ensures Nest([close] + rest, depth + 1) == Nest(rest, depth)
  {
    assert ([close] + rest)[1..] == rest;
  }

  lemma {:induction false} NestPrint(b: Block, depth: nat)
    requires Wf(b)
    ensures Nest(Print(b), depth) == Some(depth)
    decreases b, 0
  {
    match b
    case Done =>
    case Then(s, rest) =>
      NestStmt(s, depth);
      NestConcat(PrintStmt(s), Print(rest), depth);
      NestPrint(rest, depth);
  }

  lemma {:induction false} NestBody(body: Block, rest: seq<Line>, depth: nat)
    requires Wf(body)
    ensures Nest(Print(body) + rest, depth) == Nest(rest, depth)
    decreases body, 1
  {
    NestPrint(body, depth);
    NestConcat(Print(body), rest, depth);
  }

  lemma {:induction false} NestStmt(s: Stmt, depth: nat)
    requires WfStmt(s)
    ensures Nest(PrintStmt(s), depth) == Some(depth)
    decreases s
  {
    match s
    case Simple(lines, _, _) =>
      NestLift(lines, 0, depth);
    case Cond(head, body, rest) =>
      assert PrintStmt(s) == PrintHead(head) + (Print(body) + PrintChain(rest));
      NestHead(head, KwIf, Print(body) + PrintChain(rest), depth);
      NestBody(body, PrintChain(rest), depth + 1);
      NestChain(rest, depth);
    case ForLoop(head, _, body, close) =>
      NestBlock(head, KwFor, body, close, depth);
    case WhileLoop(head, body, close) =>
      NestBlock(head, KwWhile, body, close, depth);
    case MatchOn(head, arms, close) =>
      assert PrintStmt(s) == PrintHead(head) + (PrintArms(arms) + [close]);
      NestHead(head, KwMatch, PrintArms(arms) + [close], depth);
      NestArms(arms, depth + 1);
      NestConcat(PrintArms(arms), [close], depth + 1);
      NestClose(close, [], depth);
  }

  lemma {:induction false} NestBlock(head: Head, keyword: Keyword, body: Block, close: Line, depth: nat)
    requires WfHead(head, keyword) && keyword != KwElse && Wf(body) && WfClose(close)
    ensures Nest(PrintHead(head) + Print(body) + [close], depth) == Some(depth)
    decreases body, 2
  {
    assert PrintHead(head) + Print(body) + [close] == PrintHead(head) + (Print(body) + [close]);
    NestHead(head, keyword, Print(body) + [close], depth);
    NestBody(body, [close], depth + 1);
    NestClose(close, [], depth);
  }

  lemma {:induction false} NestChain(c: Chain, depth: nat)
    requires WfChain(c)
    ensures Nest(PrintChain(c), depth + 1) == Some(depth)
    decreases c
  {
    match c
    case NoElse(close) =>
      NestClose(close, [], depth);
    case Otherwise(line, body, close) =>
      assert PrintChain(c) == PrintHead(Head(line, [])) + (Print(body) + [close]);
      NestHead(Head(line, []), KwElse, Print(body) + [close], depth + 1);
      NestBody(body, [close], depth + 1);
      NestClose(close, [], depth);
    case OrIf(head, body, rest) =>
      assert PrintChain(c) == PrintHead(head) + (Print(body) + PrintChain(rest));
      NestHead(head, KwElse, Print(body) + PrintChain(rest), depth + 1);
      NestBody(body, PrintChain(rest), depth + 1);
      NestChain(rest, depth);
  }

  lemma {:induction false} NestArms(arms: Arms, depth: nat)
    requires WfArms(arms)
    ensures Nest(PrintArms(arms), depth) == Some(depth)
    decreases arms
  {
    match arms
    case NoArms =>
    case Arm(line, body, tail, rest) =>
      var more := tail + PrintArms(rest);
      assert PrintArms(arms) == [line] + (Print(body) + more);
      assert ([line] + (Print(body) + more))[1..] == Print(body) + more;
      NestBody(body, more, depth + Net(line));
      NestLift(tail, Net(line), depth);
      NestConcat(tail, PrintArms(rest), depth + Net(line));
      NestArms(rest, depth);
  }

  // -------------------------------------------------------------------------
  // block_extent on printed lines
  // -------------------------------------------------------------------------

  // With `base` blocks open outside them, balanced lines are passed over.
  lemma {:induction false} CloseSkips(body: seq<Line>, at: nat, lines: seq<Line>, depth: nat, base: nat)
    requires At(body, at, lines) && at > 0 && base > 0 && Nest(lines, depth).Some?
    ensures CloseFrom(body, at, base + depth) == CloseFrom(body, at + |lines|, base + Nest(lines, depth).value)
    decreases |lines|
  {
    if lines != [] {
      AtRest(body, at, lines);
      CloseSkips(body, at + 1, lines[1..], depth + Net(lines[0]), base);
    }
  }

  lemma {:induction false} CloseSkipsMore(body: seq<Line>, at: nat, more: seq<Line>, depth: nat)
    requires At(body, at, more) && at > 0 && OpensOne(more, depth)
    ensures CloseFrom(body, at, depth) == CloseFrom(body, at + |more|, 1)
    decreases |more|
  {
    if more != [] {
      AtRest(body, at, more);
      CloseSkipsMore(body, at + 1, more[1..], depth + Net(more[0]));
    }
  }

  // A header is measured whole: the search for its close goes on below it with one block open.
  lemma ExtentBelowHead(body: seq<Line>, at: nat, head: Head, keyword: Keyword)
    requires WfHead(head, keyword) && At(body, at, PrintHead(head))
    ensures ExtentOf(body, at) == CloseFrom(body, at + |PrintHead(head)|, 1)
  {
    AtRest(body, at, PrintHead(head));
    assert PrintHead(head)[1..] == head.more;
    CloseSkipsMore(body, at + 1, head.more, HeaderDepth(head.line));
  }

  // The block a header opens ends at the line after its balanced contents, through `} else {` lines that net to
  // zero, struct patterns in the header, and headers written over several lines.
  lemma ExtentIsMatchingLine(
    body: seq<Line>, at: nat, head: Head, keyword: Keyword, inside: seq<Line>)
    requires WfHead(head, keyword) && Nest(inside, 0) == Some(0)
    requires At(body, at, PrintHead(head)) && At(body, at + |PrintHead(head)|, inside)
    requires var close := at + |PrintHead(head)| + |inside|; close < |body| && body[close].leads
    ensures ExtentOf(body, at) == at + |PrintHead(head)| + |inside|
  {
    ExtentBelowHead(body, at, head, keyword);
    CloseSkips(body, at + |PrintHead(head)|, inside, 0, 1);
  }

  // -------------------------------------------------------------------------
  // split_arms on printed lines
  // -------------------------------------------------------------------------

  function ArmLines(line: Line, body: Block, tail: seq<Line>): seq<Line> {
    [line] + Print(body) + tail
  }

  function ArmList(arms: Arms): seq<seq<Line>> {
    match arms
    case NoArms => []
    case Arm(line, body, tail, rest) => [ArmLines(line, body, tail)] + ArmList(rest)
  }

  // Lines with no `=>` at depth zero are appended to the arm being read.
  lemma {:induction false} SplitReads(
    lines: seq<Line>, rest: seq<Line>, depth: nat, arms: seq<seq<Line>>, current: seq<Line>)
    requires Nest(lines, depth).Some? && NoArrowAtZero(lines, depth)
    ensures SplitFrom(lines + rest, depth, arms, Some(current))
         == SplitFrom(rest, Nest(lines, depth).value, arms, Some(current + lines))
    decreases |lines|
  {
    if lines == [] {
      assert lines + rest == rest && current + lines == current;
    } else {
      assert (lines + rest)[1..] == lines[1..] + rest;
      SplitReads(lines[1..], rest, depth + Net(lines[0]), arms, current + [lines[0]]);
      assert current + [lines[0]] + lines[1..] == current + lines;
    }
  }

  // Lines before the first arm are dropped.
  lemma {:induction false} SplitDrops(more: seq<Line>, rest: seq<Line>, depth: nat)
    requires Nest(more, depth).Some? && NoArrow(more)
    ensures SplitFrom(more + rest, depth, [], None) == SplitFrom(rest, Nest(more, depth).value, [], None)
    decreases |more|
  {
    if more == [] {
      assert more + rest == rest;
    } else {
      assert (more + rest)[1..] == more[1..] + rest;
      SplitDrops(more[1..], rest, depth + Net(more[0]));
    }
  }

  lemma {:induction false} NoArrowWithin(lines: seq<Line>, depth: nat, base: nat)
    requires Nest(lines, depth).Some? && base > 0
    ensures NoArrowAtZero(lines, base + depth)
    decreases |lines|
  {
    if lines != [] {
      NoArrowWithin(lines[1..], depth + Net(lines[0]), base);
    }
  }

  lemma {:induction false} NoArrowFlat(lines: seq<Line>, depth: nat)
    requires NoArrow(lines)
    ensures NoArrowAtZero(lines, depth)
    decreases |lines|
  {
    if lines != [] {
      NoArrowFlat(lines[1..], Clamp(depth + Net(lines[0])));
    }
  }

  lemma {:induction false} SplitPrinted(arms: Arms, done: seq<seq<Line>>, current: Option<seq<Line>>)
    requires WfArms(arms)
    ensures SplitFrom(PrintArms(arms), 0, done, current) == Flush(done, current) + ArmList(arms)
    decreases arms
  {
    match arms
    case NoArms =>
    case Arm(line, body, tail, rest) =>
      SplitPrintedArm(line, body, tail, PrintArms(rest), done, current);
      SplitPrinted(rest, Flush(done, current), Some(ArmLines(line, body, tail)));
      Assoc(Flush(done, current), [ArmLines(line, body, tail)], ArmList(rest));
  }

  lemma SplitPrintedArm(
    line: Line, body: Block, tail: seq<Line>, more: seq<Line>, done: seq<seq<Line>>, current: Option<seq<Line>>)
    requires WfArms(Arm(line, body, tail, NoArms))
    ensures SplitFrom([line] + Print(body) + tail + more, 0, done, current)
         == SplitFrom(more, 0, Flush(done, current), Some(ArmLines(line, body, tail)))
  {
    NestPrint(body, 0);
    NestLift(Print(body), 0, Net(line));
    if Net(line) > 0 {
      NoArrowWithin(Print(body), 0, Net(line));
    } else {
      NoArrowFlat(tail, 0);
    }
    SplitReads(Print(body), tail + more, Net(line), Flush(done, current), [line]);
    SplitReads(tail, more, Net(line), Flush(done, current), [line] + Print(body));
    var printed := [line] + Print(body) + tail + more;
    Assoc([line] + Print(body), tail, more);
    Assoc([line], Print(body), tail + more);
    assert printed[0] == line && printed[1..] == Print(body) + (tail + more);
  }

  // The arms read are exactly the arms written, in order.
  lemma ArmsAreTheArmsWritten(lead: seq<Line>, arms: Arms)
    requires WfArms(arms) && NoArrow(lead) && Nest(lead, 0) == Some(0)
    ensures ArmsOf(lead + PrintArms(arms)) == ArmList(arms)
  {
    SplitDrops(lead, PrintArms(arms), 0);
    SplitPrinted(arms, [], None);
  }

  // Lines read below the outermost depth yield no arm.
  lemma {:induction false} SplitBelow(lines: seq<Line>, depth: nat, base: nat)
    requires Nest(lines, depth).Some? && base > 0
    ensures SplitFrom(lines, base + depth, [], None) == []
    decreases |lines|
  {
    if lines != [] {
      SplitBelow(lines[1..], depth + Net(lines[0]), base);
    }
  }

  lemma {:induction false} SplitRises(more: seq<Line>, rest: seq<Line>, depth: int, clamped: nat)
    requires OpensOne(more, depth) && NoArrow(more) && depth <= clamped
    requires Nest(rest, 0).Some?
    ensures SplitFrom(more + rest, clamped, [], None) == []
    decreases |more|
  {
    if more == [] {
      assert more + rest == rest;
      SplitBelow(rest, 0, clamped);
    } else {
      assert (more + rest)[1..] == more[1..] + rest;
      SplitRises(more[1..], rest, depth + Net(more[0]), Clamp(clamped + Net(more[0])));
    }
  }
}
