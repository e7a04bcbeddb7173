// The walk terminates on every body whose blocks nest, its control lines each opening one block, on the line or on
// further lines of their header, or opening and closing it on the line, an `else if` of a chain excepted; whether or
// not the body is the layout of a program. And a chain stalls exactly at the `else if` lines that are their own extent.
module TestTermination {
  import opened Wrappers
  import opened TestLines
  import opened TestPrograms
  import opened TestLayout

  // -------------------------------------------------------------------------
  // When a chain stalls
  // -------------------------------------------------------------------------

  // A block opened and closed on its header's line.
  predicate ClosesItself(line: Line) {
    HeaderDepth(line) <= 0 && line.opens > 0
  }

  predicate ChainElseIf(line: Line) {
    line.leads && line.hasElse && line.elseIf
  }

  lemma {:induction false} CloseIsBelow(body: seq<Line>, i: nat, depth: int)
    requires 1 <= i < |body|
    ensures CloseFrom(body, i, depth) >= i
    decreases |body| - i
  {
    if !(depth == 1 && body[i].leads) && i + 1 < |body| {
      CloseIsBelow(body, i + 1, depth + Net(body[i]));
    }
  }

  // A line is its own extent when its block closes on it, or no line is left to close it.
  lemma OwnExtent(body: seq<Line>, at: nat)
    requires at < |body|
    ensures ExtentOf(body, at) == at <==> ClosesItself(body[at]) || at == |body| - 1
  {
    if !ClosesItself(body[at]) && at + 1 < |body| {
      CloseIsBelow(body, at + 1, HeaderDepth(body[at]));
    }
  }

  // Line `at` is reached by following the chain from `cursor`, extent by extent.
  predicate OnChain(body: seq<Line>, cursor: nat, at: nat)
    requires cursor < |body|
    decreases |body| - cursor
  {
    cursor == at
    || (ChainElseIf(body[cursor]) && ExtentOf(body, cursor) != cursor && OnChain(body, ExtentOf(body, cursor), at))
  }

  ghost predicate StallsAt(body: seq<Line>, cursor: nat, at: nat)
    requires cursor < |body|
  {
    at < |body| && OnChain(body, cursor, at) && ChainElseIf(body[at]) && (ClosesItself(body[at]) || at == |body| - 1)
  }

  // A chain stalls, and the walk with it, if and only if it reaches an `else if` line that closes its own block or is
  // the last line there is.
  lemma {:induction false} ChainStallsExactly(body: seq<Line>, cursor: nat, branches: seq<seq<Line>>)
    requires cursor < |body| && forall b | b in branches :: |b| < |body|
    ensures ChainFrom(body, cursor, branches).Stalls? <==> exists at :: StallsAt(body, cursor, at)
    decreases |body| - cursor
  {
    OwnExtent(body, cursor);
    var next := ExtentOf(body, cursor);
    if !ChainElseIf(body[cursor]) {
    } else if next == cursor {
      assert StallsAt(body, cursor, cursor);
    } else {
      var more := branches + [Slice(body, cursor + 1, next)];
      ChainStallsExactly(body, next, more);
      if at :| StallsAt(body, next, at) {
        assert StallsAt(body, cursor, at);
      }
      if at :| StallsAt(body, cursor, at) {
        assert StallsAt(body, next, at);
      }
    }
  }

  // Where the walk meets such a chain it never goes on.
  lemma StalledWalk(body: seq<Line>, index: nat, at: nat)
    requires index < |body| && !body[index].skipped
    requires body[index].opener == Some(KwIf) || body[index].opener == Some(KwElse)
    requires StallsAt(body, ExtentOf(body, index), at)
    ensures WalkFrom(body, index) == Diverges
  {
    var end := ExtentOf(body, index);
    ChainStallsExactly(body, end, [Slice(body, index + 1, end)]);
    assert Settle(body, index).verdict == Diverges;
  }

  // -------------------------------------------------------------------------
  // Bodies on which none does
  // -------------------------------------------------------------------------

  predicate Control(line: Line) {
    line.opener.Some? || (line.leads && line.hasElse)
  }

  // How many further lines a header takes to open its block, `depth` braces in: plain lines without `=>`, none of
  // them closing the block being opened.
  function More(lines: seq<Line>, depth: int): (r: Option<nat>)
    ensures r.Some? ==> r.value <= |lines|
  {
    if depth == 1 then Some(0)
    else if depth < 0 || lines == [] || Control(lines[0]) || lines[0].arrow || (lines[0].leads && depth < 2) then None
    else
      var more := More(lines[1..], depth + Net(lines[0]));
      if more.Some? then Some(1 + more.value) else None
  }

  // How many further lines belong to the first: those of a header that opens its block below.
  function Further(lines: seq<Line>): (r: Option<nat>)
    requires lines != []
    ensures r.Some? ==> r.value < |lines|
  {
    if Control(lines[0]) && !ClosesItself(lines[0]) then More(lines[1..], HeaderDepth(lines[0])) else Some(0)
  }

  // The blocks open at a line, outermost first: whether a control line opened each.
  type Open = seq<bool>

  function Plain(n: nat): (r: Open)
    ensures |r| == n
  {
    if n == 0 then [] else Plain(n - 1) + [false]
  }

  // What is left when the `n` innermost blocks are closed, none of them a control line's.
  function Closing(open: Open, n: nat): (r: Option<Open>)
    ensures r.Some? ==> |r.value| + n == |open|
    decreases n
  {
    if n == 0 then Some(open)
    else if open == [] || open[|open| - 1] then None
    else Closing(open[..|open| - 1], n - 1)
  }

  // The blocks around a line once its leading `}` has closed the innermost.
  function Under(line: Line, open: Open): Open
    requires line.leads ==> open != []
  {
    if line.leads then open[..|open| - 1] else open
  }

  // The blocks open behind a line and its further lines. A control line opens one, or opens and closes it on the line;
  // beyond what its leading `}` closes, a line closes blocks of plain lines only.
  function Behind(line: Line, open: Open): Option<Open> {
    if line.leads && open == [] then None
    else if Control(line) && !ClosesItself(line) then Some(Under(line, open) + [true])
    else if ChainElseIf(line) && ClosesItself(line) then None
    else if HeaderDepth(line) >= 0 then Some(Under(line, open) + Plain(HeaderDepth(line)))
    else Closing(Under(line, open), -HeaderDepth(line))
  }

  // The blocks open behind `lines`, entered with `open`.
  function Blocks(lines: seq<Line>, open: Open): Option<Open> {
    if lines == [] then Some(open)
    else
      var more, next := Further(lines), Behind(lines[0], open);
      if more.None? || next.None? then None else Blocks(lines[1 + more.value..], next.value)
  }

  predicate Level(body: seq<Line>) {
    Blocks(body, []) == Some([])
  }

  // A line with its further lines.
  predicate Unit(lines: seq<Line>) {
    lines != [] && Further(lines) == Some(|lines| - 1)
  }

  // The further lines of a header are the same whatever follows them.
  lemma {:induction false} MoreCut(lines: seq<Line>, rest: seq<Line>, depth: int)
    requires More(lines, depth).Some?
    ensures var m := More(lines, depth).value;
            && More(lines[..m], depth) == Some(m) && More(lines + rest, depth) == Some(m)
            && OpensOne(lines[..m], depth) && NoArrow(lines[..m]) && FlatAll(lines[..m])
    decreases |lines|
  {
    var m := More(lines, depth).value;
    if depth != 1 {
      MoreCut(lines[1..], rest, depth + Net(lines[0]));
      assert (lines + rest)[1..] == lines[1..] + rest;
      assert lines[..m][1..] == lines[1..][..m - 1];
      assert forall line | line in lines[..m] :: line == lines[0] || line in lines[1..][..m - 1];
    }
  }

  lemma UnitCut(lines: seq<Line>)
    requires lines != [] && Further(lines).Some?
    ensures var m := Further(lines).value;
            Unit(lines[..1 + m]) && NoArrow(lines[1..1 + m]) && FlatAll(lines[1..1 + m])
  {
    var m := Further(lines).value;
    if m > 0 {
      MoreCut(lines[1..], [], HeaderDepth(lines[0]));
      assert lines[..1 + m][1..] == lines[1..][..m] == lines[1..1 + m];
    } else if Control(lines[0]) && !ClosesItself(lines[0]) {
      assert lines[..1][1..] == [];
    }
  }

  lemma FurtherCut(lines: seq<Line>, rest: seq<Line>)
    requires lines != [] && Further(lines).Some?
    ensures Further(lines + rest) == Further(lines)
  {
    assert (lines + rest)[1..] == lines[1..] + rest;
    if Control(lines[0]) && !ClosesItself(lines[0]) {
      MoreCut(lines[1..], rest, HeaderDepth(lines[0]));
    }
  }

  lemma {:induction false} BlocksConcat(lines: seq<Line>, rest: seq<Line>, open: Open)
    requires Blocks(lines, open).Some?
    ensures Blocks(lines + rest, open) == Blocks(rest, Blocks(lines, open).value)
    decreases |lines|
  {
    if lines == [] {
      assert lines + rest == rest;
    } else {
      var m := Further(lines).value;
      FurtherCut(lines, rest);
      assert (lines + rest)[1 + m..] == lines[1 + m..] + rest;
      BlocksConcat(lines[1 + m..], rest, Behind(lines[0], open).value);
    }
  }

  lemma UnitBlocks(unit: seq<Line>, open: Open)
    requires Unit(unit)
    ensures Blocks(unit, open) == Behind(unit[0], open)
  {
    assert unit[|unit|..] == [];
  }

  lemma UnitNest(unit: seq<Line>, open: Open)
    requires Unit(unit) && Behind(unit[0], open).Some?
    ensures Nest(unit, |open|) == Some(|Behind(unit[0], open).value|)
  {
    var line := unit[0];
    if Control(line) && !ClosesItself(line) {
      MoreCut(unit[1..], [], HeaderDepth(line));
      assert unit[1..][..|unit| - 1] == unit[1..];
      NestMore(unit[1..], HeaderDepth(line), |Under(line, open)|);
    }
  }

  // Nesting of blocks is balance of braces.
  lemma {:induction false} BlocksNest(lines: seq<Line>, open: Open)
    requires Blocks(lines, open).Some?
    ensures Nest(lines, |open|) == Some(|Blocks(lines, open).value|)
    decreases |lines|
  {
    if lines != [] {
      var m, next := Further(lines).value, Behind(lines[0], open).value;
      UnitCut(lines);
      UnitNest(lines[..1 + m], open);
      BlocksNest(lines[1 + m..], next);
      NestConcat(lines[..1 + m], lines[1 + m..], |open|);
      assert lines == lines[..1 + m] + lines[1 + m..];
    }
  }

  lemma {:induction false} ClosingAbove(bottom: Open, open: Open, n: nat)
    requires bottom != [] && bottom[|bottom| - 1] && Closing(bottom + open, n).Some?
    ensures Closing(open, n).Some? && Closing(bottom + open, n).value == bottom + Closing(open, n).value
    decreases n
  {
    assert open == [] ==> bottom + open == bottom;
    if n > 0 && open != [] {
      assert (bottom + open)[..|bottom + open| - 1] == bottom + open[..|open| - 1];
      ClosingAbove(bottom, open[..|open| - 1], n - 1);
    }
  }

  // Inside a control line's block, a line that does not close it leaves what is outside alone.
  lemma BehindAbove(line: Line, bottom: Open, open: Open)
    requires bottom != [] && bottom[|bottom| - 1] && Behind(line, bottom + open).Some? && !(line.leads && open == [])
    ensures Behind(line, open).Some? && Behind(line, bottom + open).value == bottom + Behind(line, open).value
  {
    assert Under(line, bottom + open) == bottom + Under(line, open);
    var under := Under(line, open);
    if Control(line) && !ClosesItself(line) {
      assert bottom + under + [true] == bottom + (under + [true]);
    } else if HeaderDepth(line) >= 0 {
      assert bottom + under + Plain(HeaderDepth(line)) == bottom + (under + Plain(HeaderDepth(line)));
    } else {
      ClosingAbove(bottom, under, -HeaderDepth(line));
    }
  }

  // -------------------------------------------------------------------------
  // Extents
  // -------------------------------------------------------------------------

  lemma {:induction false} MorePassed(body: seq<Line>, i: nat, depth: int, outer: nat)
    requires 1 <= i <= |body| && More(body[i..], depth).Some?
    ensures CloseFrom(body, i, outer + depth) == CloseFrom(body, i + More(body[i..], depth).value, outer + 1)
    decreases |body| - i
  {
    if depth != 1 {
      assert body[i..][0] == body[i] && body[i..][1..] == body[i + 1..];
      MorePassed(body, i + 1, depth + Net(body[i]), outer);
    }
  }

  lemma ClosePasses(body: seq<Line>, i: nat, inner: Open)
    requires 1 <= i < |body| && Further(body[i..]).Some? && Behind(body[i], inner).Some?
    ensures var m := Further(body[i..]).value;
            CloseFrom(body, i, 1 + |inner|) == CloseFrom(body, i + 1 + m, 1 + |Behind(body[i], inner).value|)
  {
    var line := body[i];
    assert body[i..][0] == line && body[i..][1..] == body[i + 1..];
    if Control(line) && !ClosesItself(line) {
      MorePassed(body, i + 1, HeaderDepth(line), 1 + |Under(line, inner)|);
    }
  }

  // From line `at` on, entered with `open`, the blocks of the body nest and close.
  predicate Sound(body: seq<Line>, at: nat, open: Open) {
    at <= |body| && Blocks(body[at..], open) == Some([])
  }

  lemma SoundPassed(body: seq<Line>, i: nat, open: Open) returns (next: nat, to: Open)
    requires Sound(body, i, open) && i < |body|
    ensures Further(body[i..]) == Some(next - i - 1) && i < next <= |body| && Unit(body[i..next])
    ensures Behind(body[i], open) == Some(to) && Sound(body, next, to)
    ensures NoArrow(body[i + 1..next]) && FlatAll(body[i + 1..next])
  {
    var lines := body[i..];
    var m := Further(lines).value;
    next := i + 1 + m;
    to := Behind(body[i], open).value;
    UnitCut(lines);
    assert lines[..1 + m] == body[i..next] && lines[1 + m..] == body[next..] && lines[1..1 + m] == body[i + 1..next];
  }

  // Lines `from` to `i` leave `inner` open, inside a block entered before them.
  predicate Inside(body: seq<Line>, from: nat, i: nat, inner: Open) {
    from <= i <= |body| && Blocks(body[from..i], []) == Some(inner)
  }

  lemma InsideOn(body: seq<Line>, from: nat, i: nat, next: nat, inner: Open)
    requires Inside(body, from, i, inner) && i < next <= |body| && Unit(body[i..next]) && Behind(body[i], inner).Some?
    ensures Inside(body, from, next, Behind(body[i], inner).value)
  {
    var before, unit := body[from..i], body[i..next];
    assert body[from..next] == before + unit && unit[0] == body[i];
    UnitBlocks(unit, inner);
    BlocksConcat(before, unit, []);
  }

  lemma StillOpen(body: seq<Line>, i: nat, open: Open)
    requires Sound(body, i, open) && open != []
    ensures i < |body|
  {
  }

  // A line inside the block, with its further lines, is passed over.
  lemma CloseStep(body: seq<Line>, i: nat, from: nat, inner: Open, bottom: Open) returns (next: nat, deeper: Open)
    requires from >= 1 && Inside(body, from, i, inner) && Sound(body, i, bottom + inner)
    requires bottom != [] && bottom[|bottom| - 1] && i < |body| && !(inner == [] && body[i].leads)
    ensures i < next && Inside(body, from, next, deeper) && Sound(body, next, bottom + deeper)
    ensures CloseFrom(body, i, 1 + |inner|) == CloseFrom(body, next, 1 + |deeper|)
  {
    var to;
    next, to := SoundPassed(body, i, bottom + inner);
    BehindAbove(body[i], bottom, inner);
    deeper := Behind(body[i], inner).value;
    ClosePasses(body, i, inner);
    InsideOn(body, from, i, next, inner);
  }

  // From inside a control line's block, the search stops at the line that closes it, with nesting lines before and the
  // enclosing blocks closed after.
  lemma {:induction false} CloseFound(body: seq<Line>, i: nat, from: nat, inner: Open, bottom: Open)
    requires from >= 1 && Inside(body, from, i, inner) && Sound(body, i, bottom + inner)
    requires bottom != [] && bottom[|bottom| - 1]
    ensures var e := CloseFrom(body, i, 1 + |inner|);
            i <= e && body[e].leads && Inside(body, from, e, []) && Sound(body, e, bottom)
    decreases |body| - i
  {
    StillOpen(body, i, bottom + inner);
    if inner == [] && body[i].leads {
      assert bottom + inner == bottom;
    } else {
      var next, deeper := CloseStep(body, i, from, inner, bottom);
      CloseFound(body, next, from, deeper, bottom);
    }
  }

  // Lines to be walked: further lines of a header, then a body whose blocks nest.
  ghost predicate LevelFrom(lines: seq<Line>, m: nat) {
    m <= |lines| && FlatAll(lines[..m]) && NoArrow(lines[..m]) && Level(lines[m..])
  }

  ghost predicate Part(lines: seq<Line>) {
    exists m :: LevelFrom(lines, m)
  }

  ghost predicate AllParts(parts: seq<seq<Line>>) {
    forall part | part in parts :: Part(part)
  }

  // The extent of a control line, entered with `base` open around the block it opens.
  lemma ExtentFound(body: seq<Line>, at: nat, open: Open, base: Open)
    requires at < |body| && Control(body[at]) && !ClosesItself(body[at]) && Sound(body, at, open)
    requires (body[at].leads ==> open != []) && base == Under(body[at], open)
    ensures var e := ExtentOf(body, at);
            at < e && body[e].leads && Part(Slice(body, at + 1, e)) && Sound(body, e, base + [true])
  {
    var start, to := SoundPassed(body, at, open);
    HeadPassed(body, at, start);
    assert body[start..start] == [] && base + [true] + [] == base + [true];
    CloseFound(body, start, start, [], base + [true]);
    InnerPart(body, at, start, ExtentOf(body, at));
  }

  // The search for a block's close starts below its header.
  lemma HeadPassed(body: seq<Line>, at: nat, start: nat)
    requires at < start <= |body| && Control(body[at]) && !ClosesItself(body[at])
    requires Further(body[at..]) == Some(start - at - 1)
    ensures ExtentOf(body, at) == CloseFrom(body, start, 1)
  {
    assert body[at..][0] == body[at] && body[at..][1..] == body[at + 1..];
    MorePassed(body, at + 1, HeaderDepth(body[at]), 0);
  }

  lemma InnerPart(body: seq<Line>, at: nat, start: nat, e: nat)
    requires at < start <= e < |body| && Further(body[at..]) == Some(start - at - 1) && Inside(body, start, e, [])
    ensures Part(Slice(body, at + 1, e))
  {
    var inner, m := Slice(body, at + 1, e), start - at - 1;
    UnitCut(body[at..]);
    assert inner[..m] == body[at..][1..1 + m] && inner[m..] == body[start..e];
    assert LevelFrom(inner, m);
  }

  lemma EmptyPart()
    ensures Part([])
  {
    assert LevelFrom([], 0);
  }

  lemma {:induction false} ChainFound(body: seq<Line>, cursor: nat, branches: seq<seq<Line>>, base: Open)
    requires cursor < |body| && body[cursor].leads && Sound(body, cursor, base + [true])
    requires AllParts(branches) && forall b | b in branches :: |b| < |body|
    ensures var c := ChainFrom(body, cursor, branches);
            c.Chained? && AllParts(c.branches) && Sound(body, c.cursor, base + [true])
    decreases |body| - cursor
  {
    var tail := body[cursor];
    var next := ExtentOf(body, cursor);
    assert body[cursor..][0] == tail;
    if tail.hasElse && ClosesItself(tail) {
      EmptyPart();
      assert Slice(body, cursor + 1, next) == [];
    } else if tail.hasElse {
      ExtentFound(body, cursor, base + [true], base);
      if tail.elseIf {
        ChainFound(body, next, branches + [Slice(body, cursor + 1, next)], base);
      }
    }
  }

  // -------------------------------------------------------------------------
  // Arms
  // -------------------------------------------------------------------------

  // The arm being read after `unit` has been read on.
  function Reading(unit: seq<Line>, depth: nat, current: Option<seq<Line>>): Option<seq<Line>>
    requires unit != []
  {
    if depth == 0 && unit[0].arrow then Some(unit)
    else if current.Some? then Some(current.value + unit)
    else None
  }

  function Finished(unit: seq<Line>, depth: nat, arms: seq<seq<Line>>, current: Option<seq<Line>>): seq<seq<Line>>
    requires unit != []
  {
    if depth == 0 && unit[0].arrow then Flush(arms, current) else arms
  }

  lemma SplitUnit(
    unit: seq<Line>, rest: seq<Line>, depth: nat, arms: seq<seq<Line>>, current: Option<seq<Line>>)
    requires unit != [] && NoArrow(unit[1..]) && Nest(unit, depth).Some?
    requires current.None? ==> arms == []
    ensures SplitFrom(unit + rest, depth, arms, current)
         == SplitFrom(rest, Nest(unit, depth).value,
                      Finished(unit, depth, arms, current), Reading(unit, depth, current))
  {
    var line, more := unit[0], unit[1..];
    var to := depth + Net(line);
    assert (unit + rest)[1..] == more + rest;
    NoArrowFlat(more, to);
    if depth == 0 && line.arrow {
      SplitReads(more, rest, to, Flush(arms, current), [line]);
      assert [line] + more == unit;
    } else if current.Some? {
      SplitReads(more, rest, to, arms, current.value + [line]);
      assert current.value + [line] + more == current.value + unit;
    } else {
      SplitDrops(more, rest, to);
    }
  }

  lemma LevelPart(lines: seq<Line>)
    requires Level(lines)
    ensures Part(lines)
  {
    assert lines[..0] == [] && lines[0..] == lines;
    assert LevelFrom(lines, 0);
  }

  // The splitter's state within a block: what it has read of an arm leaves `open`.
  ghost predicate Reads(open: Open, arms: seq<seq<Line>>, current: Option<seq<Line>>) {
    AllParts(arms) && if current.None? then arms == [] else Blocks(current.value, []) == Some(open)
  }

  lemma FlushParts(arms: seq<seq<Line>>, current: Option<seq<Line>>)
    requires Reads([], arms, current)
    ensures AllParts(Flush(arms, current))
  {
    if current.Some? {
      LevelPart(current.value);
    }
  }

  lemma ReadingOn(unit: seq<Line>, open: Open, arms: seq<seq<Line>>, current: Option<seq<Line>>)
    requires Unit(unit) && Reads(open, arms, current) && Behind(unit[0], open).Some?
    ensures Reads(Behind(unit[0], open).value, Finished(unit, |open|, arms, current), Reading(unit, |open|, current))
  {
    UnitBlocks(unit, open);
    if open == [] && unit[0].arrow {
      FlushParts(arms, current);
    } else if current.Some? {
      BlocksConcat(current.value, unit, []);
    }
  }

  lemma ArmsStep(block: seq<Line>, open: Open, arms: seq<seq<Line>>, current: Option<seq<Line>>)
    returns (rest: seq<Line>, to: Open, arms': seq<seq<Line>>, current': Option<seq<Line>>)
    requires block != [] && Blocks(block, open) == Some([]) && Reads(open, arms, current)
    ensures |rest| < |block| && Blocks(rest, to) == Some([]) && Reads(to, arms', current')
    ensures SplitFrom(block, |open|, arms, current) == SplitFrom(rest, |to|, arms', current')
  {
    var m := Further(block).value;
    var unit := block[..1 + m];
    rest, to := block[1 + m..], Behind(block[0], open).value;
    arms', current' := Finished(unit, |open|, arms, current), Reading(unit, |open|, current);
    UnitCut(block);
    assert unit[1..] == block[1..1 + m] && block == unit + rest;
    UnitNest(unit, open);
    SplitUnit(unit, rest, |open|, arms, current);
    ReadingOn(unit, open, arms, current);
  }

  lemma {:induction false} ArmsLevel(block: seq<Line>, open: Open, arms: seq<seq<Line>>, current: Option<seq<Line>>)
    requires Blocks(block, open) == Some([]) && Reads(open, arms, current)
    ensures AllParts(SplitFrom(block, |open|, arms, current))
    decreases |block|
  {
    if block == [] {
      FlushParts(arms, current);
    } else {
      var rest, to, arms', current' := ArmsStep(block, open, arms, current);
      ArmsLevel(rest, to, arms', current');
    }
  }

  // Read from a depth above its own, a balanced block shows no arm.
  lemma ArmsNone(block: seq<Line>, clamped: nat)
    requires Nest(block, 0).Some? && clamped > 0
    ensures SplitFrom(block, clamped, [], None) == []
  {
    SplitBelow(block, 0, clamped);
  }

  // The depth the splitter has reached behind lines without `=>`.
  lemma {:induction false} FurtherDrop(more: seq<Line>, rest: seq<Line>, clamped: nat) returns (to: nat)
    requires NoArrow(more)
    ensures SplitFrom(more + rest, clamped, [], None) == SplitFrom(rest, to, [], None)
    decreases |more|
  {
    if more == [] {
      to := clamped;
      assert more + rest == rest;
    } else {
      assert (more + rest)[1..] == more[1..] + rest;
      to := FurtherDrop(more[1..], rest, Clamp(clamped + Net(more[0])));
    }
  }

  lemma ArmsAreParts(inner: seq<Line>)
    requires Part(inner)
    ensures AllParts(ArmsOf(inner))
  {
    var m: nat :| LevelFrom(inner, m);
    assert inner == inner[..m] + inner[m..];
    var to := FurtherDrop(inner[..m], inner[m..], 0);
    if to == 0 {
      ArmsLevel(inner[m..], [], [], None);
    } else {
      BlocksNest(inner[m..], []);
      ArmsNone(inner[m..], to);
    }
  }

  // -------------------------------------------------------------------------
  // The walk
  // -------------------------------------------------------------------------

  lemma WalkTerminates(body: seq<Line>)
    requires Level(body)
    ensures Walk(body).Answer?
  {
    assert body[0..] == body;
    WalkFromTerminates(body, 0, 0, []);
  }

  // The walk stands on further lines of a header, up to line `k`, or on a line of its own.
  lemma {:induction false} WalkFromTerminates(body: seq<Line>, index: nat, k: nat, open: Open)
    requires index <= k && Sound(body, k, open) && FlatAll(body[index..k])
    ensures WalkFrom(body, index).Answer?
    decreases |body|, 2, |body| - index
  {
    if index < k {
      assert body[index] in body[index..k];
      assert forall line | line in body[index + 1..k] :: line in body[index..k];
      WalkFromTerminates(body, index + 1, k, open);
    } else if index < |body| {
      var next, to := SoundPassed(body, index, open);
      if body[index].skipped || body[index].opener.None? {
        WalkFromTerminates(body, index + 1, next, to);
      } else {
        var resume, k', to' := SettleTerminates(body, index, open);
        WalkFromTerminates(body, resume, k', to');
      }
    }
  }

  // A block opened and closed on its own line holds nothing to walk into.
  lemma SettleOnOneLine(body: seq<Line>, index: nat)
    requires index < |body| && body[index].opener.Some? && ClosesItself(body[index]) && !ChainElseIf(body[index])
    ensures Settle(body, index).verdict.Answer? && Settle(body, index).resume == index + 1
  {
    assert ExtentOf(body, index) == index && Slice(body, index + 1, index) == [];
    assert Walk([]) == Answer(false) && WalkAll([[]], |body|) == Answer(false) == WalkAll([[], []], |body|);
    match body[index].opener.value
    case KwMatch =>
    case KwFor =>
    case KwWhile =>
    case _ =>
      assert [[]] + [Slice(body, index + 1, index)] == [[], []];
  }

  // Where the walk goes on behind a construct.
  lemma {:induction false} SettleTerminates(body: seq<Line>, index: nat, open: Open)
    returns (resume: nat, k: nat, to: Open)
    requires index < |body| && body[index].opener.Some? && Sound(body, index, open)
    ensures Settle(body, index).verdict.Answer? && resume == Settle(body, index).resume
    ensures resume <= k && Sound(body, k, to) && FlatAll(body[resume..k])
    decreases |body|, 1
  {
    var line := body[index];
    resume := Settle(body, index).resume;
    assert body[index..][0] == line;
    k, to := SoundPassed(body, index, open);
    if ClosesItself(line) {
      SettleOnOneLine(body, index);
    } else {
      var base := Under(line, open);
      var end := ExtentOf(body, index);
      ExtentFound(body, index, open, base);
      InnerTerminates(body, index, open, base);
      if line.opener.value.KwIf? || line.opener.value.KwElse? {
        k, to := resume, base + [true];
        assert body[resume..k] == [];
      } else {
        k, to := SoundPassed(body, end, base + [true]);
      }
    }
  }

  lemma {:induction false} InnerTerminates(body: seq<Line>, index: nat, open: Open, base: Open)
    requires index < |body| && body[index].opener.Some? && !ClosesItself(body[index])
    requires Sound(body, index, open) && (body[index].leads ==> open != []) && base == Under(body[index], open)
    ensures var settled, end := Settle(body, index), ExtentOf(body, index);
            && settled.verdict.Answer?
            && if body[index].opener.value.KwIf? || body[index].opener.value.KwElse?
               then Sound(body, settled.resume, base + [true]) else settled.resume == end + 1
    decreases |body|, 0
  {
    ExtentFound(body, index, open, base);
    var end := ExtentOf(body, index);
    var inner := Slice(body, index + 1, end);
    match body[index].opener.value
    case KwMatch =>
      SplitSizes(inner, 0, [], None, |inner|);
      ArmsAreParts(inner);
      WalkAllTerminates(ArmsOf(inner), |body|);
    case KwFor =>
      PartTerminates(inner);
    case KwWhile =>
    case _ =>
      ChainFound(body, end, [inner], base);
      WalkAllTerminates(ChainFrom(body, end, [inner]).branches, |body|);
  }

  lemma {:induction false} PartTerminates(part: seq<Line>)
    requires Part(part)
    ensures Walk(part).Answer?
    decreases |part|, 3
  {
    var m: nat :| LevelFrom(part, m);
    assert part[0..m] == part[..m];
    WalkFromTerminates(part, 0, m, []);
  }

  lemma {:induction false} WalkAllTerminates(parts: seq<seq<Line>>, bound: nat)
    requires AllParts(parts) && forall part | part in parts :: |part| < bound
    ensures WalkAll(parts, bound).Answer?
    decreases bound, 0, |parts|
  {
    if parts != [] {
      assert parts[0] in parts;
      PartTerminates(parts[0]);
      WalkAllTerminates(parts[1..], bound);
    }
  }
}
