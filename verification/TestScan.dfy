// What the readings of the line analyser mean, said of the lines alone: where a block ends, where arms begin, which
// binding decides a loop's subject, and where a test's body ends.
module TestScan {
  import opened Wrappers
  import opened TestLines
  import opened TestFiles

  // -------------------------------------------------------------------------
  // Extents
  // -------------------------------------------------------------------------

  // Braces opened less braces closed.
  function NetOf(lines: seq<Line>): int {
    if lines == [] then 0 else lines[0].opens - lines[0].closes + NetOf(lines[1..])
  }

  lemma {:induction false} NetOfAppend(lines: seq<Line>, line: Line)
    ensures NetOf(lines + [line]) == NetOf(lines) + line.opens - line.closes
    decreases |lines|
  {
    if lines == [] {
      assert lines + [line] == [line];
    } else {
      assert (lines + [line])[1..] == lines[1..] + [line];
      NetOfAppend(lines[1..], line);
    }
  }

  // What lines `from` up to `to` leave open.
  function Run(body: seq<Line>, from: nat, to: nat): int
    requires from <= to <= |body|
  {
    NetOf(body[from..to])
  }

  lemma RunGrows(body: seq<Line>, from: nat, to: nat)
    requires from <= to < |body|
    ensures Run(body, from, from) == 0
    ensures Run(body, from, to + 1) == Run(body, from, to) + body[to].opens - body[to].closes
  {
    assert body[from..from] == [];
    assert body[from..to + 1] == body[from..to] + [body[to]];
    NetOfAppend(body[from..to], body[to]);
  }

  // How many braces the lines from a header up to line `k` leave open, the header's leading `}` left out.
  function Left(body: seq<Line>, start: nat, k: nat): int
    requires start < k <= |body|
  {
    Run(body, start, k) + if body[start].leads then 1 else 0
  }

  // Line `k` begins with `}` while one block opened since the header is left open.
  predicate ClosesAt(body: seq<Line>, start: nat, k: nat) {
    start < k < |body| && body[k].leads && Left(body, start, k) == 1
  }

  lemma {:induction false} CloseExactly(body: seq<Line>, start: nat, i: nat)
    requires start < i <= |body| && forall k | start < k < i :: !ClosesAt(body, start, k)
    ensures var e := CloseFrom(body, i, Left(body, start, i));
            if exists k :: ClosesAt(body, start, k)
            then ClosesAt(body, start, e) && forall k | start < k < e :: !ClosesAt(body, start, k)
            else e == |body| - 1
    decreases |body| - i
  {
    if i < |body| && !ClosesAt(body, start, i) {
      RunGrows(body, start, i);
      CloseExactly(body, start, i + 1);
    }
  }

  // A block ends on its header's line when the header opens braces and leaves none open; otherwise on the first line
  // below that begins with `}` while one block is left open, or on the last line when there is none.
  lemma ExtentExactly(body: seq<Line>, start: nat)
    requires start < |body|
    ensures var e := ExtentOf(body, start);
            if Left(body, start, start + 1) <= 0 && body[start].opens > 0 then e == start
            else if exists k :: ClosesAt(body, start, k)
            then ClosesAt(body, start, e) && forall k | start < k < e :: !ClosesAt(body, start, k)
            else e == |body| - 1
  {
    RunGrows(body, start, start);
    CloseExactly(body, start, start + 1);
  }

  // -------------------------------------------------------------------------
  // Arms
  // -------------------------------------------------------------------------

  // Brace depth in front of line `k`, never below zero.
  function DepthAt(block: seq<Line>, k: nat): nat
    requires k <= |block|
  {
    if k == 0 then 0
    else
      var depth := DepthAt(block, k - 1) + block[k - 1].opens - block[k - 1].closes;
      if depth < 0 then 0 else depth
  }

  // The depth is the most any run of lines ending there leaves open.
  lemma {:induction false} DepthIsLargestRun(block: seq<Line>, k: nat) returns (from: nat)
    requires k <= |block|
    ensures forall j: nat | j <= k :: Run(block, j, k) <= DepthAt(block, k)
    ensures from <= k && Run(block, from, k) == DepthAt(block, k)
    decreases k
  {
    assert block[k..k] == [];
    from := k;
    if k > 0 {
      var before := DepthIsLargestRun(block, k - 1);
      forall j: nat | j < k ensures Run(block, j, k) <= DepthAt(block, k) {
        RunGrows(block, j, k - 1);
      }
      RunGrows(block, before, k - 1);
      from := if DepthAt(block, k) == Run(block, before, k) then before else k;
    }
  }

  // A line with `=>` outside every brace.
  predicate Starts(block: seq<Line>, k: nat) {
    k < |block| && block[k].arrow && DepthAt(block, k) == 0
  }

  // The arm begun on line `start`, read up to line `k`, and those after it: each runs to the next line that starts one.
  function Cuts(block: seq<Line>, start: nat, k: nat): seq<seq<Line>>
    requires start < k <= |block|
    decreases |block| - k
  {
    if k == |block| then [block[start..]]
    else if Starts(block, k) then [block[start..k]] + Cuts(block, k, k + 1)
    else Cuts(block, start, k + 1)
  }

  // The arms from line `k` on, when none has begun.
  function Arms(block: seq<Line>, k: nat): seq<seq<Line>>
    requires k <= |block|
    decreases |block| - k
  {
    if k == |block| then [] else if Starts(block, k) then Cuts(block, k, k + 1) else Arms(block, k + 1)
  }

  lemma {:induction false} SplitsOn(block: seq<Line>, start: nat, k: nat, arms: seq<seq<Line>>)
    requires start < k <= |block|
    ensures SplitFrom(block[k..], DepthAt(block, k), arms, Some(block[start..k])) == arms + Cuts(block, start, k)
    decreases |block| - k
  {
    if k == |block| {
      assert block[start..k] == block[start..];
    } else {
      assert block[k..][0] == block[k] && block[k..][1..] == block[k + 1..];
      if Starts(block, k) {
        assert block[k..k + 1] == [block[k]];
        SplitsOn(block, k, k + 1, arms + [block[start..k]]);
        assert arms + [block[start..k]] + Cuts(block, k, k + 1) == arms + ([block[start..k]] + Cuts(block, k, k + 1));
      } else {
        assert block[start..k] + [block[k]] == block[start..k + 1];
        SplitsOn(block, start, k + 1, arms);
      }
    }
  }

  lemma {:induction false} SplitsFrom(block: seq<Line>, k: nat)
    requires k <= |block|
    ensures SplitFrom(block[k..], DepthAt(block, k), [], None) == Arms(block, k)
    decreases |block| - k
  {
    if k < |block| {
      assert block[k..][0] == block[k] && block[k..][1..] == block[k + 1..];
      if Starts(block, k) {
        assert block[k..k + 1] == [block[k]];
        SplitsOn(block, k, k + 1, []);
        assert [] + Cuts(block, k, k + 1) == Cuts(block, k, k + 1);
      } else {
        SplitsFrom(block, k + 1);
      }
    }
  }

  // Every block, whatever its braces do, is cut before each line with `=>` outside every brace, and what stands before
  // the first is dropped.
  lemma ArmsExactly(block: seq<Line>)
    ensures ArmsOf(block) == Arms(block, 0)
  {
    assert block[0..] == block;
    SplitsFrom(block, 0);
  }

  // -------------------------------------------------------------------------
  // Loop subjects
  // -------------------------------------------------------------------------

  // Line `at` binds `name` and no later one does.
  ghost predicate LastBinds(before: seq<Line>, name: string, at: nat) {
    && at < |before| && before[at].binding.Binds? && before[at].binding.name == name
    && forall k | at < k < |before| && before[k].binding.Binds? :: before[k].binding.name != name
  }

  // The first line that is not blank, if there is one, does not begin with `]`.
  predicate EntryFirst(lines: seq<Line>) {
    forall k | 0 <= k < |lines| && !lines[k].blank && (forall j | 0 <= j < k :: lines[j].blank) :: !lines[k].bracket
  }

  // What is bound on the first of `lines` shows a list with an entry: written on the line, or opened there with an
  // entry below.
  predicate ShowsList(lines: seq<Line>) {
    && lines != [] && lines[0].binding.Binds?
    && (lines[0].binding.form.ListForm? || (lines[0].binding.form.OpenForm? && EntryFirst(lines[1..])))
  }

  lemma {:induction false} EntryIsRead(lines: seq<Line>)
    ensures OpensOnBracket(lines) <==> !EntryFirst(lines)
    decreases |lines|
  {
    if lines != [] {
      if lines[0].blank {
        EntryIsRead(lines[1..]);
        if k :| 0 <= k < |lines[1..]| && !lines[1..][k].blank && lines[1..][k].bracket
                && forall j | 0 <= j < k :: lines[1..][j].blank {
          assert lines[k + 1] == lines[1..][k];
          assert forall j | 0 < j < k + 1 :: lines[j] == lines[1..][j - 1];
        }
        if k :| 0 <= k < |lines| && !lines[k].blank && lines[k].bracket && forall j | 0 <= j < k :: lines[j].blank {
          assert lines[1..][k - 1] == lines[k];
          assert forall j | 0 <= j < k - 1 :: lines[1..][j] == lines[j + 1];
        }
      } else if lines[0].bracket {
        assert !EntryFirst(lines);
      }
    }
  }

  lemma ListIsRead(lines: seq<Line>)
    requires lines != [] && lines[0].binding.Binds?
    ensures ReadsAsTable(lines, 0) <==> ShowsList(lines)
  {
    EntryIsRead(lines[1..]);
  }

  lemma {:induction false} LastDecides(before: seq<Line>, name: string, at: nat)
    requires LastBinds(before, name, at)
    ensures Deciding(before, name) == Some(at)
    decreases |before|
  {
    if at < |before| - 1 {
      LastDecides(before[..|before| - 1], name, at);
    }
  }

  // A loop over a name is countable exactly when the last line of its block to bind the name shows a list with an
  // entry: never an empty one, nor anything else.
  lemma NameIsCountable(before: seq<Line>, name: string, at: nat)
    requires LastBinds(before, name, at)
    ensures Countable(before, Named(name)) <==> ShowsList(before[at..])
  {
    LastDecides(before, name, at);
    EntryIsRead(before[at + 1..]);
    assert before[at..][0] == before[at] && before[at..][1..] == before[at + 1..];
  }

  // One over a name the block does not bind is not, and a subject written in place is when it is not empty.
  lemma {:induction false} OtherSubjects(before: seq<Line>, name: string, empty: bool)
    ensures (forall k | 0 <= k < |before| && before[k].binding.Binds? :: before[k].binding.name != name) ==>
              !Countable(before, Named(name))
    ensures Countable(before, InlineList(empty)) <==> !empty
    ensures !Countable(before, NoSubject)
    decreases |before|
  {
    if before != [] {
      OtherSubjects(before[..|before| - 1], name, empty);
    }
  }

  // -------------------------------------------------------------------------
  // Bodies of tests
  // -------------------------------------------------------------------------

  // By the end of line `k` some line has left a brace open, and none is left open now.
  ghost predicate Shut(lines: seq<Line>, start: nat, k: nat) {
    && start <= k < |lines| && Run(lines, start, k + 1) <= 0
    && exists j: nat :: start < j <= k + 1 && Run(lines, start, j) > 0
  }

  // Whether some line before `i` has.
  ghost predicate Entered(lines: seq<Line>, start: nat, i: nat)
    requires i <= |lines|
  {
    exists j: nat :: start < j <= i && Run(lines, start, j) > 0
  }

  lemma EnteredOn(lines: seq<Line>, start: nat, i: nat)
    requires start <= i < |lines|
    ensures Entered(lines, start, i + 1) <==> Entered(lines, start, i) || Run(lines, start, i + 1) > 0
    ensures Shut(lines, start, i) <==> Entered(lines, start, i + 1) && Run(lines, start, i + 1) <= 0
  {
  }

  lemma {:induction false} BodyEndFrom(lines: seq<FileLine>, read: seq<Line>, start: nat, i: nat, entered: bool)
    requires start <= i <= |lines| && |lines| > 0 && read == Reads(lines)
    requires (entered <==> Entered(read, start, i)) && forall k | start <= k < i :: !Shut(read, start, k)
    ensures var end := BodyEnd(lines, i, Run(read, start, i), entered);
            if exists k :: Shut(read, start, k)
            then Shut(read, start, end) && forall k | start <= k < end :: !Shut(read, start, k)
            else end == |lines| - 1
    decreases |lines| - i
  {
    if i < |lines| {
      ReadsEach(lines, i);
      RunGrows(read, start, i);
      EnteredOn(read, start, i);
      if !Shut(read, start, i) {
        BodyEndFrom(lines, read, start, i + 1, entered || Run(read, start, i + 1) > 0);
      }
    }
  }

  // A body ends on the first line by which a brace has been opened and none is left open, or on the last of the file.
  lemma BodyEndExactly(lines: seq<FileLine>, start: nat)
    requires start < |lines|
    ensures var end := BodyEnd(lines, start, 0, false);
            if exists k :: Shut(Reads(lines), start, k)
            then Shut(Reads(lines), start, end) && forall k | start <= k < end :: !Shut(Reads(lines), start, k)
            else end == |lines| - 1
  {
    RunGrows(Reads(lines), start, start);
    BodyEndFrom(lines, Reads(lines), start, start, false);
  }

  // A test is exempt exactly when a marker stands in the unbroken run of attributes and comments above it.
  lemma {:induction false} ExemptExactly(lines: seq<FileLine>, look: nat)
    requires look <= |lines|
    ensures ExemptAbove(lines, look) <==>
            exists k :: 0 <= k < look && lines[k].exempts && forall j | k <= j < look :: lines[j].above
    decreases look
  {
    if look > 0 && lines[look - 1].above && !lines[look - 1].exempts {
      ExemptExactly(lines, look - 1);
    }
  }

  // A test's signature is the first line below its attribute that names a function.
  lemma {:induction false} SignatureExactly(lines: seq<FileLine>, start: nat)
    requires start <= |lines|
    ensures var r := SignatureFrom(lines, start);
            && (forall k | start <= k < r :: lines[k].fnName.None?)
            && (r < |lines| ==> lines[r].fnName.Some?)
    decreases |lines| - start
  {
    if start < |lines| && lines[start].fnName.None? {
      SignatureExactly(lines, start + 1);
    }
  }
}
