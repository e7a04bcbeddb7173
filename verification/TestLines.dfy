// The line-based analysis of scripts/validate/validate_test_assertions.py. A line is the record of what the
// script's regular expressions read off it, after string literals are blanked.
module TestLines {
  import opened Wrappers

  datatype Keyword = KwIf | KwElse | KwFor | KwWhile | KwMatch

  // What a `for` header shows of its subject: a list written out in place, a bare name, or neither.
  datatype Subject = NoSubject | InlineList(empty: bool) | Named(name: string)

  // What a `let` or `const` line shows of its value. `OpenForm` ends in `[`, its entries on later lines.
  datatype Form = ListForm | EmptyForm | OpenForm | OtherForm

  datatype Binding = NoBinding | Binds(name: string, form: Form)

  datatype Line = Line(
    opens: nat,
    closes: nat,
    leads: bool,               // the stripped text begins with `}`
    blank: bool,
    skipped: bool,             // blank, or begins with `//`
    opener: Option<Keyword>,
    asserts: bool,
    hasElse: bool,
    elseIf: bool,
    arrow: bool,
    subject: Subject,
    binding: Binding,
    bracket: bool              // the stripped text begins with `]`
  )

  function Net(line: Line): int {
    line.opens - line.closes
  }

  // Braces a header opens of its own, its leading `}` left out.
  function HeaderDepth(line: Line): int {
    Net(line) + if line.leads then 1 else 0
  }

  function Slice<T>(s: seq<T>, from: nat, to: nat): (r: seq<T>)
    requires to <= |s|
    ensures |r| <= |s|
    ensures from > 0 && |s| > 0 ==> |r| < |s|
  {
    if from <= to then s[from..to] else []
  }

  // -------------------------------------------------------------------------
  // block_extent
  // -------------------------------------------------------------------------

  function CloseFrom(body: seq<Line>, i: nat, depth: int): (end: nat)
    requires 1 <= i <= |body|
    ensures i - 1 <= end < |body|
    decreases |body| - i
  {
    if i == |body| then |body| - 1
    else if depth == 1 && body[i].leads then i
    else CloseFrom(body, i + 1, depth + Net(body[i]))
  }

  function ExtentOf(body: seq<Line>, start: nat): (end: nat)
    requires start < |body|
    ensures start <= end < |body|
  {
    var depth := HeaderDepth(body[start]);
    if depth <= 0 && body[start].opens > 0 then start else CloseFrom(body, start + 1, depth)
  }

  method BlockExtent(body: seq<Line>, start: nat) returns (end: nat)
    requires start < |body|
    ensures end == ExtentOf(body, start)
  {
    var depth := HeaderDepth(body[start]);
    if depth <= 0 && body[start].opens > 0 {
      return start;
    }
    var index := start + 1;
    while index < |body|
      invariant start + 1 <= index <= |body|
      invariant CloseFrom(body, index, depth) == ExtentOf(body, start)
    {
      if depth == 1 && body[index].leads {
        return index;
      }
      depth := depth + Net(body[index]);
      index := index + 1;
    }
    return |body| - 1;
  }

  // -------------------------------------------------------------------------
  // split_arms
  // -------------------------------------------------------------------------

  function Clamp(depth: int): nat {
    if depth < 0 then 0 else depth
  }

  function Flush<T>(arms: seq<T>, current: Option<T>): seq<T> {
    if current.Some? then arms + [current.value] else arms
  }

  // The arms of `block`, read on from the scan's state: brace depth, finished arms, the arm being read.
  function SplitFrom(block: seq<Line>, depth: nat, arms: seq<seq<Line>>, current: Option<seq<Line>>): seq<seq<Line>>
    decreases |block|
  {
    if block == [] then Flush(arms, current)
    else
      var line := block[0];
      var depth' := Clamp(depth + Net(line));
      if depth == 0 && line.arrow then SplitFrom(block[1..], depth', Flush(arms, current), Some([line]))
      else if current.Some? then SplitFrom(block[1..], depth', arms, Some(current.value + [line]))
      else SplitFrom(block[1..], depth', arms, None)
  }

  function ArmsOf(block: seq<Line>): seq<seq<Line>> {
    SplitFrom(block, 0, [], None)
  }

  lemma {:induction false} SplitSizes(
    block: seq<Line>, depth: nat, arms: seq<seq<Line>>, current: Option<seq<Line>>, bound: nat)
    requires forall arm | arm in arms :: |arm| <= bound
    requires (if current.Some? then |current.value| else 0) + |block| <= bound
    ensures forall arm | arm in SplitFrom(block, depth, arms, current) :: |arm| <= bound
    decreases |block|
  {
    if block != [] {
      var line := block[0];
      var depth' := Clamp(depth + Net(line));
      if depth == 0 && line.arrow {
        SplitSizes(block[1..], depth', Flush(arms, current), Some([line]), bound);
      } else if current.Some? {
        SplitSizes(block[1..], depth', arms, Some(current.value + [line]), bound);
      } else {
        SplitSizes(block[1..], depth', arms, None, bound);
      }
    }
  }

  method SplitArms(block: seq<Line>) returns (arms: seq<seq<Line>>)
    ensures arms == ArmsOf(block)
  {
    arms := [];
    var current: Option<seq<Line>> := None;
    var depth: nat := 0;
    var i := 0;
    while i < |block|
      invariant 0 <= i <= |block|
      invariant SplitFrom(block[i..], depth, arms, current) == ArmsOf(block)
    {
      var line := block[i];
      assert block[i..][0] == line && block[i..][1..] == block[i + 1..];
      if depth == 0 && line.arrow {
        if current.Some? {
          arms := arms + [current.value];
        }
        current := Some([]);
      }
      assert [] + [line] == [line];
      if current.Some? {
        current := Some(current.value + [line]);
      }
      depth := Clamp(depth + Net(line));
      i := i + 1;
    }
    if current.Some? {
      arms := arms + [current.value];
    }
  }

  // -------------------------------------------------------------------------
  // loop_runs_a_countable_number_of_times
  // -------------------------------------------------------------------------

  predicate BindsName(line: Line, name: string) {
    line.binding.Binds? && line.binding.name == name
  }

  // The last line of `before` that binds `name`, shadowing and `mut` rebinds included.
  function Deciding(before: seq<Line>, name: string): (at: Option<nat>)
    ensures at.Some? ==> at.value < |before| && BindsName(before[at.value], name)
  {
    if before == [] then None
    else if BindsName(before[|before| - 1], name) then Some(|before| - 1)
    else Deciding(before[..|before| - 1], name)
  }

  // Whether the first line of `lines` that is not blank begins with `]`.
  predicate OpensOnBracket(lines: seq<Line>) {
    lines != [] && if lines[0].blank then OpensOnBracket(lines[1..]) else lines[0].bracket
  }

  predicate ReadsAsTable(before: seq<Line>, at: nat)
    requires at < |before| && before[at].binding.Binds?
  {
    match before[at].binding.form
    case ListForm => true
    case OpenForm => !OpensOnBracket(before[at + 1..])
    case EmptyForm => false
    case OtherForm => false
  }

  predicate ReadsTable(before: seq<Line>, name: string) {
    var at := Deciding(before, name);
    at.Some? && ReadsAsTable(before, at.value)
  }

  predicate Countable(before: seq<Line>, subject: Subject) {
    match subject
    case NoSubject => false
    case InlineList(empty) => !empty
    case Named(name) => ReadsTable(before, name)
  }

  method LoopRunsACountableNumberOfTimes(body: seq<Line>, index: nat) returns (r: bool)
    requires index < |body|
    ensures r == Countable(body[..index], body[index].subject)
  {
    var subject := body[index].subject;
    if subject.InlineList? {
      return !subject.empty;
    }
    if !subject.Named? {
      return false;
    }
    var deciding: Option<nat> := None;
    var offset := 0;
    while offset < index
      invariant 0 <= offset <= index
      invariant deciding == Deciding(body[..offset], subject.name)
    {
      assert body[..offset + 1][..offset] == body[..offset];
      if BindsName(body[offset], subject.name) {
        deciding := Some(offset);
      }
      offset := offset + 1;
    }
    if deciding.None? {
      return false;
    }
    var at := deciding.value;
    var form := body[at].binding.form;
    if form.EmptyForm? || form.OtherForm? {
      return false;
    }
    if form.OpenForm? {
      var next := at + 1;
      while next < index && body[next].blank
        invariant at + 1 <= next <= index
        invariant OpensOnBracket(body[..index][next..]) == OpensOnBracket(body[..index][at + 1..])
      {
        assert body[..index][next..][1..] == body[..index][next + 1..];
        next := next + 1;
      }
      return !(next < index && body[next].bracket);
    }
    return true;
  }

  // -------------------------------------------------------------------------
  // asserts_on_every_path
  // -------------------------------------------------------------------------

  // The walk's answer. `Diverges` is the one way the script's loop stops making progress: an `else if` line
  // whose block ends where it starts leaves the chain's cursor where it was.
  datatype Verdict = Answer(yes: bool) | Diverges

  datatype ChainRead = Chained(branches: seq<seq<Line>>, closed: bool, cursor: nat) | Stalls

  function ChainFrom(body: seq<Line>, cursor: nat, branches: seq<seq<Line>>): (r: ChainRead)
    requires cursor < |body|
    requires forall b | b in branches :: |b| < |body|
    ensures r.Chained? ==> cursor <= r.cursor < |body| && forall b | b in r.branches :: |b| < |body|
    decreases |body| - cursor
  {
    var tail := body[cursor];
    if !tail.leads || !tail.hasElse then Chained(branches, false, cursor)
    else
      var next := ExtentOf(body, cursor);
      var branches' := branches + [Slice(body, cursor + 1, next)];
      if !tail.elseIf then Chained(branches', true, next)
      else if next == cursor then Stalls
      else ChainFrom(body, next, branches')
  }

  // `all(asserts_on_every_path(part) for part in parts)`, which stops at the first part that does not.
  function WalkAll(parts: seq<seq<Line>>, bound: nat): Verdict
    requires forall part | part in parts :: |part| < bound
    decreases bound, 0, |parts|
  {
    if parts == [] then Answer(true)
    else
      var first := WalkFrom(parts[0], 0);
      if first != Answer(true) then first else WalkAll(parts[1..], bound)
  }

  // Where a construct that covers its own paths settles the walk, and where the walk resumes if it does not.
  datatype Settled = Settled(verdict: Verdict, resume: nat)

  function Settle(body: seq<Line>, index: nat): (r: Settled)
    requires index < |body| && body[index].opener.Some?
    ensures index < r.resume <= |body|
    decreases |body|, 1
  {
    var end := ExtentOf(body, index);
    var inner := Slice(body, index + 1, end);
    match body[index].opener.value
    case KwMatch =>
      SplitSizes(inner, 0, [], None, |inner|);
      var arms := ArmsOf(inner);
      Settled(if arms == [] then Answer(false) else WalkAll(arms, |body|), end + 1)
    case KwFor =>
      Settled(if Countable(body[..index], body[index].subject) then WalkFrom(inner, 0) else Answer(false), end + 1)
    case KwWhile =>
      Settled(Answer(false), end + 1)
    case _ =>
      var chain := ChainFrom(body, end, [inner]);
      if chain.Stalls? then Settled(Diverges, end + 1)
      else
        Settled(if chain.closed then WalkAll(chain.branches, |body|) else Answer(false),
                if chain.cursor > index then chain.cursor else end + 1)
  }

  function WalkFrom(body: seq<Line>, index: nat): Verdict
    requires index <= |body|
    decreases |body|, 2, |body| - index
  {
    if index == |body| then Answer(false)
    else if body[index].skipped then WalkFrom(body, index + 1)
    else if body[index].opener.None? then
      if body[index].asserts then Answer(true) else WalkFrom(body, index + 1)
    else
      var settled := Settle(body, index);
      if settled.verdict != Answer(false) then settled.verdict else WalkFrom(body, settled.resume)
  }

  ghost function Onward(body: seq<Line>, settled: Settled): Verdict
    requires settled.resume <= |body|
  {
    if settled.verdict != Answer(false) then settled.verdict else WalkFrom(body, settled.resume)
  }

  function Walk(body: seq<Line>): Verdict {
    WalkFrom(body, 0)
  }

  method AllAssert(parts: seq<seq<Line>>, ghost bound: nat) returns (r: bool)
    requires forall part | part in parts :: |part| < bound
    requires WalkAll(parts, bound).Answer?
    ensures WalkAll(parts, bound) == Answer(r)
    decreases bound, 0
  {
    var i := 0;
    while i < |parts|
      invariant 0 <= i <= |parts|
      invariant WalkAll(parts[i..], bound) == WalkAll(parts, bound)
    {
      assert parts[i..][0] == parts[i] && parts[i..][1..] == parts[i + 1..];
      var asserts := AssertsOnEveryPath(parts[i]);
      if !asserts {
        return false;
      }
      i := i + 1;
    }
    return true;
  }

  // The chain of branches behind the one that ends on line `end`.
  method FollowChain(body: seq<Line>, end: nat, inner: seq<Line>)
    returns (branches: seq<seq<Line>>, closed: bool, cursor: nat)
    requires end < |body| && |inner| < |body| && ChainFrom(body, end, [inner]).Chained?
    ensures Chained(branches, closed, cursor) == ChainFrom(body, end, [inner])
  {
    branches, closed, cursor := [inner], false, end;
    while cursor < |body|
      invariant end <= cursor < |body|
      invariant forall b | b in branches :: |b| < |body|
      invariant !closed
      invariant ChainFrom(body, cursor, branches) == ChainFrom(body, end, [inner])
      decreases |body| - cursor
    {
      var tail := body[cursor];
      if !tail.leads || !tail.hasElse {
        break;
      }
      var next := BlockExtent(body, cursor);
      branches := branches + [Slice(body, cursor + 1, next)];
      closed := !tail.elseIf;
      cursor := next;
      if closed {
        break;
      }
    }
  }

  method AssertsOnEveryPath(body: seq<Line>) returns (r: bool)
    requires Walk(body).Answer?
    ensures Walk(body) == Answer(r)
    decreases |body|, 1
  {
    var index := 0;
    while index < |body|
      invariant 0 <= index <= |body|
      invariant WalkFrom(body, index) == Walk(body)
      decreases |body| - index
    {
      var line := body[index];
      if line.skipped {
        index := index + 1;
        continue;
      }
      if line.opener.None? {
        if line.asserts {
          return true;
        }
        index := index + 1;
        continue;
      }

      ghost var settled := Settle(body, index);
      assert WalkFrom(body, index) == Onward(body, settled);
      var keyword := line.opener.value;
      var end := BlockExtent(body, index);
      var inner := Slice(body, index + 1, end);

      if keyword == KwMatch {
        var arms := SplitArms(inner);
        SplitSizes(inner, 0, [], None, |inner|);
        if arms != [] {
          var all := AllAssert(arms, |body|);
          if all {
            return true;
          }
        }
      }

      if keyword == KwFor {
        var countable := LoopRunsACountableNumberOfTimes(body, index);
        if countable {
          var asserts := AssertsOnEveryPath(inner);
          if asserts {
            return true;
          }
        }
      }

      if keyword == KwIf || keyword == KwElse {
        var branches, closed, cursor := FollowChain(body, end, inner);
        if closed {
          var all := AllAssert(branches, |body|);
          if all {
            return true;
          }
        }
        index := if cursor > index then cursor else end + 1;
        assert settled == Settled(Answer(false), index);
        continue;
      }

      index := end + 1;
      assert settled == Settled(Answer(false), index);
    }
    return false;
  }
}
