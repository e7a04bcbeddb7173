// A structured language for test bodies, how it is laid out in lines, and what running it means.
module TestPrograms {
  import opened Wrappers
  import opened TestLines

  // Where an early exit goes: to the end of a loop's round, or out of the test.
  datatype Exit = LeavesRound | LeavesTest

  // `Deferred` lines do not run where they stand: they define a closure or an item.
  datatype Ends = Falls | MayLeave(exit: Exit) | Leaves(exit: Exit) | Deferred

  predicate Exits(ends: Ends) {
    ends.MayLeave? || ends.Leaves?
  }

  // How many elements a list holds, as far as its own text settles it.
  datatype Size = NonEmpty | IsEmpty | Unknown

  // A header, with any further lines it is written over.
  datatype Head = Head(line: Line, more: seq<Line>)

  datatype Stmt =
    | Simple(lines: seq<Line>, size: Size, ends: Ends)   // `size` is what a name bound here holds
    | Cond(head: Head, body: Block, rest: Chain)
    | ForLoop(head: Head, size: Size, body: Block, close: Line)   // `size` is that of a subject written in place
    | WhileLoop(head: Head, body: Block, close: Line)
    | MatchOn(head: Head, arms: Arms, close: Line)

  datatype Block = Done | Then(first: Stmt, rest: Block)

  datatype Chain =
    | NoElse(close: Line)
    | Otherwise(line: Line, body: Block, close: Line)
    | OrIf(head: Head, body: Block, rest: Chain)

  // An arm is the line carrying its `=>`, the statements of its block, and the lines that finish it.
  datatype Arms = NoArms | Arm(line: Line, body: Block, tail: seq<Line>, rest: Arms)

  // -------------------------------------------------------------------------
  // Layout
  // -------------------------------------------------------------------------

  function PrintHead(head: Head): seq<Line> {
    [head.line] + head.more
  }

  function Print(b: Block): seq<Line> {
    match b
    case Done => []
    case Then(s, rest) => PrintStmt(s) + Print(rest)
  }

  function PrintStmt(s: Stmt): seq<Line> {
    match s
    case Simple(lines, _, _) => lines
    case Cond(head, body, rest) => PrintHead(head) + Print(body) + PrintChain(rest)
    case ForLoop(head, _, body, close) => PrintHead(head) + Print(body) + [close]
    case WhileLoop(head, body, close) => PrintHead(head) + Print(body) + [close]
    case MatchOn(head, arms, close) => PrintHead(head) + PrintArms(arms) + [close]
  }

  function PrintChain(c: Chain): (lines: seq<Line>)
    ensures lines != []
  {
    match c
    case NoElse(close) => [close]
    case Otherwise(line, body, close) => [line] + Print(body) + [close]
    case OrIf(head, body, rest) => PrintHead(head) + Print(body) + PrintChain(rest)
  }

  function PrintArms(arms: Arms): seq<Line> {
    match arms
    case NoArms => []
    case Arm(line, body, tail, rest) => [line] + Print(body) + tail + PrintArms(rest)
  }

  // Brace depth after `lines`, entered at `depth`; None when a line closes more than is open.
  function Nest(lines: seq<Line>, depth: nat): Option<nat> {
    if lines == [] then Some(depth)
    else if (lines[0].leads && depth == 0) || depth + Net(lines[0]) < 0 then None
    else Nest(lines[1..], depth + Net(lines[0]))
  }

  // Further lines of a header: from `depth` braces open they reach one, and none closes the block being opened.
  predicate OpensOne(more: seq<Line>, depth: int) {
    depth >= 0 &&
    if more == [] then depth == 1
    else (more[0].leads ==> depth >= 2) && OpensOne(more[1..], depth + Net(more[0]))
  }

  predicate Flat(line: Line) {
    line.opener.None?
  }

  predicate FlatAll(lines: seq<Line>) {
    forall line | line in lines :: Flat(line)
  }

  predicate BindNothing(lines: seq<Line>) {
    forall line | line in lines :: line.binding.NoBinding?
  }

  predicate NoArrow(lines: seq<Line>) {
    forall line | line in lines :: !line.arrow
  }

  predicate WfHead(head: Head, keyword: Keyword) {
    var depth := HeaderDepth(head.line);
    && head.line.opener == Some(keyword) && !head.line.skipped
    && head.line.leads == (keyword == KwElse)
    && head.line.binding.NoBinding?
    && (depth >= 1 || head.line.opens == 0)
    && OpensOne(head.more, depth)
    && FlatAll(head.more) && BindNothing(head.more)
  }

  // A match's further lines are either the rest of its header or lines before its first arm.
  predicate WfMatchHead(head: Head) {
    && WfHead(head, KwMatch)
    && NoArrow(head.more)
    && HeaderDepth(head.line) <= 1
    && (HeaderDepth(head.line) == 1 ==> Nest(head.more, 0) == Some(0))
  }

  predicate WfClose(close: Line) {
    && close.leads && Net(close) == -1 && Flat(close) && !close.asserts && !close.hasElse && close.binding.NoBinding?
  }

  predicate Says(line: Line) {
    !line.skipped && line.asserts
  }

  predicate SaysAny(lines: seq<Line>) {
    exists line | line in lines :: Says(line)
  }

  predicate WfSimple(lines: seq<Line>, ends: Ends) {
    && lines != []
    && Nest(lines, 0) == Some(0)
    && FlatAll(lines)
    && BindNothing(lines[1..])
    && (lines[0].binding.Binds? && lines[0].binding.form.OpenForm? ==> exists line | line in lines[1..] :: !line.blank)
    && (Exits(ends) ==> !SaysAny(lines))
  }

  predicate Wf(b: Block) {
    match b
    case Done => true
    case Then(s, rest) => WfStmt(s) && Wf(rest)
  }

  predicate WfStmt(s: Stmt) {
    match s
    case Simple(lines, _, ends) => WfSimple(lines, ends)
    case Cond(head, body, rest) => WfHead(head, KwIf) && Wf(body) && WfChain(rest)
    case ForLoop(head, _, body, close) => WfHead(head, KwFor) && Wf(body) && WfClose(close)
    case WhileLoop(head, body, close) => WfHead(head, KwWhile) && Wf(body) && WfClose(close)
    case MatchOn(head, arms, close) => WfMatchHead(head) && WfArms(arms) && WfClose(close)
  }

  predicate WfChain(c: Chain) {
    match c
    case NoElse(close) => WfClose(close)
    case Otherwise(line, body, close) =>
      WfHead(Head(line, []), KwElse) && line.hasElse && !line.elseIf && Wf(body) && WfClose(close)
    case OrIf(head, body, rest) =>
      WfHead(head, KwElse) && head.line.hasElse && head.line.elseIf && Wf(body) && WfChain(rest)
  }

  predicate WfArms(arms: Arms) {
    match arms
    case NoArms => true
    case Arm(line, body, tail, rest) =>
      && line.arrow && Flat(line) && !line.leads && line.binding.NoBinding? && Net(line) >= 0
      && Nest(tail, Net(line)) == Some(0) && FlatAll(tail) && BindNothing(tail)
      && (if Net(line) == 0 then body.Done? && NoArrow(tail) else NoArrowAtZero(tail, Net(line)))
      && Wf(body) && WfArms(rest)
  }

  // No `=>` outside every brace, for lines entered at `depth`.
  predicate NoArrowAtZero(lines: seq<Line>, depth: nat) {
    lines != [] ==>
      && (depth == 0 ==> !lines[0].arrow)
      && NoArrowAtZero(lines[1..], Clamp(depth + Net(lines[0])))
  }

  // -------------------------------------------------------------------------
  // Running
  // -------------------------------------------------------------------------

  // A trail records the choices one execution made.
  datatype Trail = Stop | Go(step: Step, rest: Trail)

  datatype Step =
    | Pass                               // a statement ran and fell through
    | Quit                               // a statement left early
    | Branch(at: nat, inside: Trail)     // which branch, or arm, was taken
    | Loop(rounds: Rounds)

  datatype Rounds = NoMore | Round(inside: Trail, more: Rounds)

  datatype Ending = Fell | Left(exit: Exit)

  datatype Ran = NotARun | Ran(asserted: bool, ending: Ending)

  type Env = map<string, Size>

  function After(asserted: bool, r: Ran): Ran {
    if r.Ran? then Ran(asserted || r.asserted, r.ending) else NotARun
  }

  // Bindings in force after a statement: only a binding of the same block outlives it.
  function Bind(env: Env, s: Stmt): Env {
    if s.Simple? && s.lines != [] && s.lines[0].binding.Binds? then env[s.lines[0].binding.name := s.size] else env
  }

  function SubjectSize(env: Env, subject: Subject, size: Size): Size {
    if subject.Named? then (if subject.name in env then env[subject.name] else Unknown) else size
  }

  function Exec(b: Block, env: Env, t: Trail): Ran
    decreases b, 0, t
  {
    match b
    case Done => if t.Stop? then Ran(false, Fell) else NotARun
    case Then(s, rest) =>
      if t.Stop? then NotARun
      else
        var r := ExecStmt(s, env, t.step);
        if r.NotARun? then NotARun
        else if r.ending.Fell? then After(r.asserted, Exec(rest, Bind(env, s), t.rest))
        else if t.rest.Stop? then r
        else NotARun
  }

  function ExecStmt(s: Stmt, env: Env, step: Step): Ran
    decreases s, 0, step
  {
    match s
    case Simple(lines, _, ends) =>
      if step.Pass? && !ends.Leaves? then Ran(Asserts(lines, ends), Fell)
      else if step.Quit? && Exits(ends) then Ran(Asserts(lines, ends), Left(ends.exit))
      else NotARun
    case Cond(head, body, rest) =>
      if !step.Branch? then NotARun
      else After(SaysAny(PrintHead(head)),
                 if step.at == 0 then Exec(body, env, step.inside) else ExecChain(rest, env, step.at - 1, step.inside))
    case ForLoop(head, size, body, _) =>
      if !step.Loop? then NotARun
      else
        var n := SubjectSize(env, head.line.subject, size);
        if (n.NonEmpty? && step.rounds.NoMore?) || (n.IsEmpty? && step.rounds.Round?) then NotARun
        else After(SaysAny(PrintHead(head)), ExecRounds(body, env, step.rounds))
    case WhileLoop(head, body, _) =>
      if !step.Loop? then NotARun else After(SaysAny(PrintHead(head)), ExecRounds(body, env, step.rounds))
    case MatchOn(head, arms, _) =>
      if !step.Branch? then NotARun
      else After(SaysAny(PrintHead(head)), ExecArms(arms, env, step.at, step.inside))
  }

  function ExecChain(c: Chain, env: Env, at: nat, t: Trail): Ran
    decreases c, 0, t
  {
    match c
    case NoElse(_) => if at == 0 && t.Stop? then Ran(false, Fell) else NotARun
    case Otherwise(_, body, _) => if at == 0 then Exec(body, env, t) else NotARun
    case OrIf(head, body, rest) =>
      After(SaysAny(PrintHead(head)), if at == 0 then Exec(body, env, t) else ExecChain(rest, env, at - 1, t))
  }

  function ExecArms(arms: Arms, env: Env, at: nat, t: Trail): Ran
    decreases arms, 0, t
  {
    match arms
    case NoArms => NotARun
    case Arm(line, body, tail, rest) =>
      if at > 0 then ExecArms(rest, env, at - 1, t)
      else
        var r := Exec(body, env, t);
        After(Says(line), if r.Ran? && r.ending.Fell? then After(SaysAny(tail), r) else r)
  }

  function ExecRounds(body: Block, env: Env, rounds: Rounds): Ran
    decreases body, 1, rounds
  {
    match rounds
    case NoMore => Ran(false, Fell)
    case Round(t, more) =>
      var r := Exec(body, env, t);
      if r.NotARun? then NotARun
      else if r.ending == Left(LeavesTest) then (if more.NoMore? then r else NotARun)
      else After(r.asserted, ExecRounds(body, env, more))
  }

  // Whether lines assert where they stand.
  predicate Asserts(lines: seq<Line>, ends: Ends) {
    SaysAny(lines) && !ends.Deferred?
  }

  // The claim the check makes of a test it accepts.
  ghost predicate EveryRunAsserts(b: Block) {
    forall t :: var r := Exec(b, map[], t); r.Ran? ==> r.asserted
  }

  predicate Accepted(b: Block) {
    Walk(Print(b)) == Answer(true)
  }
}
