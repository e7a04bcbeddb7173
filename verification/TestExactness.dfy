// What acceptance means for the runs of a test body, and exactly where it stops meaning it.
module TestExactness {
  import opened TestPrograms

  // -------------------------------------------------------------------------
  // Runs that assert nothing, decided on the program text
  // -------------------------------------------------------------------------

  // How some run that asserts nothing can end: by falling through, by ending its round, by leaving the test.
  datatype Quiet = Quiet(falls: bool, round: bool, test: bool)

  const SILENCED := Quiet(false, false, false)

  predicate Shows(q: Quiet, ending: Ending) {
    match ending
    case Fell => q.falls
    case Left(exit) => if exit.LeavesRound? then q.round else q.test
  }

  function Either(p: Quiet, q: Quiet): Quiet {
    Quiet(p.falls || q.falls, p.round || q.round, p.test || q.test)
  }

  function QuietOf(b: Block, env: Env): Quiet {
    match b
    case Done => Quiet(true, false, false)
    case Then(s, rest) =>
      var q := QuietStmt(s, env);
      if !q.falls then q else Either(q.(falls := false), QuietOf(rest, Bind(env, s)))
  }

  function QuietStmt(s: Stmt, env: Env): Quiet {
    match s
    case Simple(lines, _, ends) =>
      if Asserts(lines, ends) then SILENCED
      else Quiet(!ends.Leaves?, Exits(ends) && ends.exit.LeavesRound?, Exits(ends) && ends.exit.LeavesTest?)
    case Cond(head, body, rest) =>
      if SaysAny(PrintHead(head)) then SILENCED else Either(QuietOf(body, env), QuietChain(rest, env))
    case ForLoop(head, size, body, _) =>
      if SaysAny(PrintHead(head)) then SILENCED
      else QuietLoop(SubjectSize(env, head.line.subject, size), QuietOf(body, env))
    case WhileLoop(head, body, _) =>
      if SaysAny(PrintHead(head)) then SILENCED else QuietLoop(Unknown, QuietOf(body, env))
    case MatchOn(head, arms, _) =>
      if SaysAny(PrintHead(head)) then SILENCED else QuietArms(arms, env)
  }

  function QuietLoop(n: Size, q: Quiet): Quiet {
    if n.IsEmpty? then Quiet(true, false, false) else Quiet(n.Unknown? || q.falls || q.round, false, q.test)
  }

  function QuietChain(c: Chain, env: Env): Quiet {
    match c
    case NoElse(_) => Quiet(true, false, false)
    case Otherwise(_, body, _) => QuietOf(body, env)
    case OrIf(head, body, rest) =>
      if SaysAny(PrintHead(head)) then SILENCED else Either(QuietOf(body, env), QuietChain(rest, env))
  }

  function QuietArms(arms: Arms, env: Env): Quiet {
    match arms
    case NoArms => SILENCED
    case Arm(line, body, tail, rest) =>
      var q := QuietOf(body, env);
      Either(if Says(line) then SILENCED else if SaysAny(tail) then q.(falls := false) else q, QuietArms(rest, env))
  }

  lemma {:induction false} QuietSound(b: Block, env: Env, t: Trail)
    ensures var r := Exec(b, env, t); r.Ran? && !r.asserted ==> Shows(QuietOf(b, env), r.ending)
    decreases b, 0, t
  {
    match b
    case Done =>
    case Then(s, rest) =>
      if t.Go? {
        QuietSoundStmt(s, env, t.step);
        QuietSound(rest, Bind(env, s), t.rest);
      }
  }

  lemma {:induction false} QuietSoundStmt(s: Stmt, env: Env, step: Step)
    ensures var r := ExecStmt(s, env, step); r.Ran? && !r.asserted ==> Shows(QuietStmt(s, env), r.ending)
    decreases s, 0, step
  {
    match s
    case Simple(_, _, _) =>
    case Cond(_, body, rest) =>
      if step.Branch? {
        QuietSound(body, env, step.inside);
        if step.at > 0 { QuietSoundChain(rest, env, step.at - 1, step.inside); }
      }
    case ForLoop(_, _, body, _) =>
      if step.Loop? { QuietSoundRounds(body, env, step.rounds); }
    case WhileLoop(_, body, _) =>
      if step.Loop? { QuietSoundRounds(body, env, step.rounds); }
    case MatchOn(_, arms, _) =>
      if step.Branch? { QuietSoundArms(arms, env, step.at, step.inside); }
  }

  lemma {:induction false} QuietSoundChain(c: Chain, env: Env, at: nat, t: Trail)
    ensures var r := ExecChain(c, env, at, t); r.Ran? && !r.asserted ==> Shows(QuietChain(c, env), r.ending)
    decreases c, 0, t
  {
    match c
    case NoElse(_) =>
    case Otherwise(_, body, _) => QuietSound(body, env, t);
    case OrIf(_, body, rest) =>
      QuietSound(body, env, t);
      if at > 0 { QuietSoundChain(rest, env, at - 1, t); }
  }

  lemma {:induction false} QuietSoundArms(arms: Arms, env: Env, at: nat, t: Trail)
    ensures var r := ExecArms(arms, env, at, t); r.Ran? && !r.asserted ==> Shows(QuietArms(arms, env), r.ending)
    decreases arms, 0, t
  {
    match arms
    case NoArms =>
    case Arm(_, body, _, rest) =>
      if at > 0 { QuietSoundArms(rest, env, at - 1, t); } else { QuietSound(body, env, t); }
  }

  // A quiet loop either runs no round, or every round it runs ends quietly.
  lemma {:induction false} QuietSoundRounds(body: Block, env: Env, rounds: Rounds)
    ensures var r := ExecRounds(body, env, rounds);
            r.Ran? && !r.asserted && rounds.Round? ==> Shows(QuietLoop(NonEmpty, QuietOf(body, env)), r.ending)
    ensures var r := ExecRounds(body, env, rounds);
            r.Ran? && !r.asserted && rounds.NoMore? ==> r.ending == Fell
    decreases body, 1, rounds
  {
    if rounds.Round? {
      QuietSound(body, env, rounds.inside);
      QuietSoundRounds(body, env, rounds.more);
    }
  }

  lemma {:induction false} QuietRun(b: Block, env: Env, ending: Ending) returns (t: Trail)
    requires Shows(QuietOf(b, env), ending)
    ensures Exec(b, env, t) == Ran(false, ending)
    decreases b, 0
  {
    match b
    case Done =>
      t := Stop;
    case Then(s, rest) =>
      if ending != Fell && Shows(QuietStmt(s, env), ending) {
        var step := QuietRunStmt(s, env, ending);
        t := Go(step, Stop);
      } else {
        var step := QuietRunStmt(s, env, Fell);
        var t' := QuietRun(rest, Bind(env, s), ending);
        t := Go(step, t');
      }
  }

  lemma {:induction false} QuietRunStmt(s: Stmt, env: Env, ending: Ending) returns (step: Step)
    requires Shows(QuietStmt(s, env), ending)
    ensures ExecStmt(s, env, step) == Ran(false, ending)
    decreases s
  {
    match s
    case Simple(_, _, _) =>
      step := if ending.Fell? then Pass else Quit;
    case Cond(_, body, rest) =>
      if Shows(QuietOf(body, env), ending) {
        var t := QuietRun(body, env, ending);
        step := Branch(0, t);
      } else {
        var at, t := QuietRunChain(rest, env, ending);
        step := Branch(at + 1, t);
      }
    case ForLoop(head, size, body, _) =>
      var rounds := QuietRunRounds(SubjectSize(env, head.line.subject, size), body, env, ending);
      step := Loop(rounds);
    case WhileLoop(_, body, _) =>
      var rounds := QuietRunRounds(Unknown, body, env, ending);
      step := Loop(rounds);
    case MatchOn(_, arms, _) =>
      var at, t := QuietRunArms(arms, env, ending);
      step := Branch(at, t);
  }

  lemma {:induction false} QuietRunRounds(n: Size, body: Block, env: Env, ending: Ending) returns (rounds: Rounds)
    requires Shows(QuietLoop(n, QuietOf(body, env)), ending)
    ensures ExecRounds(body, env, rounds) == Ran(false, ending)
    ensures (n.NonEmpty? ==> rounds.Round?) && (n.IsEmpty? ==> rounds.NoMore?)
    decreases body, 1
  {
    if ending.Fell? && !n.NonEmpty? {
      rounds := NoMore;
    } else {
      var q := QuietOf(body, env);
      var last := if !ending.Fell? then Left(LeavesTest) else if q.falls then Fell else Left(LeavesRound);
      var t := QuietRun(body, env, last);
      rounds := Round(t, NoMore);
    }
  }

  lemma {:induction false} QuietRunChain(c: Chain, env: Env, ending: Ending) returns (at: nat, t: Trail)
    requires Shows(QuietChain(c, env), ending)
    ensures ExecChain(c, env, at, t) == Ran(false, ending)
    decreases c
  {
    match c
    case NoElse(_) =>
      at, t := 0, Stop;
    case Otherwise(_, body, _) =>
      at := 0;
      t := QuietRun(body, env, ending);
    case OrIf(_, body, rest) =>
      if Shows(QuietOf(body, env), ending) {
        at := 0;
        t := QuietRun(body, env, ending);
      } else {
        at, t := QuietRunChain(rest, env, ending);
        at := at + 1;
      }
  }

  lemma {:induction false} QuietRunArms(arms: Arms, env: Env, ending: Ending) returns (at: nat, t: Trail)
    requires Shows(QuietArms(arms, env), ending)
    ensures ExecArms(arms, env, at, t) == Ran(false, ending)
    decreases arms
  {
    match arms
    case NoArms => assert false;
    case Arm(line, body, tail, rest) =>
      if Shows(QuietArms(rest, env), ending) {
        at, t := QuietRunArms(rest, env, ending);
        at := at + 1;
      } else {
        at := 0;
        t := QuietRun(body, env, ending);
      }
  }

  // Every run asserts exactly when no quiet run can be read off the text.
  lemma RunsAssertIffSilenced(b: Block)
    ensures EveryRunAsserts(b) <==> QuietOf(b, map[]) == SILENCED
  {
    if QuietOf(b, map[]) == SILENCED {
      forall t ensures var r := Exec(b, map[], t); r.Ran? ==> r.asserted {
        QuietSound(b, map[], t);
      }
    } else {
      var q := QuietOf(b, map[]);
      var ending := if q.falls then Fell else if q.round then Left(LeavesRound) else Left(LeavesTest);
      var t := QuietRun(b, map[], ending);
    }
  }
}
