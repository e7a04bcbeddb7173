// Acceptance against execution: when an accepted test body really asserts on every run, and when a body that does
// is accepted.
module TestAcceptance {
  import opened Wrappers
  import opened TestLines
  import opened TestPrograms
  import opened TestMust
  import opened TestExactness
  import opened TestScan

  // -------------------------------------------------------------------------
  // Early exits
  // -------------------------------------------------------------------------

  datatype Scope = AllExits | RoundExits

  // The same text with the early exits in scope read as falling through.
  function Erase(b: Block, scope: Scope): Block {
    match b
    case Done => Done
    case Then(s, rest) => Then(EraseStmt(s, scope), Erase(rest, scope))
  }

  function EraseStmt(s: Stmt, scope: Scope): Stmt {
    match s
    case Simple(lines, size, ends) =>
      Simple(lines, size, if Exits(ends) && (scope.AllExits? || ends.exit.LeavesRound?) then Falls else ends)
    case Cond(head, body, rest) => Cond(head, Erase(body, scope), EraseChain(rest, scope))
    case ForLoop(head, size, body, close) => ForLoop(head, size, Erase(body, scope), close)
    case WhileLoop(head, body, close) => WhileLoop(head, Erase(body, scope), close)
    case MatchOn(head, arms, close) => MatchOn(head, EraseArms(arms, scope), close)
  }

  function EraseChain(c: Chain, scope: Scope): Chain {
    match c
    case NoElse(close) => NoElse(close)
    case Otherwise(line, body, close) => Otherwise(line, Erase(body, scope), close)
    case OrIf(head, body, rest) => OrIf(head, Erase(body, scope), EraseChain(rest, scope))
  }

  function EraseArms(arms: Arms, scope: Scope): Arms {
    match arms
    case NoArms => NoArms
    case Arm(line, body, tail, rest) => Arm(line, Erase(body, scope), tail, EraseArms(rest, scope))
  }

  function WithoutExits(b: Block): Block {
    Erase(b, AllExits)
  }

  predicate ExitFree(b: Block) {
    b == WithoutExits(b)
  }

  // No `break` or `continue`: every early exit leaves the test.
  predicate OnlyReturns(b: Block) {
    b == Erase(b, RoundExits)
  }

  // -------------------------------------------------------------------------
  // Tables
  // -------------------------------------------------------------------------

  function NamesIn(lines: seq<Line>): set<string> {
    set line | line in lines && line.binding.Binds? :: line.binding.name
  }

  // Names whose last binding line before this point is inside a nested block, where it is no longer in force.
  function Hide(hidden: set<string>, s: Stmt): set<string> {
    if s.Simple? then hidden - NamesIn(s.lines) else hidden + NamesIn(PrintStmt(s))
  }

  function Local(locals: set<string>, s: Stmt): set<string> {
    if s.Simple? then locals + NamesIn(s.lines) else locals
  }

  // What reads as something is it: a list that reads as written out is that list and nothing more, a loop's name was
  // last bound in its own block, and a line that reads as asserting runs where it stands.
  predicate TablesHold(b: Block, hidden: set<string>) {
    match b
    case Done => true
    case Then(s, rest) => TablesHoldStmt(s, hidden) && TablesHold(rest, Hide(hidden, s))
  }

  predicate TablesHoldStmt(s: Stmt, hidden: set<string>) {
    match s
    case Simple(lines, size, ends) =>
      && (ShowsList(lines) ==> size.NonEmpty?)
      && (ends.Deferred? ==> !SaysAny(lines))
    case Cond(_, body, rest) => TablesHold(body, {}) && TablesHoldChain(rest)
    case ForLoop(head, size, body, _) =>
      && TablesHold(body, {})
      && match head.line.subject {
           case NoSubject => true
           case InlineList(empty) => !empty ==> size.NonEmpty?
           case Named(name) => name !in hidden
         }
    case WhileLoop(_, body, _) => TablesHold(body, {})
    case MatchOn(_, arms, _) => TablesHoldArms(arms)
  }

  predicate TablesHoldChain(c: Chain) {
    match c
    case NoElse(_) => true
    case Otherwise(_, body, _) => TablesHold(body, {})
    case OrIf(_, body, rest) => TablesHold(body, {}) && TablesHoldChain(rest)
  }

  predicate TablesHoldArms(arms: Arms) {
    match arms
    case NoArms => true
    case Arm(_, body, _, rest) => TablesHold(body, {}) && TablesHoldArms(rest)
  }

  // What the walk has to be able to see for a body that always asserts to be accepted: no assertion in a header,
  // every match opened on its header line with an arm to read, and every non-empty list looped over written in
  // the loop's own block.
  predicate Visible(b: Block, env: Env, hidden: set<string>, locals: set<string>) {
    match b
    case Done => true
    case Then(s, rest) =>
      VisibleStmt(s, env, hidden, locals) && Visible(rest, Bind(env, s), Hide(hidden, s), Local(locals, s))
  }

  predicate VisibleStmt(s: Stmt, env: Env, hidden: set<string>, locals: set<string>) {
    match s
    case Simple(lines, size, _) =>
      lines != [] && lines[0].binding.Binds? && size.NonEmpty? ==> ShowsList(lines)
    case Cond(head, body, rest) => !SaysAny(PrintHead(head)) && Visible(body, env, {}, {}) && VisibleChain(rest, env)
    case ForLoop(head, size, body, _) =>
      && !SaysAny(PrintHead(head))
      && Visible(body, env, {}, {})
      && match head.line.subject {
           case NoSubject => !size.NonEmpty?
           case InlineList(empty) => empty ==> !size.NonEmpty?
           case Named(name) => name in env && env[name].NonEmpty? ==> name in locals && name !in hidden
         }
    case WhileLoop(head, body, _) => !SaysAny(PrintHead(head)) && Visible(body, env, {}, {})
    case MatchOn(head, arms, _) =>
      !SaysAny(PrintHead(head)) && HeaderDepth(head.line) == 1 && arms.Arm? && VisibleArms(arms, env)
  }

  predicate VisibleChain(c: Chain, env: Env) {
    match c
    case NoElse(_) => true
    case Otherwise(_, body, _) => Visible(body, env, {}, {})
    case OrIf(head, body, rest) => !SaysAny(PrintHead(head)) && Visible(body, env, {}, {}) && VisibleChain(rest, env)
  }

  predicate VisibleArms(arms: Arms, env: Env) {
    match arms
    case NoArms => true
    case Arm(_, body, _, rest) => Visible(body, env, {}, {}) && VisibleArms(rest, env)
  }

  // -------------------------------------------------------------------------
  // The scan's "last rebind decides" against the bindings in force
  // -------------------------------------------------------------------------

  // Every list opened on one line has a further line below it.
  ghost predicate Followed(lines: seq<Line>) {
    forall at: nat | at < |lines| && lines[at].binding.Binds? && lines[at].binding.form.OpenForm? ::
      exists line | line in lines[at + 1..] :: !line.blank
  }

  lemma {:induction false} BracketConcat(a: seq<Line>, b: seq<Line>)
    requires exists line | line in a :: !line.blank
    ensures OpensOnBracket(a + b) == OpensOnBracket(a)
    decreases |a|
  {
    assert (a + b)[1..] == a[1..] + b;
    if a[0].blank {
      assert exists line | line in a[1..] :: !line.blank;
      BracketConcat(a[1..], b);
    }
  }

  lemma {:induction false} DecidingConcat(before: seq<Line>, lines: seq<Line>, name: string)
    requires name !in NamesIn(lines)
    ensures Deciding(before + lines, name) == Deciding(before, name)
    decreases |lines|
  {
    if lines == [] {
      assert before + lines == before;
    } else {
      var last := lines[|lines| - 1];
      assert last in lines;
      assert !BindsName(last, name);
      assert (before + lines)[..|before + lines| - 1] == before + lines[..|lines| - 1];
      DecidingConcat(before, lines[..|lines| - 1], name);
    }
  }

  lemma {:induction false} DecidingHere(before: seq<Line>, line: Line, lines: seq<Line>, name: string)
    requires BindsName(line, name) && name !in NamesIn(lines)
    ensures Deciding(before + ([line] + lines), name) == Some(|before|)
  {
    var shown := before + [line];
    assert before + ([line] + lines) == shown + lines;
    DecidingConcat(shown, lines, name);
    assert shown[|shown| - 1] == line;
  }

  lemma FollowedConcat(a: seq<Line>, b: seq<Line>)
    requires Followed(a) && Followed(b)
    ensures Followed(a + b)
  {
    var c := a + b;
    forall at: nat | at < |c| && c[at].binding.Binds? && c[at].binding.form.OpenForm?
      ensures exists line | line in c[at + 1..] :: !line.blank
    {
      if at < |a| {
        var line :| line in a[at + 1..] && !line.blank;
        assert c[at + 1..] == a[at + 1..] + b;
      } else {
        assert c[at + 1..] == b[at - |a| + 1..];
      }
    }
  }

  lemma ReadsTableConcat(before: seq<Line>, lines: seq<Line>, name: string)
    requires name !in NamesIn(lines) && Followed(before)
    ensures ReadsTable(before + lines, name) == ReadsTable(before, name)
  {
    DecidingConcat(before, lines, name);
    var at := Deciding(before, name);
    if at.Some? {
      assert (before + lines)[at.value + 1..] == before[at.value + 1..] + lines;
      if before[at.value].binding.form.OpenForm? {
        BracketConcat(before[at.value + 1..], lines);
      }
    }
  }

  lemma ReadsTableHere(before: seq<Line>, lines: seq<Line>, name: string)
    requires lines != [] && BindNothing(lines[1..]) && BindsName(lines[0], name)
    ensures ReadsTable(before + lines, name) == ReadsAsTable(lines, 0)
  {
    assert lines == [lines[0]] + lines[1..];
    DecidingHere(before, lines[0], lines[1..], name);
    assert (before + lines)[|before| + 1..] == lines[1..];
  }

  lemma BindNothingFollowed(lines: seq<Line>)
    requires BindNothing(lines)
    ensures Followed(lines) && NamesIn(lines) == {}
  {
    forall at: nat | at < |lines| ensures lines[at].binding.NoBinding? {
      assert lines[at] in lines;
    }
  }

  lemma FollowedSimple(lines: seq<Line>, ends: Ends)
    requires WfSimple(lines, ends)
    ensures Followed(lines)
    ensures NamesIn(lines) == if lines[0].binding.Binds? then {lines[0].binding.name} else {}
  {
    forall at: nat | 0 < at < |lines| ensures lines[at].binding.NoBinding? {
      assert lines[at] == lines[1..][at - 1];
    }
  }

  lemma {:induction false} FollowedPrint(b: Block)
    requires Wf(b)
    ensures Followed(Print(b))
    decreases b, 0
  {
    match b
    case Done =>
    case Then(s, rest) =>
      FollowedStmt(s);
      FollowedPrint(rest);
      FollowedConcat(PrintStmt(s), Print(rest));
  }

  lemma {:induction false} FollowedStmt(s: Stmt)
    requires WfStmt(s)
    ensures Followed(PrintStmt(s))
    decreases s
  {
    match s
    case Simple(lines, _, ends) =>
      FollowedSimple(lines, ends);
    case Cond(head, body, rest) =>
      FollowedChain(rest);
      FollowedParts(head, KwIf, body, PrintChain(rest));
    case ForLoop(head, _, body, close) =>
      BindNothingFollowed([close]);
      FollowedParts(head, KwFor, body, [close]);
    case WhileLoop(head, body, close) =>
      BindNothingFollowed([close]);
      FollowedParts(head, KwWhile, body, [close]);
    case MatchOn(head, arms, close) =>
      BindNothingFollowed([close]);
      BindNothingFollowed(PrintHead(head));
      FollowedArms(arms);
      FollowedConcat(PrintHead(head), PrintArms(arms));
      FollowedConcat(PrintHead(head) + PrintArms(arms), [close]);
  }

  lemma {:induction false} FollowedParts(head: Head, keyword: Keyword, body: Block, after: seq<Line>)
    requires WfHead(head, keyword) && Wf(body) && Followed(after)
    ensures Followed(PrintHead(head) + Print(body) + after)
    decreases body, 1
  {
    BindNothingFollowed(PrintHead(head));
    FollowedPrint(body);
    FollowedConcat(PrintHead(head), Print(body));
    FollowedConcat(PrintHead(head) + Print(body), after);
  }

  lemma {:induction false} FollowedChain(c: Chain)
    requires WfChain(c)
    ensures Followed(PrintChain(c))
    decreases c
  {
    match c
    case NoElse(close) =>
      BindNothingFollowed([close]);
    case Otherwise(line, body, close) =>
      BindNothingFollowed([close]);
      assert PrintHead(Head(line, [])) == [line];
      FollowedParts(Head(line, []), KwElse, body, [close]);
    case OrIf(head, body, rest) =>
      FollowedChain(rest);
      FollowedParts(head, KwElse, body, PrintChain(rest));
  }

  lemma {:induction false} FollowedArms(arms: Arms)
    requires WfArms(arms)
    ensures Followed(PrintArms(arms))
    decreases arms
  {
    match arms
    case NoArms =>
    case Arm(line, body, tail, rest) =>
      BindNothingFollowed([line]);
      BindNothingFollowed(tail);
      FollowedPrint(body);
      FollowedArms(rest);
      FollowedConcat([line], Print(body));
      FollowedConcat([line] + Print(body), tail);
      FollowedConcat([line] + Print(body) + tail, PrintArms(rest));
  }

  // The scan over the lines of the block and the bindings in force tell the same of every name not hidden.
  ghost predicate ScanSound(before: seq<Line>, env: Env, hidden: set<string>) {
    forall name | name !in hidden && ReadsTable(before, name) :: name in env && env[name].NonEmpty?
  }

  ghost predicate ScanComplete(before: seq<Line>, env: Env, hidden: set<string>, locals: set<string>) {
    forall name | name in locals && name !in hidden && name in env && env[name].NonEmpty? :: ReadsTable(before, name)
  }

  lemma ScanStep(before: seq<Line>, env: Env, hidden: set<string>, s: Stmt)
    requires WfStmt(s) && Followed(before) && ScanSound(before, env, hidden) && TablesHoldStmt(s, hidden)
    ensures Followed(before + PrintStmt(s)) && ScanSound(before + PrintStmt(s), Bind(env, s), Hide(hidden, s))
  {
    FollowedStmt(s);
    FollowedConcat(before, PrintStmt(s));
    var after := before + PrintStmt(s);
    forall name | name !in Hide(hidden, s) && ReadsTable(after, name)
      ensures name in Bind(env, s) && Bind(env, s)[name].NonEmpty?
    {
      ScanAcross(before, s, name);
    }
  }

  lemma ScanBackStep(before: seq<Line>, env: Env, hidden: set<string>, locals: set<string>, s: Stmt)
    requires WfStmt(s) && Followed(before) && ScanComplete(before, env, hidden, locals)
    requires VisibleStmt(s, env, hidden, locals)
    ensures Followed(before + PrintStmt(s))
    ensures ScanComplete(before + PrintStmt(s), Bind(env, s), Hide(hidden, s), Local(locals, s))
  {
    FollowedStmt(s);
    FollowedConcat(before, PrintStmt(s));
    var after := before + PrintStmt(s);
    var env' := Bind(env, s);
    forall name | name in Local(locals, s) && name !in Hide(hidden, s) && name in env' && env'[name].NonEmpty?
      ensures ReadsTable(after, name)
    {
      ScanAcross(before, s, name);
    }
  }

  // Passing a statement changes what the scan reads of a name only when the statement binds it.
  lemma ScanAcross(before: seq<Line>, s: Stmt, name: string)
    requires WfStmt(s) && Followed(before)
    ensures s.Simple? ==> NamesIn(s.lines) == if s.lines[0].binding.Binds? then {s.lines[0].binding.name} else {}
    ensures if s.Simple? && BindsName(s.lines[0], name)
            then ReadsTable(before + PrintStmt(s), name) == ShowsList(s.lines)
            else name !in NamesIn(PrintStmt(s)) ==> ReadsTable(before + PrintStmt(s), name) == ReadsTable(before, name)
  {
    if s.Simple? {
      FollowedSimple(s.lines, s.ends);
    }
    if s.Simple? && BindsName(s.lines[0], name) {
      ReadsTableHere(before, s.lines, name);
      ListIsRead(s.lines);
    } else if name !in NamesIn(PrintStmt(s)) {
      ReadsTableConcat(before, PrintStmt(s), name);
    }
  }

  lemma FreshScan(before: seq<Line>, env: Env)
    requires BindNothing(before)
    ensures Followed(before) && ScanSound(before, env, {}) && ScanComplete(before, env, {}, {})
  {
    BindNothingFollowed(before);
    forall name ensures Deciding(before, name) == None {
      DecidingConcat([], before, name);
      assert [] + before == before;
    }
  }

  // -------------------------------------------------------------------------
  // Soundness
  // -------------------------------------------------------------------------

  // An ending whose exits are all erased is not shown by any quiet run.
  lemma {:induction false} ErasedEndings(b: Block, env: Env, scope: Scope)
    requires b == Erase(b, scope)
    ensures !QuietOf(b, env).round && (scope.AllExits? ==> !QuietOf(b, env).test)
    decreases b
  {
    match b
    case Done =>
    case Then(s, rest) =>
      ErasedEndingsStmt(s, env, scope);
      ErasedEndings(rest, Bind(env, s), scope);
  }

  lemma {:induction false} ErasedEndingsStmt(s: Stmt, env: Env, scope: Scope)
    requires s == EraseStmt(s, scope)
    ensures !QuietStmt(s, env).round && (scope.AllExits? ==> !QuietStmt(s, env).test)
    decreases s
  {
    match s
    case Simple(_, _, _) =>
    case Cond(_, body, rest) => ErasedEndings(body, env, scope); ErasedEndingsChain(rest, env, scope);
    case ForLoop(_, _, body, _) => ErasedEndings(body, env, scope);
    case WhileLoop(_, body, _) => ErasedEndings(body, env, scope);
    case MatchOn(_, arms, _) => ErasedEndingsArms(arms, env, scope);
  }

  lemma {:induction false} ErasedEndingsChain(c: Chain, env: Env, scope: Scope)
    requires c == EraseChain(c, scope)
    ensures !QuietChain(c, env).round && (scope.AllExits? ==> !QuietChain(c, env).test)
    decreases c
  {
    match c
    case NoElse(_) =>
    case Otherwise(_, body, _) => ErasedEndings(body, env, scope);
    case OrIf(_, body, rest) => ErasedEndings(body, env, scope); ErasedEndingsChain(rest, env, scope);
  }

  lemma {:induction false} ErasedEndingsArms(arms: Arms, env: Env, scope: Scope)
    requires arms == EraseArms(arms, scope)
    ensures !QuietArms(arms, env).round && (scope.AllExits? ==> !QuietArms(arms, env).test)
    decreases arms
  {
    match arms
    case NoArms =>
    case Arm(_, body, _, rest) => ErasedEndings(body, env, scope); ErasedEndingsArms(rest, env, scope);
  }

  // No counted loop on which the analysis rests its answer has a round that can be cut short before it asserts.
  predicate Firm(b: Block, before: seq<Line>, env: Env)
    decreases b, 0
  {
    match b
    case Done => true
    case Then(s, rest) =>
      if MustStmt(s, before) then FirmStmt(s, env) else Firm(rest, before + PrintStmt(s), Bind(env, s))
  }

  predicate FirmWithin(more: seq<Line>, b: Block, env: Env)
    decreases b, 1
  {
    SaysAny(more) || Firm(b, more, env)
  }

  predicate FirmStmt(s: Stmt, env: Env) {
    match s
    case Simple(_, _, _) => true
    case Cond(head, body, rest) => FirmWithin(head.more, body, env) && FirmChain(rest, env)
    case ForLoop(head, _, body, _) => FirmWithin(head.more, body, env) && !QuietOf(body, env).round
    case WhileLoop(_, _, _) => true
    case MatchOn(_, arms, _) => FirmArms(arms, env)
  }

  predicate FirmChain(c: Chain, env: Env) {
    match c
    case NoElse(_) => true
    case Otherwise(_, body, _) => FirmWithin([], body, env)
    case OrIf(head, body, rest) => FirmWithin(head.more, body, env) && FirmChain(rest, env)
  }

  predicate FirmArms(arms: Arms, env: Env) {
    match arms
    case NoArms => true
    case Arm(line, body, tail, rest) =>
      (Says(line) || SaysAny(tail) || Firm(body, [line], env)) && FirmArms(rest, env)
  }

  // Without `break` and `continue` there is no such round.
  lemma {:induction false} OnlyReturnsIsFirm(b: Block, before: seq<Line>, env: Env)
    requires OnlyReturns(b)
    ensures Firm(b, before, env)
    decreases b
  {
    match b
    case Done =>
    case Then(s, rest) =>
      OnlyReturnsIsFirmStmt(s, env);
      OnlyReturnsIsFirm(rest, before + PrintStmt(s), Bind(env, s));
  }

  lemma {:induction false} OnlyReturnsIsFirmStmt(s: Stmt, env: Env)
    requires s == EraseStmt(s, RoundExits)
    ensures FirmStmt(s, env)
    decreases s
  {
    match s
    case Simple(_, _, _) =>
    case Cond(head, body, rest) => OnlyReturnsIsFirm(body, head.more, env); OnlyReturnsIsFirmChain(rest, env);
    case ForLoop(head, _, body, _) => OnlyReturnsIsFirm(body, head.more, env); ErasedEndings(body, env, RoundExits);
    case WhileLoop(_, _, _) =>
    case MatchOn(_, arms, _) => OnlyReturnsIsFirmArms(arms, env);
  }

  lemma {:induction false} OnlyReturnsIsFirmChain(c: Chain, env: Env)
    requires c == EraseChain(c, RoundExits)
    ensures FirmChain(c, env)
    decreases c
  {
    match c
    case NoElse(_) =>
    case Otherwise(_, body, _) => OnlyReturnsIsFirm(body, [], env);
    case OrIf(head, body, rest) => OnlyReturnsIsFirm(body, head.more, env); OnlyReturnsIsFirmChain(rest, env);
  }

  lemma {:induction false} OnlyReturnsIsFirmArms(arms: Arms, env: Env)
    requires arms == EraseArms(arms, RoundExits)
    ensures FirmArms(arms, env)
    decreases arms
  {
    match arms
    case NoArms =>
    case Arm(line, body, _, rest) => OnlyReturnsIsFirm(body, [line], env); OnlyReturnsIsFirmArms(rest, env);
  }

  lemma {:induction false} MustSound(b: Block, before: seq<Line>, env: Env, hidden: set<string>)
    requires Wf(b) && TablesHold(b, hidden)
    requires Followed(before) && ScanSound(before, env, hidden)
    requires Must(b, before) && Firm(b, before, env)
    ensures !QuietOf(b, env).falls
    decreases b, 0
  {
    var Then(s, rest) := b;
    if MustStmt(s, before) {
      MustSoundStmt(s, before, env, hidden);
    } else {
      ScanStep(before, env, hidden, s);
      MustSound(rest, before + PrintStmt(s), Bind(env, s), Hide(hidden, s));
    }
  }

  lemma {:induction false} MustSoundWithin(more: seq<Line>, b: Block, env: Env)
    requires Wf(b) && TablesHold(b, {}) && BindNothing(more)
    requires MustWithin(more, b) && !SaysAny(more) && FirmWithin(more, b, env)
    ensures !QuietOf(b, env).falls
    decreases b, 1
  {
    FreshScan(more, env);
    MustSound(b, more, env, {});
  }

  lemma {:induction false} MustSoundStmt(s: Stmt, before: seq<Line>, env: Env, hidden: set<string>)
    requires WfStmt(s) && TablesHoldStmt(s, hidden)
    requires ScanSound(before, env, hidden)
    requires MustStmt(s, before) && FirmStmt(s, env)
    ensures !QuietStmt(s, env).falls
    decreases s
  {
    match s
    case Simple(_, _, _) =>
    case Cond(head, body, rest) =>
      if !SaysAny(PrintHead(head)) {
        QuietHead(head);
        MustSoundWithin(head.more, body, env);
        MustSoundChain(rest, env);
      }
    case ForLoop(head, size, body, _) =>
      if !SaysAny(PrintHead(head)) {
        QuietHead(head);
        MustSoundWithin(head.more, body, env);
        assert SubjectSize(env, head.line.subject, size).NonEmpty?;
      }
    case MatchOn(head, arms, _) =>
      MustSoundArms(arms, env);
  }

  lemma QuietHead(head: Head)
    ensures SaysAny(PrintHead(head)) == (Says(head.line) || SaysAny(head.more))
  {
    SaysFirst(PrintHead(head));
    assert PrintHead(head)[1..] == head.more;
  }

  lemma {:induction false} MustSoundChain(c: Chain, env: Env)
    requires WfChain(c) && TablesHoldChain(c)
    requires Closed(c) && MustChain(c) && FirmChain(c, env)
    ensures !QuietChain(c, env).falls
    decreases c
  {
    match c
    case Otherwise(_, body, _) =>
      MustSoundWithin([], body, env);
    case OrIf(head, body, rest) =>
      if !SaysAny(PrintHead(head)) {
        QuietHead(head);
        MustSoundWithin(head.more, body, env);
        MustSoundChain(rest, env);
      }
  }

  lemma {:induction false} MustSoundArms(arms: Arms, env: Env)
    requires WfArms(arms) && TablesHoldArms(arms)
    requires MustArms(arms) && FirmArms(arms, env)
    ensures !QuietArms(arms, env).falls
    decreases arms
  {
    match arms
    case NoArms =>
    case Arm(line, body, tail, rest) =>
      MustSoundArms(rest, env);
      if !Says(line) && !SaysAny(tail) {
        FreshScan([line], env);
        MustSound(body, [line], env, {});
      }
  }

  // -------------------------------------------------------------------------
  // Completeness
  // -------------------------------------------------------------------------

  lemma {:induction false} MustComplete(
    b: Block, before: seq<Line>, env: Env, hidden: set<string>, locals: set<string>)
    requires Wf(b) && Visible(b, env, hidden, locals)
    requires Followed(before) && ScanComplete(before, env, hidden, locals)
    requires !Must(b, before)
    ensures QuietOf(b, env) != SILENCED
    decreases b, 0
  {
    match b
    case Done =>
    case Then(s, rest) =>
      MustCompleteStmt(s, before, env, hidden, locals);
      ScanBackStep(before, env, hidden, locals, s);
      MustComplete(rest, before + PrintStmt(s), Bind(env, s), Hide(hidden, s), Local(locals, s));
  }

  lemma {:induction false} MustCompleteWithin(more: seq<Line>, b: Block, env: Env)
    requires Wf(b) && Visible(b, env, {}, {}) && BindNothing(more)
    requires !MustWithin(more, b)
    ensures QuietOf(b, env) != SILENCED
    decreases b, 1
  {
    FreshScan(more, env);
    MustComplete(b, more, env, {}, {});
  }

  lemma {:induction false} MustCompleteStmt(
    s: Stmt, before: seq<Line>, env: Env, hidden: set<string>, locals: set<string>)
    requires WfStmt(s) && VisibleStmt(s, env, hidden, locals)
    requires ScanComplete(before, env, hidden, locals)
    requires !MustStmt(s, before)
    ensures QuietStmt(s, env) != SILENCED
    decreases s
  {
    match s
    case Simple(_, _, _) =>
    case Cond(head, body, rest) =>
      if !MustWithin(head.more, body) {
        MustCompleteWithin(head.more, body, env);
      } else {
        MustCompleteChain(rest, env);
      }
    case ForLoop(head, size, body, _) =>
      if Countable(before, head.line.subject) {
        MustCompleteWithin(head.more, body, env);
      } else {
        assert !SubjectSize(env, head.line.subject, size).NonEmpty?;
      }
    case WhileLoop(_, _, _) =>
    case MatchOn(head, arms, _) =>
      MustCompleteArms(arms, env);
  }

  lemma {:induction false} MustCompleteChain(c: Chain, env: Env)
    requires WfChain(c) && VisibleChain(c, env)
    requires !(Closed(c) && MustChain(c))
    ensures QuietChain(c, env) != SILENCED
    decreases c
  {
    match c
    case NoElse(_) =>
    case Otherwise(_, body, _) =>
      MustCompleteWithin([], body, env);
    case OrIf(head, body, rest) =>
      if !MustWithin(head.more, body) {
        MustCompleteWithin(head.more, body, env);
      } else {
        MustCompleteChain(rest, env);
      }
  }

  lemma {:induction false} MustCompleteArms(arms: Arms, env: Env)
    requires WfArms(arms) && VisibleArms(arms, env)
    requires !MustArms(arms)
    ensures QuietArms(arms, env) != SILENCED
    decreases arms
  {
    match arms
    case NoArms =>
    case Arm(line, body, tail, rest) =>
      if Says(line) || Must(body, [line]) || SaysAny(tail) {
        MustCompleteArms(rest, env);
      } else {
        FreshScan([line], env);
        MustComplete(body, [line], env, {}, {});
      }
  }

  // -------------------------------------------------------------------------
  // Erasing exits changes neither the text nor what is asked of it
  // -------------------------------------------------------------------------

  lemma {:induction false} ErasedLayout(b: Block)
    requires Wf(b)
    ensures var e := WithoutExits(b);
            && Print(e) == Print(b) && Wf(e) && ExitFree(e) && OnlyReturns(e)
    decreases b
  {
    match b
    case Done =>
    case Then(s, rest) =>
      ErasedLayoutStmt(s);
      ErasedLayout(rest);
  }

  lemma {:induction false} ErasedLayoutStmt(s: Stmt)
    requires WfStmt(s)
    ensures var e := EraseStmt(s, AllExits);
            && PrintStmt(e) == PrintStmt(s) && WfStmt(e) && EraseStmt(e, AllExits) == e == EraseStmt(e, RoundExits)
    decreases s
  {
    match s
    case Simple(_, _, _) =>
    case Cond(_, body, rest) => ErasedLayout(body); ErasedLayoutChain(rest);
    case ForLoop(_, _, body, _) => ErasedLayout(body);
    case WhileLoop(_, body, _) => ErasedLayout(body);
    case MatchOn(_, arms, _) => ErasedLayoutArms(arms);
  }

  lemma {:induction false} ErasedLayoutChain(c: Chain)
    requires WfChain(c)
    ensures var e := EraseChain(c, AllExits);
            && PrintChain(e) == PrintChain(c) && WfChain(e) && EraseChain(e, AllExits) == e == EraseChain(e, RoundExits)
    decreases c
  {
    match c
    case NoElse(_) =>
    case Otherwise(_, body, _) => ErasedLayout(body);
    case OrIf(_, body, rest) => ErasedLayout(body); ErasedLayoutChain(rest);
  }

  lemma {:induction false} ErasedLayoutArms(arms: Arms)
    requires WfArms(arms)
    ensures var e := EraseArms(arms, AllExits);
            && PrintArms(e) == PrintArms(arms) && WfArms(e) && EraseArms(e, AllExits) == e == EraseArms(e, RoundExits)
    decreases arms
  {
    match arms
    case NoArms =>
    case Arm(_, body, _, rest) => ErasedLayout(body); ErasedLayoutArms(rest);
  }

  lemma {:induction false} ErasedQuiet(b: Block, env: Env)
    requires Wf(b)
    ensures var e := WithoutExits(b); QuietOf(e, env).falls ==> QuietOf(b, env) != SILENCED
    decreases b
  {
    match b
    case Done =>
    case Then(s, rest) =>
      ErasedQuietStmt(s, env);
      ErasedQuiet(rest, Bind(env, s));
      assert Bind(env, EraseStmt(s, AllExits)) == Bind(env, s);
  }

  lemma {:induction false} ErasedQuietStmt(s: Stmt, env: Env)
    requires WfStmt(s)
    ensures var e := EraseStmt(s, AllExits); QuietStmt(e, env).falls ==> QuietStmt(s, env) != SILENCED
    decreases s
  {
    match s
    case Simple(_, _, _) =>
    case Cond(_, body, rest) => ErasedQuiet(body, env); ErasedQuietChain(rest, env);
    case ForLoop(_, _, body, _) =>
      ErasedQuiet(body, env);
      ErasedLayout(body);
      ErasedEndings(WithoutExits(body), env, RoundExits);
    case WhileLoop(_, body, _) => ErasedQuiet(body, env);
    case MatchOn(_, arms, _) => ErasedQuietArms(arms, env);
  }

  lemma {:induction false} ErasedQuietChain(c: Chain, env: Env)
    requires WfChain(c)
    ensures var e := EraseChain(c, AllExits); QuietChain(e, env).falls ==> QuietChain(c, env) != SILENCED
    decreases c
  {
    match c
    case NoElse(_) =>
    case Otherwise(_, body, _) => ErasedQuiet(body, env);
    case OrIf(_, body, rest) => ErasedQuiet(body, env); ErasedQuietChain(rest, env);
  }

  lemma {:induction false} ErasedQuietArms(arms: Arms, env: Env)
    requires WfArms(arms)
    ensures var e := EraseArms(arms, AllExits); QuietArms(e, env).falls ==> QuietArms(arms, env) != SILENCED
    decreases arms
  {
    match arms
    case NoArms =>
    case Arm(_, body, _, rest) => ErasedQuiet(body, env); ErasedQuietArms(rest, env);
  }

  lemma {:induction false} ErasedTables(b: Block, hidden: set<string>)
    requires Wf(b)
    ensures TablesHold(WithoutExits(b), hidden) == TablesHold(b, hidden)
    decreases b
  {
    match b
    case Done =>
    case Then(s, rest) =>
      ErasedLayoutStmt(s);
      ErasedTablesStmt(s, hidden);
      ErasedTables(rest, Hide(hidden, s));
  }

  lemma {:induction false} ErasedTablesStmt(s: Stmt, hidden: set<string>)
    requires WfStmt(s)
    ensures TablesHoldStmt(EraseStmt(s, AllExits), hidden) == TablesHoldStmt(s, hidden)
    decreases s
  {
    match s
    case Simple(_, _, _) =>
    case Cond(_, body, rest) => ErasedTables(body, {}); ErasedTablesChain(rest);
    case ForLoop(_, _, body, _) => ErasedTables(body, {});
    case WhileLoop(_, body, _) => ErasedTables(body, {});
    case MatchOn(_, arms, _) => ErasedTablesArms(arms);
  }

  lemma {:induction false} ErasedTablesChain(c: Chain)
    requires WfChain(c)
    ensures TablesHoldChain(EraseChain(c, AllExits)) == TablesHoldChain(c)
    decreases c
  {
    match c
    case NoElse(_) =>
    case Otherwise(_, body, _) => ErasedTables(body, {});
    case OrIf(_, body, rest) => ErasedTables(body, {}); ErasedTablesChain(rest);
  }

  lemma {:induction false} ErasedTablesArms(arms: Arms)
    requires WfArms(arms)
    ensures TablesHoldArms(EraseArms(arms, AllExits)) == TablesHoldArms(arms)
    decreases arms
  {
    match arms
    case NoArms =>
    case Arm(_, body, _, rest) => ErasedTables(body, {}); ErasedTablesArms(rest);
  }

  // -------------------------------------------------------------------------
  // Main results
  // -------------------------------------------------------------------------

  // An accepted body falls through in silence only by a counted loop the analysis relied on, some round of which may
  // be cut short.
  lemma AcceptedNeverFallsQuiet(b: Block)
    requires Wf(b) && TablesHold(b, {}) && Firm(b, [], map[]) && Accepted(b)
    ensures !QuietOf(b, map[]).falls
  {
    WalkIsMust(b);
    FreshScan([], map[]);
    MustSound(b, [], map[], {});
  }

  // Acceptance is sound: early exits apart, an accepted body cannot run to completion having asserted nothing; nor can
  // one accepted below further lines of a signature.
  lemma AcceptedBelowIsSound(more: seq<Line>, b: Block)
    requires FlatAll(more) && BindNothing(more) && !SaysAny(more)
    requires Wf(b) && TablesHold(b, {}) && Walk(more + Print(b)) == Answer(true)
    ensures EveryRunAsserts(WithoutExits(b))
  {
    var e := WithoutExits(b);
    ErasedLayout(b);
    ErasedTables(b, {});
    OnlyReturnsIsFirm(e, more, map[]);
    WalkWithin(more + Print(e), more, e);
    MustSoundWithin(more, e, map[]);
    ErasedEndings(e, map[], AllExits);
    RunsAssertIffSilenced(e);
  }

  lemma AcceptedIsSound(b: Block)
    requires Wf(b) && TablesHold(b, {}) && Accepted(b)
    ensures EveryRunAsserts(WithoutExits(b))
  {
    assert [] + Print(b) == Print(b);
    AcceptedBelowIsSound([], b);
  }

  // Acceptance is complete: a body that asserts on every run is accepted, whatever early exits it has.
  lemma AcceptedIsComplete(b: Block)
    requires Wf(b) && Visible(b, map[], {}, {}) && EveryRunAsserts(b)
    ensures Accepted(b)
  {
    WalkIsMust(b);
    FreshScan([], map[]);
    RunsAssertIffSilenced(b);
    if !Must(b, []) {
      MustComplete(b, [], map[], {}, {});
    }
  }

  // Acceptance is exact: it is every run asserting once early exits are read as falling through; below further lines of
  // a signature too.
  lemma AcceptedBelowIsExact(more: seq<Line>, b: Block)
    requires FlatAll(more) && BindNothing(more) && !SaysAny(more)
    requires Wf(b) && TablesHold(b, {}) && Visible(WithoutExits(b), map[], {}, {})
    ensures Walk(more + Print(b)) == Answer(true) <==> EveryRunAsserts(WithoutExits(b))
  {
    var e := WithoutExits(b);
    ErasedLayout(b);
    WalkWithin(more + Print(e), more, e);
    if MustWithin(more, e) {
      AcceptedBelowIsSound(more, b);
    } else {
      MustCompleteWithin(more, e, map[]);
      RunsAssertIffSilenced(e);
    }
  }

  lemma AcceptedIsExact(b: Block)
    requires Wf(b) && TablesHold(b, {}) && Visible(WithoutExits(b), map[], {}, {})
    ensures Accepted(b) <==> EveryRunAsserts(WithoutExits(b))
  {
    assert [] + Print(b) == Print(b);
    AcceptedBelowIsExact([], b);
  }

  // With early exits in the language, the promise made of an accepted body holds exactly when no exit can be reached
  // before an assertion: provided the counted loops relied on are firm, as without `break` and `continue` they are.
  lemma PromiseHoldsExactly(b: Block)
    requires Wf(b) && TablesHold(b, {}) && Firm(b, [], map[]) && Accepted(b)
    ensures EveryRunAsserts(b) <==> !QuietOf(b, map[]).test && !QuietOf(b, map[]).round
  {
    RunsAssertIffSilenced(b);
    AcceptedNeverFallsQuiet(b);
  }

  // Without `break` and `continue` only exits from the test matter.
  lemma PromiseWithReturns(b: Block)
    requires Wf(b) && TablesHold(b, {}) && OnlyReturns(b) && Accepted(b)
    ensures EveryRunAsserts(b) <==> !QuietOf(b, map[]).test
  {
    OnlyReturnsIsFirm(b, [], map[]);
    ErasedEndings(b, map[], RoundExits);
    PromiseHoldsExactly(b);
  }
}
