// The commit history of one document, the date its content last changed, and what interleaved author commits and
// tool cycles do to it (scripts/validate/update_all_docs.py).
module StampHistory {
  import opened Wrappers
  import opened Texts
  import opened EditScripts
  import opened Stamps

  type Script = seq<Edit<Line>>

  // A commit's date, and its diff of the document where it can be read.
  datatype Commit = Commit(date: string, diff: Option<Script>)

  // -------------------------------------------------------------------------
  // changed_more_than_the_stamp
  // -------------------------------------------------------------------------

  predicate BeginsWith(line: Line, prefix: string) {
    line.parts != [] && line.parts[0].Plain? && prefix <= line.parts[0].text
  }

  // Diff lines that read like the `---` and `+++` of its header.
  predicate LooksLikeHeader(edit: Edit<Line>) {
    (edit.Del? && BeginsWith(edit.line, "--")) || (edit.Ins? && BeginsWith(edit.line, "++"))
  }

  predicate ShowsContent(edit: Edit<Line>) {
    !edit.Keep? && !LooksLikeHeader(edit) && !WholeStamp(edit.line)
  }

  predicate ChangedMore(commit: Commit) {
    commit.diff.Some? ==> exists edit | edit in commit.diff.value :: ShowsContent(edit)
  }

  method ChangedMoreThanTheStamp(commit: Commit) returns (r: bool)
    ensures r == ChangedMore(commit)
  {
    if commit.diff.None? {
      return true;
    }
    var script := commit.diff.value;
    var i := 0;
    while i < |script|
      invariant 0 <= i <= |script|
      invariant forall k | 0 <= k < i :: !ShowsContent(script[k])
    {
      if ShowsContent(script[i]) {
        return true;
      }
      i := i + 1;
    }
    return false;
  }

  // -------------------------------------------------------------------------
  // git_content_date
  // -------------------------------------------------------------------------

  // The date of the newest commit, by position, that changed more than the stamp.
  function ContentDate(history: seq<Commit>): Option<Date> {
    if history == [] then None
    else if DateShaped(history[0].date) && ChangedMore(history[0]) then Some(history[0].date)
    else ContentDate(history[1..])
  }

  method GitContentDate(history: seq<Commit>) returns (r: Option<Date>)
    ensures r == ContentDate(history)
  {
    var i := 0;
    while i < |history|
      invariant 0 <= i <= |history|
      invariant ContentDate(history[i..]) == ContentDate(history)
    {
      assert history[i..][0] == history[i] && history[i..][1..] == history[i + 1..];
      if DateShaped(history[i].date) {
        var changed := ChangedMoreThanTheStamp(history[i]);
        if changed {
          return Some(history[i].date);
        }
      }
      i := i + 1;
    }
    return None;
  }

  // -------------------------------------------------------------------------
  // What the date ought to be
  // -------------------------------------------------------------------------

  // Some line that is no stamp went in or out, or the diff cannot be read.
  predicate ReallyChanged(commit: Commit) {
    commit.diff.Some? ==> exists edit | edit in commit.diff.value :: !edit.Keep? && !WholeStamp(edit.line)
  }

  // Commit `i` is the newest dated one that really changed the document.
  predicate NewestChange(history: seq<Commit>, i: nat) {
    && i < |history| && DateShaped(history[i].date) && ReallyChanged(history[i])
    && forall j | 0 <= j < i && DateShaped(history[j].date) :: !ReallyChanged(history[j])
  }

  // The commit `git_content_date` stops at, or the length of the history.
  function StopsAt(history: seq<Commit>): (i: nat)
    ensures i <= |history|
  {
    if history == [] || (DateShaped(history[0].date) && ChangedMore(history[0])) then 0 else 1 + StopsAt(history[1..])
  }

  lemma {:induction false} ContentDateIsWhereItStops(history: seq<Commit>)
    ensures var i := StopsAt(history);
            ContentDate(history) == if i < |history| then Some(history[i].date) else None
  {
    if history != [] && !(DateShaped(history[0].date) && ChangedMore(history[0])) {
      ContentDateIsWhereItStops(history[1..]);
    }
  }

  lemma {:induction false} StopIsReal(history: seq<Commit>)
    ensures var i := StopsAt(history);
            && (i < |history| ==> DateShaped(history[i].date) && ChangedMore(history[i]) && ReallyChanged(history[i]))
            && forall j | 0 <= j < i :: !(DateShaped(history[j].date) && ChangedMore(history[j]))
  {
    if history == [] {
    } else if DateShaped(history[0].date) && ChangedMore(history[0]) {
      if history[0].diff.Some? {
        var edit :| edit in history[0].diff.value && ShowsContent(edit);
        assert !edit.Keep? && !WholeStamp(edit.line);
      }
    } else {
      StopIsReal(history[1..]);
      forall j | 0 < j < StopsAt(history) ensures !(DateShaped(history[j].date) && ChangedMore(history[j])) {
        assert history[j] == history[1..][j - 1];
      }
    }
  }

  // A deleted line that opens with two hyphens, or an inserted one that opens with two plus signs.
  predicate ReadsAsHeader(edit: Edit<Line>) {
    var mark := if edit.Del? then '-' else '+';
    && !edit.Keep? && edit.line.parts != [] && edit.line.parts[0].Plain?
    && |edit.line.parts[0].text| >= 2 && edit.line.parts[0].text[0] == edit.line.parts[0].text[1] == mark
  }

  // The content date is the date of the newest real change if and only if that commit's diff cannot be read or some
  // line it really changed does not read like the diff's own header; else the search runs past it to an older commit.
  lemma StopsAtTheNewestChange(history: seq<Commit>, newest: nat)
    requires NewestChange(history, newest)
    ensures var diff := history[newest].diff;
            StopsAt(history) == newest <==>
            diff.None?
            || exists edit | edit in diff.value :: !edit.Keep? && !WholeStamp(edit.line) && !ReadsAsHeader(edit)
    ensures StopsAt(history) >= newest
  {
    var i := StopsAt(history);
    StopIsReal(history);
    var diff := history[newest].diff;
    if diff.None? {
    } else if edit :| edit in diff.value && !edit.Keep? && !WholeStamp(edit.line) && !LooksLikeHeader(edit) {
      assert ShowsContent(edit);
    }
  }

  // No real change, no content date.
  lemma {:induction false} NoRealChangeNoDate(history: seq<Commit>)
    requires forall i | 0 <= i < |history| && DateShaped(history[i].date) :: !ReallyChanged(history[i])
    ensures ContentDate(history) == None
  {
    StopIsReal(history);
    ContentDateIsWhereItStops(history);
  }

  // An author's commit that only takes out a horizontal rule changes the document and leaves its content date alone:
  // a document current until then is never found stale for it.
  lemma RuleRemovalIsNotDated(rule: Line, commit: Commit, history: seq<Commit>)
    requires ReadsAsHeader(Del(rule)) && commit.diff == Some([Del(rule)])
    ensures ReallyChanged(commit) && ContentDate([commit] + history) == ContentDate(history)
  {
    var edit := Del(rule);
    assert edit in commit.diff.value && !WholeStamp(edit.line);
    assert ([commit] + history)[1..] == history;
  }

  // -------------------------------------------------------------------------
  // update_last_updated_dates, for one document
  // -------------------------------------------------------------------------

  // Whether a document's first real stamp is earlier than `date`.
  predicate Outdated(doc: Doc, date: Date) {
    First(doc).Some? && Earlier(First(doc).value, date)
  }

  // Whether the updater moves a document's stamps: its first real stamp is earlier than its content.
  predicate Stale(doc: Doc, history: seq<Commit>) {
    ContentDate(history).Some? && Outdated(doc, ContentDate(history).value)
  }

  function Updated(doc: Doc, history: seq<Commit>): Doc {
    if Stale(doc, history) then Restamped(doc, ContentDate(history).value) else doc
  }

  // Once updated, a document has nothing left to update.
  lemma UpdatedIsSettled(doc: Doc, history: seq<Commit>)
    ensures !Stale(Updated(doc, history), history)
    ensures Updated(Updated(doc, history), history) == Updated(doc, history)
  {
    if Stale(doc, history) {
      var date := ContentDate(history).value;
      FirstRestamped(doc, date, false);
      EarlierIrreflexive(date);
    }
  }

  lemma UpdatedNeverMovesBack(doc: Doc, history: seq<Commit>)
    ensures First(Updated(doc, history)).Some? == First(doc).Some?
    ensures First(doc).Some? && Updated(doc, history) != doc ==>
              Earlier(First(doc).value, First(Updated(doc, history)).value)
  {
    if Stale(doc, history) {
      FirstRestamped(doc, ContentDate(history).value, false);
    }
  }

  // -------------------------------------------------------------------------
  // Tool commits
  // -------------------------------------------------------------------------

  lemma {:induction false} DeletedIs(script: Script, edit: Edit<Line>)
    requires edit in script
    ensures edit.Del? ==> edit.line in Deleted(script)
    ensures edit.Ins? ==> edit.line in Inserted(script)
    decreases |script|
  {
    if script[0] != edit {
      DeletedIs(script[1..], edit);
    }
  }

  lemma {:induction false} DeletionShown(script: Script, line: Line)
    requires line in Deleted(script)
    ensures Del(line) in script
    decreases |script|
  {
    if script[0] != Del(line) {
      DeletionShown(script[1..], line);
    }
  }

  lemma {:induction false} InsertionShown(script: Script, line: Line)
    requires line in Inserted(script)
    ensures Ins(line) in script
    decreases |script|
  {
    if script[0] != Ins(line) {
      InsertionShown(script[1..], line);
    }
  }

  // Whether restamping moves only whole-line stamps.
  predicate MovesOnlyWholeStamps(doc: Doc, date: Date) {
    forall i | 0 <= i < |doc| && Restamped(doc, date)[i] != doc[i] :: WholeStamp(doc[i])
  }

  lemma WholeStampRestamped(line: Line, date: Date)
    ensures WholeStamp(RestampLine(line, date)) == WholeStamp(line)
    ensures forall prefix :: BeginsWith(RestampLine(line, date), prefix) == BeginsWith(line, prefix)
  {
    var moved := RestampLine(line, date);
    forall i | 0 <= i < |line.parts|
      ensures moved.parts[i] == line.parts[i] || (IsStamp(moved.parts[i]) && IsStamp(line.parts[i]))
    {
    }
    if WholeStamp(moved) {
      forall i | 0 < i < |line.parts| ensures line.parts[i].Plain? && Strip(line.parts[i].text) == "" {
        assert moved.parts[i].Plain?;
      }
    }
  }

  // A line cannot be taken for both halves of the diff's header.
  lemma NotBothHeaders(line: Line)
    ensures !(BeginsWith(line, "--") && BeginsWith(line, "++"))
  {
    if BeginsWith(line, "--") {
      assert line.parts[0].text[0] == "--"[0];
    }
  }

  lemma WholeStampsShowNothing(doc: Doc, date: Date, script: Script)
    requires Minimal(script, doc, Restamped(doc, date)) && MovesOnlyWholeStamps(doc, date)
    ensures forall edit | edit in script :: !ShowsContent(edit)
  {
    var r := Restamped(doc, date);
    RestampScript(doc, date, script);
    RestampKeeps(doc, date, false);
    forall edit | edit in script ensures !ShowsContent(edit) {
      DeletedIs(script, edit);
      if edit.Del? {
        var i := ChangedLine(doc, r, edit.line);
      } else if edit.Ins? {
        var i := ChangedLine(r, doc, edit.line);
        WholeStampRestamped(doc[i], date);
      }
    }
  }

  lemma InlineStampsShow(doc: Doc, date: Date, script: Script) returns (edit: Edit<Line>)
    requires Minimal(script, doc, Restamped(doc, date)) && !MovesOnlyWholeStamps(doc, date)
    ensures edit in script && ShowsContent(edit)
  {
    var r := Restamped(doc, date);
    RestampScript(doc, date, script);
    RestampKeeps(doc, date, false);
    var i :| 0 <= i < |doc| && r[i] != doc[i] && !WholeStamp(doc[i]);
    WholeStampRestamped(doc[i], date);
    LineChanged(doc, r, i);
    LineChanged(r, doc, i);
    DeletionShown(script, doc[i]);
    InsertionShown(script, r[i]);
    NotBothHeaders(doc[i]);
    assert BeginsWith(r[i], "++") == BeginsWith(doc[i], "++");
    edit := if BeginsWith(doc[i], "--") then Ins(r[i]) else Del(doc[i]);
  }

  // The commit of a restamp, with any minimal diff, counts as stamp-only exactly when every line it moved is a
  // whole-line stamp.
  lemma RestampCommitIsStampOnly(doc: Doc, date: Date, commit: Commit)
    requires commit.diff.Some? && Minimal(commit.diff.value, doc, Restamped(doc, date))
    ensures ChangedMore(commit) <==> !MovesOnlyWholeStamps(doc, date)
  {
    if MovesOnlyWholeStamps(doc, date) {
      WholeStampsShowNothing(doc, date, commit.diff.value);
    } else {
      var edit := InlineStampsShow(doc, date, commit.diff.value);
    }
  }

  // -------------------------------------------------------------------------
  // Runs
  // -------------------------------------------------------------------------

  // The committed document, the working copy, and the commits, newest first.
  datatype Repo = Repo(head: Doc, work: Doc, history: seq<Commit>)

  // An author commits any document; the tool rewrites the working copy, or commits what it rewrote.
  datatype Step = Author(doc: Doc, commit: Commit) | Apply | ToolCommit(commit: Commit)

  predicate Pending(repo: Repo) {
    repo.work != repo.head
  }

  function Next(repo: Repo, step: Step): Repo {
    match step
    case Author(doc, commit) => Repo(doc, doc, [commit] + repo.history)
    case Apply => repo.(work := Updated(repo.work, repo.history))
    case ToolCommit(commit) =>
      if Pending(repo) then Repo(repo.work, repo.work, [commit] + repo.history) else repo
  }

  // The stamps a restamp of a stale document would move are all whole lines.
  predicate Moderate(doc: Doc, history: seq<Commit>) {
    Stale(doc, history) ==> MovesOnlyWholeStamps(doc, ContentDate(history).value)
  }

  // A step as it can happen: an author's document is moderate, and git's diffs are minimal.
  ghost predicate Allowed(repo: Repo, step: Step) {
    match step
    case Author(doc, commit) => Moderate(doc, [commit] + repo.history)
    case Apply => true
    case ToolCommit(commit) =>
      Pending(repo) ==> commit.diff.Some? && Minimal(commit.diff.value, repo.head, repo.work)
  }

  function After(repo: Repo, steps: seq<Step>): Repo
    decreases |steps|
  {
    if steps == [] then repo else After(Next(repo, steps[0]), steps[1..])
  }

  // A document whose real stamps are all whole lines is moderate under every history.
  lemma WholeStampsAreModerate(doc: Doc, history: seq<Commit>)
    requires WholeStamps(doc)
    ensures Moderate(doc, history)
  {
    if Stale(doc, history) {
      RestampKeeps(doc, ContentDate(history).value, false);
    }
  }

  ghost predicate Run(repo: Repo, steps: seq<Step>)
    decreases |steps|
  {
    steps != [] ==> Allowed(repo, steps[0]) && Run(Next(repo, steps[0]), steps[1..])
  }

  // Between an author's commits the working copy is the committed document or, when that is stale, its restamp to the
  // content date.
  ghost predicate Inv(repo: Repo) {
    && Moderate(repo.head, repo.history)
    && (repo.work == repo.head
        || (Stale(repo.head, repo.history) && repo.work == Restamped(repo.head, ContentDate(repo.history).value)))
  }

  predicate Settled(repo: Repo) {
    !Stale(repo.work, repo.history)
  }

  // A pending tool commit leaves the content date alone, and a settled document.
  lemma PendingCommit(repo: Repo, commit: Commit)
    requires Inv(repo) && Pending(repo) && Allowed(repo, ToolCommit(commit))
    ensures ContentDate([commit] + repo.history) == ContentDate(repo.history)
    ensures !Stale(repo.work, repo.history)
  {
    RestampCommitIsStampOnly(repo.head, ContentDate(repo.history).value, commit);
    assert ([commit] + repo.history)[1..] == repo.history;
    UpdatedIsSettled(repo.head, repo.history);
  }

  lemma StepKeepsInv(repo: Repo, step: Step)
    requires Inv(repo) && Allowed(repo, step)
    ensures Inv(Next(repo, step))
  {
    match step
    case Author(_, _) =>
    case Apply => UpdatedIsSettled(repo.head, repo.history);
    case ToolCommit(commit) =>
      if Pending(repo) {
        PendingCommit(repo, commit);
      }
  }

  // A tool step never changes the date the content last changed, never moves the first stamp back, and leaves the
  // working copy settled or as settled as it was.
  lemma ToolStepConverges(repo: Repo, step: Step)
    requires Inv(repo) && Allowed(repo, step) && !step.Author?
    ensures var next := Next(repo, step);
            && ContentDate(next.history) == ContentDate(repo.history)
            && (First(next.work) == First(repo.work)
                || (First(repo.work).Some? && First(next.work).Some?
                    && Earlier(First(repo.work).value, First(next.work).value)))
            && (step.Apply? || Settled(repo) ==> Settled(next))
            && (Settled(repo) ==> next.work == repo.work)
  {
    match step
    case Apply =>
      UpdatedIsSettled(repo.work, repo.history);
      UpdatedNeverMovesBack(repo.work, repo.history);
    case ToolCommit(commit) =>
      if Pending(repo) {
        PendingCommit(repo, commit);
      }
  }

  function Authors(steps: seq<Step>): nat {
    if steps == [] then 0 else (if steps[0].Author? then 1 else 0) + Authors(steps[1..])
  }

  // How many of the steps are tool applications that change the working copy.
  function Changes(repo: Repo, steps: seq<Step>): nat
    decreases |steps|
  {
    if steps == [] then 0
    else (if steps[0].Apply? && Next(repo, steps[0]) != repo then 1 else 0) + Changes(Next(repo, steps[0]), steps[1..])
  }

  // Over every run, under any interleaving, the tool changes a document at most once per author commit, and at most
  // once more when it found it stale.
  lemma {:induction false} ChangesNeverOutnumberAuthors(repo: Repo, steps: seq<Step>)
    requires Inv(repo) && Run(repo, steps)
    ensures Inv(After(repo, steps))
    ensures Changes(repo, steps) <= Authors(steps) + if Settled(repo) then 0 else 1
    decreases |steps|
  {
    if steps != [] {
      StepKeepsInv(repo, steps[0]);
      if !steps[0].Author? {
        ToolStepConverges(repo, steps[0]);
      }
      ChangesNeverOutnumberAuthors(Next(repo, steps[0]), steps[1..]);
    }
  }

  // From a settled document, tool steps alone, in any number and order, change nothing and date nothing.
  lemma {:induction false} ToolAloneIsStill(repo: Repo, steps: seq<Step>)
    requires Inv(repo) && Run(repo, steps) && Settled(repo) && Authors(steps) == 0
    ensures var end := After(repo, steps);
            end.work == repo.work && ContentDate(end.history) == ContentDate(repo.history)
    decreases |steps|
  {
    if steps != [] {
      StepKeepsInv(repo, steps[0]);
      ToolStepConverges(repo, steps[0]);
      ToolAloneIsStill(Next(repo, steps[0]), steps[1..]);
    }
  }

  // -------------------------------------------------------------------------
  // Tool cycles without an author
  // -------------------------------------------------------------------------

  function ToolCycles(commits: seq<Commit>): seq<Step> {
    if commits == [] then [] else [Apply, ToolCommit(commits[0])] + ToolCycles(commits[1..])
  }

  // How many commits, from the first on, are each dated on a later day than the one before, the first than `from`.
  function Climb(commits: seq<Commit>, from: Date): (n: nat)
    ensures n <= |commits|
  {
    if commits != [] && DateShaped(commits[0].date) && Earlier(from, commits[0].date)
    then 1 + Climb(commits[1..], commits[0].date) else 0
  }

  // Every commit is dated on a later day than the one before.
  predicate Rising(commits: seq<Commit>, from: Date) {
    Climb(commits, from) == |commits|
  }

  // The diffs of a run of tool cycles are git's own.
  ghost predicate Genuine(repo: Repo, commits: seq<Commit>)
    decreases |commits|
  {
    commits != [] ==>
      Allowed(Next(repo, Apply), ToolCommit(commits[0])) && Genuine(Cycle(repo, commits[0]), commits[1..])
  }

  // One tool cycle: the document rewritten and what was rewritten committed.
  function Cycle(repo: Repo, commit: Commit): Repo {
    Next(Next(repo, Apply), ToolCommit(commit))
  }

  // Cycles are taken one by one.
  lemma CyclesUnfold(repo: Repo, commits: seq<Commit>)
    requires commits != []
    ensures var steps, rest, next := ToolCycles(commits), ToolCycles(commits[1..]), Cycle(repo, commits[0]);
            && After(repo, steps) == After(next, rest)
            && Changes(repo, steps) == (if Next(repo, Apply) != repo then 1 else 0) + Changes(next, rest)
            && Authors(steps) == Authors(rest)
  {
    var steps, rest := ToolCycles(commits), ToolCycles(commits[1..]);
    assert steps[1..] == [ToolCommit(commits[0])] + rest && steps[1..][1..] == rest;
  }

  // A settled document, committed, is left as it is by any number of cycles.
  lemma {:induction false} SettledCycles(repo: Repo, commits: seq<Commit>)
    requires repo.work == repo.head && Settled(repo)
    ensures Changes(repo, ToolCycles(commits)) == 0 && After(repo, ToolCycles(commits)) == repo
    decreases |commits|
  {
    if commits != [] {
      CyclesUnfold(repo, commits);
      SettledCycles(repo, commits[1..]);
    }
  }

  // A line moved although it is no whole stamp is moved by the next restamp too.
  lemma MovesAgain(doc: Doc, date: Date, next: Date)
    requires !MovesOnlyWholeStamps(doc, date) && next != date
    ensures !MovesOnlyWholeStamps(Restamped(doc, date), next)
  {
    var r := Restamped(doc, date);
    RestampKeeps(doc, date, false);
    RestampKeeps(r, next, false);
    var i :| 0 <= i < |doc| && r[i] != doc[i] && !WholeStamp(doc[i]);
    WholeStampRestamped(doc[i], date);
    FlagMeansStamp(doc, false, i);
    StampInRestamped(doc[i].parts, date);
    StampInRestamped(r[i].parts, next);
  }

  lemma {:induction false} FlagMeansStamp(doc: Doc, inFence: bool, i: nat)
    requires i < |doc| && Flags(doc, inFence)[i]
    ensures StampIn(doc[i].parts).Some?
    decreases i
  {
    if i > 0 {
      FlagMeansStamp(doc[1..], inFence != doc[0].fence, i - 1);
    }
  }

  // A cycle over a stale document settles it when only whole stamps moved, or when its commit is not dated on a later
  // day than the content; otherwise the document is stale again, at the cycle's own date.
  lemma CycleOfStale(repo: Repo, commit: Commit)
    requires repo.work == repo.head && Stale(repo.head, repo.history)
    requires Allowed(Next(repo, Apply), ToolCommit(commit))
    ensures var date, next := ContentDate(repo.history).value, Cycle(repo, commit);
            var whole := MovesOnlyWholeStamps(repo.head, date);
            && Next(repo, Apply) != repo && next.work == next.head
            && (Settled(next) <==> whole || !DateShaped(commit.date) || !Earlier(date, commit.date))
            && (!Settled(next) ==>
                 ContentDate(next.history) == Some(commit.date) && !MovesOnlyWholeStamps(next.head, commit.date))
  {
    var date := ContentDate(repo.history).value;
    EarlierIrreflexive(date);
    FirstRestamped(repo.head, date, false);
    RestampCommitIsStampOnly(repo.head, date, commit);
    assert ([commit] + repo.history)[1..] == repo.history;
    if !MovesOnlyWholeStamps(repo.head, date) && date != commit.date {
      MovesAgain(repo.head, date, commit.date);
    }
  }

  // Without an author, a stale document settles if and only if the restamp to its content date moves only whole-line
  // stamps, or some cycle is not committed on a later day than the one before. It is changed once in the first case,
  // and otherwise by every cycle up to and with the first that is not.
  lemma {:induction false} CyclesSettleExactly(repo: Repo, commits: seq<Commit>)
    requires repo.work == repo.head && Stale(repo.head, repo.history) && commits != [] && Genuine(repo, commits)
    ensures var date, steps := ContentDate(repo.history).value, ToolCycles(commits);
            var whole, n := MovesOnlyWholeStamps(repo.head, date), Climb(commits, date);
            && Authors(steps) == 0
            && (Settled(After(repo, steps)) <==> whole || !Rising(commits, date))
            && Changes(repo, steps) == (if whole then 1 else if n < |commits| then n + 1 else n)
    decreases |commits|
  {
    var next := Cycle(repo, commits[0]);
    CycleOfStale(repo, commits[0]);
    CyclesUnfold(repo, commits);
    NoAuthors(commits);
    if Settled(next) {
      SettledCycles(next, commits[1..]);
    } else if |commits| > 1 {
      CyclesSettleExactly(next, commits[1..]);
    }
  }

  lemma {:induction false} NoAuthors(commits: seq<Commit>)
    ensures Authors(ToolCycles(commits)) == 0
  {
    if commits != [] {
      CyclesUnfold(Repo([], [], []), commits);
      NoAuthors(commits[1..]);
    }
  }

  // A document whose every real stamp stands inside a longer line.
  predicate InlineStamps(doc: Doc) {
    First(doc).Some? && forall i | 0 <= i < |doc| && Flags(doc, false)[i] :: !WholeStamp(doc[i])
  }

  // In particular, where no stamp is a whole line every tool cycle committed on a later day than the one before counts
  // as an edit, so the next one moves the stamps again, without an author and without end as long as the days go on.
  lemma {:induction false} InlineStampsSettleExactly(repo: Repo, commits: seq<Commit>)
    requires InlineStamps(repo.head) && repo.work == repo.head && Stale(repo.head, repo.history)
    requires Genuine(repo, commits) && commits != []
    ensures var date, steps := ContentDate(repo.history).value, ToolCycles(commits);
            && (Settled(After(repo, steps)) <==> !Rising(commits, date))
            && (Rising(commits, date) ==> Changes(repo, steps) == |commits|)
  {
    var date := ContentDate(repo.history).value;
    var r := Restamped(repo.head, date);
    FirstRestamped(repo.head, date, false);
    EarlierIrreflexive(date);
    RestampKeeps(repo.head, date, false);
    assert r != repo.head;
    var i :| 0 <= i < |r| && r[i] != repo.head[i];
    assert Flags(repo.head, false)[i];
    CyclesSettleExactly(repo, commits);
  }

  // One stamp inside a longer line does no harm while it already carries the content date.
  lemma MixedStampsSettle(past: Date, current: Date, text: string, repo: Repo, commits: seq<Commit>)
    requires Earlier(past, current) && ContentDate(repo.history) == Some(current)
    requires repo.head == [Line(false, [Mark(Bold, " ", past)]), Line(false, [Plain(text), Mark(Bold, " ", current)])]
    requires repo.work == repo.head && commits != [] && Genuine(repo, commits)
    ensures Changes(repo, ToolCycles(commits)) == 1 && Settled(After(repo, ToolCycles(commits)))
  {
    var doc := repo.head;
    RestampKeeps(doc, current, false);
    assert RestampLine(doc[1], current) == doc[1];
    assert MovesOnlyWholeStamps(doc, current);
    CyclesSettleExactly(repo, commits);
  }
}
