# Verified models of the repository's validators

`scripts/validate/` holds hand-written scanners and analysers, and each of them makes a claim about meaning: an
accepted test cannot finish without asserting, a counted suite is the suite that runs, a stamped document settles. This
project states those claims about models of the code and proves them, or proves exactly where they stop.

Methods follow the loops of the scripts and are proved equal to functions; the lemmas are about those functions. What a
regular expression reads off a line or a text (brace counts, the keyword, the offsets of `for (` and `test(`, the markers
of a line) is an input, as is what git, the file system and the executor answer.

## The test-assertion analyser

`TestLines` is the walk over lines, `TestPrograms` a structured language of test bodies (statements, `if` chains, `for`,
`while`, `match`, early exits, bindings) with its layout in lines and its executions. A run is any choice of branches and
arms, any number of rounds of a loop whose list is not known, and the rounds a known list gives.

- Layout is read back: block extents and match arms are the ones printed, so the walk computes a must-analysis of the
  program (`TestLayout`, `TestMust`). It terminates on every body whose blocks nest, where control lines open one block,
  headers over several lines included, no line closes a control line's block but by its leading `}`, and no `else if` is
  closed on its own line; and a chain stalls exactly where it reaches such an `else if`, or one with no line below it
  (`TestTermination`).
- Acceptance is exact: with early exits read as falling through, an accepted body is one that asserts on every run, in
  both directions (`TestExactness`, `TestAcceptance`); what the scans behind it read is said of the lines alone in
  `TestScan`. With `return` and `?` in the language the promise of
  `asserts_on_every_path` is false, and it holds exactly when no exit can be reached before an assertion, the counted
  loops the analysis relied on having no round that can be cut short. `TestLimits` gives the shapes on which the code
  and its promise part.
- The scan of a file reads every test laid out in it, whole (`TestFiles`, `TestFileLayout`, `TestCleanFiles`), over
  lines whose literals the lexer of `RustLexer` has blanked; `RustTokens` proves that lexer faithful on token streams
  over any number of lines.

## The Playwright case counter

`JsBlank` is the length-preserving blanker. `JsWalk` finds the loop bodies and makes the one pass with its stack;
`JsCases` and `JsLoops` prove its count, its refusals and its table of parameterised lines to be those of a run in which
each `for...of` goes round as often as the counter reads it to and every other block runs once. `JsRuns` compares that
with any run: blocks going round as often as they really do, C-style loops and callbacks included, the count is right
exactly when each site stands only in blocks read right. `JsSuite` adds up the specs, and says which iterables are read
right: not a literal with a trailing comma, nor the name of an empty array.

## The stamper and its validator

`Stamps` is the fence-aware rewriter, `EditScripts` a multiset argument over every minimal line diff, `StampHistory` the
commit history as a state machine of author commits, tool runs and tool commits. Without an author a stale document
settles after one change if the restamp to its content date moves only whole lines `**Last Updated**: DATE`, and if not
is changed by every cycle as long as each is committed on a later day than the one before; over every interleaving with
authors the tool converges while their documents are of the first kind. `StampTools` holds the updater object, its log,
the validator with `--fix`, and the exact condition on a document for each tool's approval to imply the other's.

## Smaller companions

`Brackets` and `WriteSites` (the bracket-depth scan and the sites it reads), `Contrast` (WCAG 2.1 success criterion
1.4.3), `VendorConfig` (the two-layer reader under concurrent change), `Changelog` (repeated headings). `Texts`,
`Windows` and `Wrappers` are shared.

## Where code and comments disagree

The models follow the code. `validate_cross_document_facts.py` says at line 452 that a site is counted only after
agreeing and counts it at line 778 before comparing. `validate_changelog_headings.py` says at line 23 that text below the
last release is ignored; its loop reads to the end of the file, which `Changelog.AppendixIsRead` states.
`asserts_on_every_path` says that a `for` never counts; a countable one does. `git_content_date` says that skipping its
own commits converges by construction, and that it dates the last commit that changed the content;
`StampHistory.CyclesSettleExactly` and `StampHistory.StopsAtTheNewestChange` say when. The validator and the updater are
said to agree; `StampTools.ToolsAgreeExactly` says on which documents. `_spec_cases` says that a C-style loop cannot
repeat a `test` call; `JsRuns.CStyleCountsOnce` is one that does. `read_layered` promises the file in force;
`VendorConfig.NeverMisledExactly` says when files changing under the call leave that true. `TestLimits` holds the other
promises that fail.

## Model

| member | source | states |
|---|---|---|
| TestLines.BlockExtent | scripts/validate/validate_test_assertions.py:335-375 | the line search for a block's close, equal to the function the layout lemmas are about |
| TestLines.SplitArms | scripts/validate/validate_test_assertions.py:378-395 | the arms cut at depth zero, equal to the function the layout lemmas are about |
| TestLines.LoopRunsACountableNumberOfTimes | scripts/validate/validate_test_assertions.py:173-211 | a subject in place decides; otherwise the last binding of the name in the block, `mut` rebinds included |
| TestLines.AssertsOnEveryPath | scripts/validate/validate_test_assertions.py:398-468 | the recursive walk, equal to its specification wherever that does not diverge |
| TestScan.ExtentExactly | scripts/validate/validate_test_assertions.py:335-375 | of any text: a header's extent is its own line where it opens braces and leaves none open, else the first line below with a leading `}` above which exactly one is left open, else the last line |
| TestScan.ArmsExactly | scripts/validate/validate_test_assertions.py:378-395 | of any block: arm for arm, an arm starts exactly on an arrow line at depth zero and runs on to the next such line, the depth never falling below zero |
| TestScan.NameIsCountable | scripts/validate/validate_test_assertions.py:173-211 | by the last line binding the name: a list of entries on the line counts, an empty list and any other value do not, and a list that opens there counts exactly when the first line below that is not blank does not begin with `]`; an unbound name does not |
| TestScan.OtherSubjects | scripts/validate/validate_test_assertions.py:173-211 | a list in place counts exactly when it is not empty, and a subject that is neither list nor name never does |
| TestLayout.ExtentIsMatchingLine | scripts/validate/validate_test_assertions.py:335-375 | a header's extent is the line closing its own balanced block, through net-zero `else` lines, struct patterns and headers over several lines |
| TestLayout.ArmsAreTheArmsWritten | scripts/validate/validate_test_assertions.py:378-395 | splitting a printed match gives exactly the arms written, in order |
| TestMust.WalkIsMust | scripts/validate/validate_test_assertions.py:398-468 | on every printed body the walk terminates and answers the must-analysis of the program |
| TestTermination.WalkTerminates | scripts/validate/validate_test_assertions.py:413-467 | the walk terminates on every body whose blocks nest: control lines open one block, there or on further plain lines of the header, or close it on the line, no chained `else if` doing the latter, and beyond its leading `}` a line closes blocks of plain lines only |
| TestTermination.BlocksNest | scripts/validate/validate_test_assertions.py:363-375 | lines whose blocks nest balance their braces |
| TestTermination.ChainStallsExactly | scripts/validate/validate_test_assertions.py:448-461 | the loop over a chain stops advancing if and only if it reaches an `else if` line that closes its own block or is the last line |
| TestTermination.OwnExtent | scripts/validate/validate_test_assertions.py:335-375 | a header's extent is the header itself exactly when its block closes on the line or no line follows |
| TestLimits.ElseIfOnOneLineDiverges | scripts/validate/validate_test_assertions.py:452-461 | a chained `else if` closed on its own line leaves the cursor unmoved: the walk does not terminate, whatever follows |
| TestLimits.CutElseIfDiverges | scripts/validate/validate_test_assertions.py:452-461 | a balanced body cut off in front of the brace of its `else if`: the walk does not terminate |
| TestLimits.TwoClosedAtOnceDiverges | scripts/validate/validate_test_assertions.py:335-461 | a balanced body whose chain and enclosing counted loop close on one line `}}`: the walk does not terminate |
| TestLimits.UncalledClosureIsAccepted | scripts/validate/validate_test_assertions.py:421-428 | a closure that asserts and is never called: accepted, with a silent run |
| TestExactness.RunsAssertIffSilenced | scripts/validate/validate_test_assertions.py:398-411 | a body asserts on every run if and only if its text allows no silent ending of any kind; a silent run is constructed otherwise |
| TestAcceptance.ScanStep | scripts/validate/validate_test_assertions.py:184-199 | "last rebind decides" stays sound for the bindings in force as statements of a block are passed |
| TestAcceptance.ScanBackStep | scripts/validate/validate_test_assertions.py:184-211 | and stays complete for the non-empty lists bound in the loop's own block |
| TestAcceptance.MustSound | scripts/validate/validate_test_assertions.py:398-468 | a body the analysis accepts, its counted loops firm, never falls through in silence, under any bindings the scan agrees with |
| TestAcceptance.MustComplete | scripts/validate/validate_test_assertions.py:398-468 | a body the analysis refuses has a silent ending |
| TestAcceptance.AcceptedIsSound | scripts/validate/validate_test_assertions.py:398-411 | early exits apart, an accepted body asserts on every run |
| TestAcceptance.AcceptedBelowIsSound | scripts/validate/validate_test_assertions.py:398-411 | and so does one accepted below further lines of its signature |
| TestAcceptance.AcceptedIsComplete | scripts/validate/validate_test_assertions.py:398-411 | a body that asserts on every run, whatever its exits, is accepted |
| TestAcceptance.AcceptedIsExact | scripts/validate/validate_test_assertions.py:398-468 | acceptance if and only if every run asserts, exits read as falling through |
| TestAcceptance.AcceptedBelowIsExact | scripts/validate/validate_test_assertions.py:398-468 | and the same below further lines of a signature |
| TestAcceptance.PromiseHoldsExactly | scripts/validate/validate_test_assertions.py:398-411 | with `return`, `break` and `continue` in the language, an accepted body whose counted loops are firm asserts on every run if and only if no exit is reachable before an assertion |
| TestAcceptance.PromiseWithReturns | scripts/validate/validate_test_assertions.py:398-411 | without `break` and `continue` every body is firm, and only exits from the test decide |
| TestLimits.EarlyReturnIsAccepted | scripts/validate/validate_test_assertions.py:421-428 | `if skip { return; }` above an assertion: accepted, with a silent run |
| TestLimits.SkippedRoundsAreAccepted | scripts/validate/validate_test_assertions.py:439-444 | a counted loop whose rounds may all `continue`, so not firm: accepted, with a silent run |
| TestLimits.SplitEmptyListIsAccepted | scripts/validate/validate_test_assertions.py:173-176 | a header `for x in [` whose list closes on the next line, empty: accepted, with a silent run |
| TestLimits.NestedBindingIsAccepted | scripts/validate/validate_test_assertions.py:191-199 | a binding inside an earlier nested block decides though it is no longer in force: accepted, with a silent run |
| TestLimits.SplitMatchHeaderIsRefused | scripts/validate/validate_test_assertions.py:434-437 | a match whose header spans lines yields no arm: refused though it asserts on every run |
| TestFiles.CheckFile | scripts/validate/validate_test_assertions.py:471-525 | the offenders and the number of tests, over the tests of the file in order |
| TestFiles.IsExempt | scripts/validate/validate_test_assertions.py:482-489 | whether a marker stands in the unbroken run of attributes and comments above |
| TestFiles.FindBodyEnd | scripts/validate/validate_test_assertions.py:508-518 | the line on which a body, once entered, is closed, or the last line |
| TestScan.ExemptExactly | scripts/validate/validate_test_assertions.py:482-489 | exempt exactly when some marker line stands above with nothing but attributes and comments from it down |
| TestScan.SignatureExactly | scripts/validate/validate_test_assertions.py:492-499 | the signature is the first line below the attribute that names a function |
| TestScan.BodyEndExactly | scripts/validate/validate_test_assertions.py:508-518 | the body ends on the first line behind which every brace opened since the signature is closed and some was open, and on the last line without one |
| TestFileLayout.EveryTestIsRead | scripts/validate/validate_test_assertions.py:471-525 | the tests found are the tests laid out, signatures over several lines included, each with its own line, name, exemption and whole body; the walk answers on each |
| TestFileLayout.OneLineTestSwallowsNext | scripts/validate/validate_test_assertions.py:508-518 | a test whose body stands on its signature's line is read on to the end of the next test, which is not counted |
| TestCleanFiles.CleanFileAsserts | scripts/validate/validate_test_assertions.py:471-525 | a file without offenders holds no unexempt test that can run to completion having asserted nothing, early exits apart |
| TestCleanFiles.ReportedExactly | scripts/validate/validate_test_assertions.py:471-525 | a test of the file is reported, by its line and name, if and only if it is not exempt and some run of it, exits read as falling through, asserts nothing |
| RustLexer.BlankLiterals | scripts/validate/validate_test_assertions.py:255-332 | the lexer with its state carried from line to line, equal to its specification |
| RustLexer.BlankLine | scripts/validate/validate_test_assertions.py:283-328 | one line read in any of the three states, with the state it leaves |
| RustTokens.CharIsRecognised | scripts/validate/validate_test_assertions.py:321-325 | a character literal is recognised exactly where one character that is neither quote nor backslash, or a backslash and any character, stands between two quotes |
| RustTokens.RawIsRecognised | scripts/validate/validate_test_assertions.py:310-314 | a raw string of so many hashes is recognised exactly where `r`, the hashes and a quote stand with no word character in front |
| RustTokens.LifetimesStand | scripts/validate/validate_test_assertions.py:274-276 | a `'` behind which no `'` stands two characters on, no `'` or backslash between, opens no literal: a lifetime is not one |
| RustTokens.CommentsKeepTheirText | scripts/validate/validate_test_assertions.py:306-308 | a line of comment keeps its text, each brace become a space |
| RustTokens.BlankLiteralsIsFaithful | scripts/validate/validate_test_assertions.py:255-332 | a stream of code, strings, raw strings of any hash count, characters and line comments over any lines comes back with literals emptied, line for line |
| RustTokens.BracesLeftAreCode | scripts/validate/validate_test_assertions.py:255-277 | the braces left on each line are exactly the braces of code |
| JsBlank.BlankJs | scripts/validate/validate_cross_document_facts.py:50-91 | the blanker's loop, equal to its specification, refusals included |
| JsBlank.StringEndIsBody | scripts/validate/validate_cross_document_facts.py:81-88 | a string ends at a quote exactly when what stands before it is a body: escaped characters, and others that are neither backslash nor that quote |
| JsBlank.RefusalNames | scripts/validate/validate_cross_document_facts.py:60-88 | a refused text names what is left open: a comment nothing closes, or the quote, by its offset, of a string nothing closes |
| JsBlank.RefusedIffUnterminated | scripts/validate/validate_cross_document_facts.py:60-62 | refused exactly when the text is no stream of whole comments, strings and characters |
| JsBlank.BlankingKeepsOffsets | scripts/validate/validate_cross_document_facts.py:53-59 | length, newlines and every surviving character stay at their offsets; blanking twice is blanking once |
| JsBlank.BlankingKeepsCode | scripts/validate/validate_cross_document_facts.py:50-91 | every character of code survives at its offset, and none inside a comment or a string does, newlines apart |
| JsWalk.LoopBodies | scripts/validate/validate_cross_document_facts.py:160-187 | the bodies head by head; the first unclosed or braceless head refuses |
| JsWalk.ParenCloseExactly | scripts/validate/validate_cross_document_facts.py:163-173 | the parenthesis found is the one before which all others opened are closed |
| JsWalk.UnclosedExactly | scripts/validate/validate_cross_document_facts.py:163-173 | a head is refused as unclosed exactly when no parenthesis closes its own |
| JsWalk.HeadExactly | scripts/validate/validate_cross_document_facts.py:174-187 | a closed head without ` of ` contributes nothing; with one, the text behind the first is the iterable, trimmed, of the block whose `{` is the next character, and without that `{` the head is refused as braceless |
| JsWalk.FirstRefusal | scripts/validate/validate_cross_document_facts.py:160-187 | the scan of the heads is refused exactly when some head is, and as the first such head is |
| JsWalk.Resolve | scripts/validate/validate_cross_document_facts.py:209-211 | the product of the loops entered, or refusal at the first that does not resolve |
| JsWalk.SpecCases | scripts/validate/validate_cross_document_facts.py:203-224 | the one pass with its stack, equal to its specification |
| JsLoops.LoopBodiesAreFound | scripts/validate/validate_cross_document_facts.py:160-187 | on printed specs the bodies found are the printed loops' bodies, each with its own iterable |
| JsCases.WalkNodes | scripts/validate/validate_cross_document_facts.py:203-224 | through any nested part of a spec the stack is the enclosing loops, outermost first, and the pass adds what the part adds |
| JsCases.AddedIsCalls | scripts/validate/validate_cross_document_facts.py:209-216 | what a part adds is its calls, its loops running as read, times the loops around it; refused exactly when a site in it lies under an unreadable loop |
| JsCases.CasesAreCalls | scripts/validate/validate_cross_document_facts.py:143-224 | `cases` is the number of `test` calls made when each `for...of` runs as often as it is read to and every other block once, `found` the number of sites; refused if and only if some site lies under a loop that does not resolve |
| JsRuns.CasesAreRuns | scripts/validate/validate_cross_document_facts.py:143-224 | against a run with its own rounds for every block: no fewer cases than calls where none over a site runs more often than read, no more where none runs less often, and in either event as many if and only if each site stands only in blocks read right or in one read empty that is |
| JsRuns.RunsAgreeExactly | scripts/validate/validate_cross_document_facts.py:209-216 | of two ways of running, one block by block at least as often as the other, the calls are as many exactly when each site stands in blocks that run equally often or in an idle one |
| JsRuns.FittingCases | scripts/validate/validate_cross_document_facts.py:143-224 | where loops are read never too short, a spec is counted right if each loop over a site is, and only then when every block over a site runs |
| JsRuns.CStyleCountsOnce | scripts/validate/validate_cross_document_facts.py:171-176 | a site in a C-style loop's block is one case, however often the loop runs |
| JsCases.IdleLoopsDoNotMatter | scripts/validate/validate_cross_document_facts.py:151-157 | replacing the iterable of any loop without a site changes neither refusal nor count |
| JsLoops.ParameterisedLinesAreCalls | scripts/validate/validate_cross_document_facts.py:214-215 | a site's line is in the table exactly when the site is called more than once, the loops running as read, with the number of its calls |
| JsLoops.TableIsRepeats | scripts/validate/validate_cross_document_facts.py:214-215 | however many sites share a line, the table's lines are exactly those with a site called more than once, the loops running as read |
| JsSuite.ResolvedMeans | scripts/validate/validate_cross_document_facts.py:189-201 | a literal resolves to its elements; a name to its own array if that has entries, else the helpers', never to nothing |
| JsSuite.ResolvesExactly | scripts/validate/validate_cross_document_facts.py:189-201 | of any text: it resolves if and only if it stands in square brackets or is the name of an array with entries, the spec's own before the helpers' |
| JsSuite.ResolvedExactly | scripts/validate/validate_cross_document_facts.py:189-201 | an iterable resolves to the entries running finds if and only if it is neither a literal with a trailing comma nor the name of an empty array; to more where it resolves otherwise |
| JsSuite.SuiteShape | scripts/validate/validate_cross_document_facts.py:227-260 | each spec counted in turn, the totals, and the refusals in their order |
| JsSuite.UnreadHead | scripts/validate/validate_cross_document_facts.py:160-187 | a spec with a loop head that is refused is not counted |
| JsSuite.RefusedExactly | scripts/validate/validate_cross_document_facts.py:227-260 | refused without specs, by the first spec that cannot be counted or has several parameterised lines, then for a number of sites other than the independent one, then for no case |
| JsSuite.SuiteNotesLines | scripts/validate/validate_cross_document_facts.py:239-245 | of printed specs of different names the table holds exactly those in which some site is called more than once, each with that site's line |
| JsSuite.SuiteCountsCalls | scripts/validate/validate_cross_document_facts.py:227-260 | a shape if and only if no site lies under an unreadable loop, each spec's repeated sites share one line, the independent count found every site and some test is called, as the loops are read; its cases against any run of the suite: no fewer, no more, and equal if and only if each site stands only in blocks read right or in one read empty that is |
| JsSuite.WrittenSpecIsCounted | scripts/validate/validate_cross_document_facts.py:143-224 | a readable spec looping over literals and named arrays is never counted too low, is counted right if no loop over a site is misread, and only then when none is empty |
| JsSuite.TrailingCommaSuite | scripts/validate/validate_cross_document_facts.py:227-260 | a suite of one loop over a literal with a trailing comma gets one case more than running it makes |
| Brackets.LiteralCountsElements | scripts/validate/validate_cross_document_facts.py:94-113 | a literal printed from elements, none blank, counts them, nested commas aside |
| Brackets.TrailingCommaMiscounts | scripts/validate/validate_cross_document_facts.py:94-113 | a trailing comma, whatever blank text follows it, counts one element too many |
| Brackets.LiteralLength | scripts/validate/validate_cross_document_facts.py:94-113 | the separator loop, equal to its specification |
| Brackets.LengthExactly | scripts/validate/validate_cross_document_facts.py:94-114 | of any text: a length only in square brackets, none for white text between them, and else one more than the commas in front of which as many brackets have closed as opened |
| Brackets.Span | scripts/validate/validate_write_sites.py:612-632 | the scan to a terminator, equal to its specification |
| Brackets.SpanIsFirstTerminator | scripts/validate/validate_write_sites.py:612-632 | the scan stops at the first terminator outside every bracket opened since its start |
| Brackets.SpanEmptyExactly | scripts/validate/validate_write_sites.py:618-621 | empty exactly when there is no such terminator or only blank text before the first |
| Brackets.CallReadsBack | scripts/validate/validate_write_sites.py:612-637 | a call printed from balanced arguments gives back its trimmed first argument and its whole argument text, whatever follows |
| WriteSites.SitesIn | scripts/validate/validate_write_sites.py:689-714 | the sites of the matches in order, those kept by their call and program |
| WriteSites.SiteExactly | scripts/validate/validate_write_sites.py:689-714 | a `write_file` call is always a site, an `execute_command` call exactly when its first argument is quoted and names a command that creates files; the site carries that argument, the whole argument text, one more than the newlines in front, and the program without its quotes |
| WriteSites.UnquotedExactly | scripts/validate/validate_write_sites.py:708-708 | unquoting takes off the quotes at both ends and nothing else |
| WriteSites.SitesReadBack | scripts/validate/validate_write_sites.py:689-714 | the sites of printed calls depend on their arguments and lines only, not on line breaks or surroundings |
| WriteSites.CommandsAreSites | scripts/validate/validate_write_sites.py:705-710 | a command written in place is a site exactly when it creates files; a program named by a variable never is |
| EditScripts.MinimalScriptIsThePositionalOne | scripts/validate/update_all_docs.py:85-108 | every minimal script between a text and a line-by-line rewrite deletes and inserts exactly the rewritten lines, duplicates elsewhere notwithstanding |
| Stamps.FirstStamp | scripts/validate/update_all_docs.py:115-139 | the date of the first unfenced stamp |
| Stamps.Restamp | scripts/validate/update_all_docs.py:142-154 | the document with every unfenced stamp moved, and how many lines moved |
| Stamps.FirstExactly | scripts/validate/update_all_docs.py:134-139 | said of the lines alone: the first stamp is the first bold marker of the first line that is no fence, below an even number of fences, and shows one; none without such a line |
| Stamps.RestampedExactly | scripts/validate/update_all_docs.py:142-155 | a part of a line is given the date exactly when it is a bold marker on such a line, and no other changes |
| Stamps.MovedExactly | scripts/validate/update_all_docs.py:142-155 | the number reported is that of the bold markers on such lines |
| Stamps.TextOrderIsDateOrder | scripts/validate/update_all_docs.py:243-244 | comparing dates as text is comparing year, month and day |
| Stamps.RestampKeeps | scripts/validate/update_all_docs.py:115-154 | the same lines are real stamps after a restamp, and no other line changes |
| Stamps.FirstRestamped | scripts/validate/update_all_docs.py:134-154 | the first stamp afterwards is the new date whenever there is a stamp |
| Stamps.RestampTwice | scripts/validate/update_all_docs.py:142-154 | restamping to one date and then another is restamping to the other |
| Stamps.RestampScript | scripts/validate/update_all_docs.py:85-108 | every minimal script between a document and its restamp deletes and inserts exactly the moved stamp lines |
| StampHistory.ChangedMoreThanTheStamp | scripts/validate/update_all_docs.py:88-108 | whether some shown edit is neither a stamp line nor taken for the diff's header; true for an unreadable diff |
| StampHistory.RestampCommitIsStampOnly | scripts/validate/update_all_docs.py:85-108 | under any minimal diff a restamp commit is stamp-only if and only if every line it moved is a whole-line stamp |
| StampHistory.StopsAtTheNewestChange | scripts/validate/update_all_docs.py:85-191 | the content date is that of the newest commit that really changed the document if and only if that diff is unreadable or has a really changed line that does not read like the diff's header; else an older one's |
| StampHistory.NoRealChangeNoDate | scripts/validate/update_all_docs.py:157-191 | a history in which no dated commit changed more than stamps yields no date |
| StampHistory.RuleRemovalIsNotDated | scripts/validate/update_all_docs.py:104-107 | a commit that takes out a `---` line changes the document and leaves its content date alone, whatever came before |
| StampHistory.GitContentDate | scripts/validate/update_all_docs.py:157-191 | the date of the newest commit that changed more than the stamp |
| StampHistory.UpdatedIsSettled | scripts/validate/update_all_docs.py:215-248 | an updated document has nothing left to update |
| StampHistory.StepKeepsInv | scripts/validate/update_all_docs.py:157-191 | every step keeps the working copy equal to the committed document or, when that is stale, its restamp to the content date |
| StampHistory.ToolStepConverges | scripts/validate/update_all_docs.py:157-191 | a tool step never changes the content date, never moves the first stamp back, and keeps a settled document settled and unchanged |
| StampHistory.ChangesNeverOutnumberAuthors | scripts/validate/update_all_docs.py:164-178 | over every interleaving the tool changes a document at most once per author commit, and once more if it began stale |
| StampHistory.ToolAloneIsStill | scripts/validate/update_all_docs.py:164-178 | from a settled document tool steps alone change nothing, in any number and order |
| StampHistory.WholeStampsAreModerate | scripts/validate/update_all_docs.py:85-112 | a document whose real stamps are whole lines is one an author may leave, under every history |
| StampHistory.CyclesSettleExactly | scripts/validate/update_all_docs.py:85-191 | without an author a stale document settles if and only if its restamp moves only whole-line stamps or some tool cycle is not committed on a later day than the one before; it is changed once in the first case, else by every cycle up to and with the first such |
| StampHistory.CycleOfStale | scripts/validate/update_all_docs.py:85-191 | one cycle settles a stale document exactly when only whole stamps move, or its commit has no date or none later than the content's |
| StampHistory.InlineStampsSettleExactly | scripts/validate/update_all_docs.py:85-112 | in particular, with every stamp inside a longer line the document settles exactly when some cycle is not committed on a later day; until then every cycle changes it |
| StampHistory.MixedStampsSettle | scripts/validate/update_all_docs.py:85-112 | a stamp inside a longer line that already carries the content date does not keep the document from settling |
| StampTools.DocumentationUpdater.constructor | scripts/validate/update_all_docs.py:195-199 | the updater starts with no update logged |
| StampTools.DocumentationUpdater.UpdateLastUpdatedDates | scripts/validate/update_all_docs.py:215-248 | the documents after the walk, and the updates logged in order |
| StampTools.VisitedIsUpdated | scripts/validate/update_all_docs.py:215-248 | every document visited is brought up to date once and for all, the others are as they were |
| StampTools.DryRunLogs | scripts/validate/update_all_docs.py:215-248 | a dry run logs a document, with its first stamp and its content date, if and only if it is visited, exists, and its first stamp is earlier |
| StampTools.LogInOrder | scripts/validate/update_all_docs.py:215-248 | the log follows the order of the walk |
| StampTools.SameLog | scripts/validate/update_all_docs.py:243-248 | over different paths the log is the same whether or not the updates are written |
| StampTools.SecondRunIsSilent | scripts/validate/update_all_docs.py:215-248 | a second run over the same history logs nothing and changes nothing |
| StampTools.FindLastUpdatedMarkers | scripts/validate/validate_last_updated.py:86-129 | every unfenced line's first marker with a calendar date, with its line number |
| StampTools.MarkersAreTheLines | scripts/validate/validate_last_updated.py:86-129 | a marker is found exactly when its line, outside fences, shows it |
| StampTools.MarkersExactly | scripts/validate/validate_last_updated.py:86-129 | said of the lines alone: a marker is found exactly on a line that is no fence, below an even number of fences, whose leftmost marker names a day of the calendar |
| StampTools.CalendarExactly | scripts/validate/validate_last_updated.py:124-128 | the dates read are the days of years 1 to 9999 in their one spelling |
| StampTools.CalendarIsGregorian | scripts/validate/validate_last_updated.py:124-128 | the months are as long as in the Gregorian calendar: the days up to the end of each, and 365 or 366 in all |
| StampTools.Validate | scripts/validate/validate_last_updated.py:232-316 | for one document: missing when it shows no marker and is not archived; the stale markers are exactly the found ones earlier than the content, none when archived or unknown to git; `--fix` rewrites their lines |
| StampTools.ToolsAgreeExactly | scripts/validate/validate_last_updated.py:261-290 | at every content date the validator's approval implies the updater's if and only if some marker is no later than the first stamp, and the updater's the validator's if and only if none is earlier |
| StampTools.ToolsAgreeAtEveryDate | scripts/validate/validate_last_updated.py:261-290 | the two agree at every content date if and only if the earliest marker carries the first stamp's date |
| StampTools.CleanMeansNothingProposed | scripts/validate/validate_last_updated.py:261-290 | so where the validator reports no stale marker and the first stamp is legible to it, the updater proposes nothing |
| StampTools.RestampedMarkersAreCurrent | scripts/validate/update_all_docs.py:241-248 | after the updater's rewrite no marker in the stamp's own spelling is stale |
| StampTools.FixLeavesNoneStale | scripts/validate/validate_last_updated.py:197-215 | after `--fix` no marker is stale if and only if each stale one led its line; every line without one is unchanged |
| StampTools.RedatedIs | scripts/validate/validate_last_updated.py:197-215 | `--fix` gives the date to the first date of the line, whatever it belongs to, and changes nothing else |
| StampTools.StaleFooterIsNotUpdated | scripts/validate/update_all_docs.py:134-139 | a document whose footer alone is stale is flagged by the validator and left by the updater |
| StampTools.HiddenStampIsNotFlagged | scripts/validate/validate_last_updated.py:69-76 | a marker in another spelling in front of a stale stamp hides it from the validator |
| Contrast.RatioRange | scripts/validate/validate_contrast.py:141-154 | the ratio is symmetric, lies in [1, 21], and is 1 exactly for equal luminances |
| Contrast.LuminanceWeighs | scripts/validate/validate_contrast.py:141-148 | red, green and blue weigh 0.2126, 0.7152 and 0.0722, add up, and make the curve's own value of a grey |
| Contrast.RatioExactly | scripts/validate/validate_contrast.py:151-154 | the ratio times the darker luminance raised by 0.05 is the lighter one so raised; 21 for black on white |
| Contrast.MixBetween | scripts/validate/validate_contrast.py:214-224 | a composited channel lies between tint and backdrop, rounding included |
| Contrast.OverIsNearest | scripts/validate/validate_contrast.py:214-224 | each composited channel is the integer nearest to alpha times the tint's plus the rest times the backdrop's, ties going to even |
| Contrast.OverIsMonotone | scripts/validate/validate_contrast.py:214-224 | compositing is monotone in the backdrop, channel by channel and in luminance, and exact at both ends of alpha |
| Contrast.ParseThemes | scripts/validate/validate_contrast.py:157-170 | each theme's own tokens over the default's, for every theme with a token |
| Contrast.CollectedExactly | scripts/validate/validate_contrast.py:157-163 | a theme's own tokens are those of its last block that has any |
| Contrast.Measure | scripts/validate/validate_contrast.py:248-312 | the figure is the best surface's; best and worst are named, ties by name, and every surface's figure lies between theirs |
| Contrast.SpansExactly | scripts/validate/validate_contrast.py:297-312 | no surface beats the best or falls below the worst; of equals the best is the last by name and the worst the first |
| Contrast.Check | scripts/validate/validate_contrast.py:315-329 | a pair is a failure, or deferred when its selector is held open, exactly when it fails over every surface of its theme; each list in order |
| Contrast.WeighsFails | scripts/validate/validate_contrast.py:289-299 | the reported figure misses the threshold exactly when every surface's does |
| VendorConfig.CounterpartIsExact | crates/hardener-common/src/vendor_config.rs:40-49 | `/usr/etc/` and the rest for every path `/etc/` and a rest, and none for any other; different for different paths, and itself without one |
| VendorConfig.AnswerNames | crates/hardener-common/src/vendor_config.rs:51-123 | every answer names the path it was read from, its layer, and what stood there at that call: the contents, or why there were none to read |
| VendorConfig.QuietReadIsInForce | crates/hardener-common/src/vendor_config.rs:51-94 | with nothing changing the answer is the configuration in force |
| VendorConfig.NeverMisledExactly | crates/hardener-common/src/vendor_config.rs:51-123 | both layers changing under the call: whatever the admin layer does, what is found or found absent was in force at some instant, if and only if the vendor's contents read, or its absence confirmed, were so already when the admin file was last asked for |
| VendorConfig.InterruptedReadWasInForce | crates/hardener-common/src/vendor_config.rs:51-123 | in particular, with the admin layer alone changing, whatever is found or absent was in force at some instant |
| VendorConfig.AbsentIsConfirmed | crates/hardener-common/src/vendor_config.rs:107-123 | absence is answered only when each layer was confirmed absent |
| VendorConfig.StandingAdminFileIsObeyed | crates/hardener-common/src/vendor_config.rs:53-58 | an admin file that stays, readable or not, is never answered with the vendor's contents |
| VendorConfig.ChangingVendorMisleads | crates/hardener-common/src/vendor_config.rs:59-94 | a vendor file replaced between the second call and the third can be answered without ever having been in force |
| Changelog.DuplicateHeadings | scripts/validate/validate_changelog_headings.py:51-72 | one problem for each repeat, citing its first line; as many as headings less distinct headings over all releases; none exactly when each release's headings are distinct |
| Changelog.ReportedExactly | scripts/validate/validate_changelog_headings.py:51-72 | a problem is reported if and only if it holds of the file: its heading on its line and first on the line it cites, under one release line of its title |
| Changelog.ReportGoesDown | scripts/validate/validate_changelog_headings.py:51-72 | at most one problem a line, from top to bottom |
| Changelog.PendingIsExcess | scripts/validate/validate_changelog_headings.py:57-71 | from any line on, the problems still to come are the repeats of the open release and the excess of the later ones |
| Changelog.MetIsFirst | scripts/validate/validate_changelog_headings.py:63-71 | what is remembered of a heading is its first line in the release |
| Changelog.NoExcess | scripts/validate/validate_changelog_headings.py:51-72 | the excess vanishes exactly when no release carries a heading twice |
| Changelog.PreambleIsIgnored | scripts/validate/validate_changelog_headings.py:61-62 | what stands above the first release is not looked at |
| Changelog.AppendixIsRead | scripts/validate/validate_changelog_headings.py:57-71 | what stands below the last release is read as part of it |

## Left out

- AcceptedIsExact: early exits are read as falling through, because with them the promise is false; `PromiseHoldsExactly` says when it holds. Lists that read as written out must be that list (`TablesHold`), which excludes `[..].iter().filter(..)`, `[x; 0]` and names bound last in a nested block; for completeness no header asserts and every match opens its block on its header line.
- AcceptedIsSound: a name rebound by a pattern or shadowed by a parameter is outside the language, as is a line that both asserts and leaves early.
- WalkIsMust: control constructs begin their own line and close on their own line; `Ok(x) => match y {` and `let v = if c {` are walked flat by the code and are not printed by the model, nor are closures with control lines inside. An arm's `=>` stands on its first line, and a closing line carries no text containing `else`.
- WalkTerminates: a line that closes a control line's block other than by its leading `}` is not covered, since the walk can then diverge, which `TwoClosedAtOnceDiverges` states; nor is a control line that opens two blocks, outside the printed bodies of `WalkIsMust`.
- PromiseHoldsExactly: where a relied-on loop is not firm only the general `RunsAssertIffSilenced` says whether the promise holds.
- RunsAssertIffSilenced: a line that reads as an assertion, unless it is part of a closure or item defined there, is taken to assert when it runs, and `blank_literals` keeps the text of comments: `foo(); // assert!(x)` is accepted by the code and counted as asserting here.
- EveryTestIsRead: the code between tests holds no line that reads as a test attribute, and a signature opens its body at the end of a line; `OneLineTestSwallowsNext` is a test that does not.
- BlankLiteralsIsFaithful: block comments, byte strings with escapes of their own and characters given by longer escapes are not tokens of the model; letters and digits before a raw string are ASCII.
- BlankingKeepsCode: regular expression literals and template literals nested in template literals are read by the code as what they look like; the model's tokens are what the scanner takes them for.
- CasesAreCalls: a spec is printed from parts whose braces balance; headers containing ` of ` before the loop's own are outside the language.
- CasesAreRuns: a block runs equally often each time it is reached; a C-style loop without braces is not a block.
- WrittenSpecIsCounted: spreads and holes in literals are outside the iterables modelled, and an array's entries are taken as `_array_length` finds them.
- ParameterisedLinesAreCalls: the number of calls needs the site to be alone on its line; which lines are in the table, `TableIsRepeats`, does not.
- RestampCommitIsStampOnly: git's diff is taken to be minimal, and a document's lines to be the lines of its diff; merge commits, renames and line endings inside lines are not modelled.
- ChangesNeverOutnumberAuthors: an author leaves no document whose restamp to its content date would move more than whole-line stamps; without that it is false, which `CyclesSettleExactly` states.
- ToolsAgreeExactly: the document shows both a stamp and a marker; without a marker the validator asks for a date instead of comparing one.
- Validate: which files are read, and the order of its report, are not part of this model.
- Measure: pairs come with their colours resolved, exempt selectors gone and theme scoping applied; the browser half is not part of this model.
- RatioRange: arithmetic is over real numbers and the sRGB curve is any monotone curve from 0 to 1.
- The regular expressions themselves, hex and CSS parsing, reading files, git and subprocesses, and printed reports.
- In `validate_cross_document_facts.py`, `_array_length`, the registry of facts and the comparison loop of `main`.
- In `validate_write_sites.py`, the registry, the checkpoint declarations and the flag checks on `cp`.
- In `update_all_docs.py`, the updates other than the stamps; in `validate_contrast.py`, `--explain`.
- White space other than ASCII, which `str.strip` also removes.
