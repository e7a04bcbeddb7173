// `_suite_shape` of scripts/validate/validate_cross_document_facts.py, with the `resolve` of `_spec_cases`: every spec
// of the suite counted, and the count held against one made without it.
module JsSuite {
  import opened Windows
  import opened Wrappers
  import opened Texts
  import opened Brackets
  import opened JsWalk
  import opened JsCases
  import opened JsLoops
  import opened JsRuns

  // -------------------------------------------------------------------------
  // What a loop iterates over
  // -------------------------------------------------------------------------

  predicate Letter(c: char) {
    'a' <= c <= 'z' || 'A' <= c <= 'Z' || c == '_' || c == '$'
  }

  predicate IsName(expr: string) {
    expr != "" && Letter(expr[0]) && forall k | 0 <= k < |expr| :: Letter(expr[k]) || '0' <= expr[k] <= '9'
  }

  function Entries(arrays: map<string, nat>, name: string): nat {
    if name in arrays then arrays[name] else 0
  }

  // The entries of an iterable: of a literal written in place, else of the array of that name in the spec, else of the
  // one in the helpers. An array that is absent and one that is empty resolve alike: not at all.
  function Resolved(expr: string, own: map<string, nat>, helpers: map<string, nat>): Option<nat> {
    var literal := LengthOf(expr);
    if literal.Some? then literal
    else if !IsName(expr) then None
    else
      var length := if Entries(own, expr) > 0 then Entries(own, expr) else Entries(helpers, expr);
      if length > 0 then Some(length) else None
  }

  // A literal resolves to its elements whatever arrays there are, and a name only to an array that has entries: the
  // spec's own where it has any.
  lemma {:induction false} ResolvedMeans(
    expr: string, elements: seq<string>, own: map<string, nat>, helpers: map<string, nat>)
    ensures Elements(elements) ==> Resolved("[" + Join(elements) + "]", own, helpers) == Some(|elements|)
    ensures IsName(expr) ==> Resolved(expr, own, helpers) != Some(0)
    ensures IsName(expr) && Entries(own, expr) > 0 ==> Resolved(expr, own, helpers) == Some(own[expr])
    ensures IsName(expr) ==>
      (Resolved(expr, own, helpers).None? <==> Entries(own, expr) == 0 && Entries(helpers, expr) == 0)
  {
    if Elements(elements) {
      LiteralCountsElements(elements);
    }
    if IsName(expr) {
      assert expr[0] != '[' && LengthOf(expr).None?;
    }
  }

  predicate Bracketed(expr: string) {
    |expr| >= 2 && expr[0] == '[' && expr[|expr| - 1] == ']'
  }

  // A letter, `_` or `$`, and then digits too.
  predicate NameText(expr: string) {
    && expr != "" && !('0' <= expr[0] <= '9')
    && forall k | 0 <= k < |expr| ::
         var c := expr[k]; 'a' <= c <= 'z' || 'A' <= c <= 'Z' || '0' <= c <= '9' || c == '_' || c == '$'
  }

  predicate HasEntries(arrays: map<string, nat>, name: string) {
    name in arrays && arrays[name] > 0
  }

  // What can be resolved is bracketed, or the name of an array with entries: the spec's own before the helpers'. A
  // call, a spread, a member of something else is not.
  lemma ResolvesExactly(expr: string, own: map<string, nat>, helpers: map<string, nat>)
    ensures var r := Resolved(expr, own, helpers);
            && (r.Some? <==>
                  Bracketed(expr) || (NameText(expr) && (HasEntries(own, expr) || HasEntries(helpers, expr))))
            && (r.Some? && !Bracketed(expr) ==>
                 r.value == if HasEntries(own, expr) then own[expr] else helpers[expr])
  {
    assert Bracketed(expr) <==> LengthOf(expr).Some?;
    assert IsName(expr) <==> NameText(expr);
  }

  // An iterable as it is written: an array literal by what stands between its commas, or an array's name.
  datatype Iterable = ArrayLiteral(slots: seq<string>) | ArrayName(name: string)

  predicate Blank(text: string) {
    Strip(text) == ""
  }

  // Only behind the last comma may there be nothing.
  predicate WfIterable(it: Iterable) {
    match it
    case ArrayLiteral(slots) => slots != [] && Commaless(slots) && forall k | 0 <= k < |slots| - 1 :: !Blank(slots[k])
    case ArrayName(name) => IsName(name)
  }

  function IterableText(it: Iterable): string {
    match it
    case ArrayLiteral(slots) => "[" + Join(slots) + "]"
    case ArrayName(name) => name
  }

  // How many entries running finds: no element stands behind a trailing comma, and a spec's own array hides the
  // helpers', empty or not.
  function TrueLength(it: Iterable, own: map<string, nat>, helpers: map<string, nat>): Option<nat>
    requires WfIterable(it)
  {
    match it
    case ArrayLiteral(slots) => Some(if Blank(slots[|slots| - 1]) then |slots| - 1 else |slots|)
    case ArrayName(name) =>
      if name in own then Some(own[name]) else if name in helpers then Some(helpers[name]) else None
  }

  // A literal with a trailing comma, or the name of an empty array.
  predicate Misread(it: Iterable, own: map<string, nat>, helpers: map<string, nat>)
    requires WfIterable(it)
  {
    match it
    case ArrayLiteral(slots) => |slots| > 1 && Blank(slots[|slots| - 1])
    case ArrayName(_) => TrueLength(it, own, helpers) == Some(0)
  }

  lemma LiteralRead(slots: seq<string>)
    requires WfIterable(ArrayLiteral(slots))
    ensures LengthOf(IterableText(ArrayLiteral(slots))) == Some(if |slots| == 1 && Blank(slots[0]) then 0 else |slots|)
  {
    if |slots| == 1 && Blank(slots[0]) {
      assert ("[" + slots[0] + "]")[1..|slots[0]| + 1] == slots[0];
    } else {
      JoinNotBlank(slots);
      JoinedLength(slots);
    }
  }

  // An iterable resolves to the entries running finds if and only if it is neither a literal with a trailing comma nor
  // the name of an empty array; and where it resolves to something else, to more.
  lemma ResolvedExactly(it: Iterable, own: map<string, nat>, helpers: map<string, nat>)
    requires WfIterable(it)
    ensures var resolved, entries := Resolved(IterableText(it), own, helpers), TrueLength(it, own, helpers);
            && (resolved == entries <==> !Misread(it, own, helpers))
            && (resolved.Some? ==> entries.Some? && resolved.value >= entries.value)
  {
    match it
    case ArrayLiteral(slots) => LiteralRead(slots);
    case ArrayName(name) => assert name[0] != '[' && LengthOf(name).None?;
  }

  function LengthsOf(own: map<string, nat>, helpers: map<string, nat>): Lengths {
    expr => Resolved(expr, own, helpers)
  }

  // -------------------------------------------------------------------------
  // One spec
  // -------------------------------------------------------------------------

  // A blanked spec: where its `for (` heads and `test(` sites begin, and the arrays it declares.
  datatype Spec = Spec(name: string, text: string, heads: seq<nat>, sites: set<nat>, arrays: map<string, nat>)

  predicate Scanned(spec: Spec) {
    ParensAt(spec.text, spec.heads)
  }

  predicate AllScanned(specs: seq<Spec>) {
    specs == [] || (Scanned(specs[0]) && AllScanned(specs[1..]))
  }

  function CasesOf(spec: Spec, helpers: map<string, nat>): Option<Tally>
    requires Scanned(spec)
  {
    match BodiesFrom(spec.text, spec.heads, map[])
    case Bodies(at) => WalkFrom(Source(spec.text, spec.sites, at), LengthsOf(spec.arrays, helpers), 0, 0, [], NOTHING)
    case Unclosed(_) => None
    case Braceless(_) => None
  }

  // A spec with a loop head that cannot be read cannot be counted.
  lemma UnreadHead(spec: Spec, helpers: map<string, nat>, k: nat)
    requires Scanned(spec) && k < |spec.heads|
    requires var paren := spec.heads[k];
             paren < |spec.text| && spec.text[paren] == '(' && !BodyOf(spec.text, paren).Bodies?
    ensures CasesOf(spec, helpers).None?
  {
    FirstRefusal(spec.text, spec.heads, map[]);
  }

  method CountCases(spec: Spec, helpers: map<string, nat>) returns (tally: Option<Tally>)
    requires Scanned(spec)
    ensures tally == CasesOf(spec, helpers)
  {
    var bodies := LoopBodies(spec.text, spec.heads);
    if !bodies.Bodies? {
      return None;
    }
    tally := SpecCases(Source(spec.text, spec.sites, bodies.at), LengthsOf(spec.arrays, helpers));
  }

  // -------------------------------------------------------------------------
  // The suite
  // -------------------------------------------------------------------------

  datatype Refusal = NoSpecs | Unread(name: string) | ManyLines(name: string) | SitesDisagree | NoCases

  datatype Suite = Shape(cases: nat, lines: map<string, nat>) | Refused(why: Refusal)

  lemma SameKey(m: map<nat, nat>, a: nat, b: nat)
    requires |m| == 1 && a in m && b in m
    ensures a == b
  {
    assert |m.Keys - {a}| == 0;
    assert b == a || b in m.Keys - {a};
  }

  // The line of a spec's one parameterised site, where it has one.
  function Noted(lines: map<string, nat>, name: string, parameterised: map<nat, nat>): map<string, nat>
    requires |parameterised| <= 1
  {
    if |parameterised| == 0 then lines
    else
      assert exists line :: line in parameterised by {
        assert parameterised.Keys != {};
      }
      assert forall a, b | a in parameterised && b in parameterised :: a == b by {
        forall a, b | a in parameterised && b in parameterised ensures a == b {
          SameKey(parameterised, a, b);
        }
      }
      var line :| line in parameterised;
      lines[name := line]
  }

  // A spec's name and its count, if it can be counted.
  datatype Counted = Counted(name: string, tally: Option<Tally>)

  function CountAll(specs: seq<Spec>, helpers: map<string, nat>): seq<Counted>
    requires AllScanned(specs)
  {
    if specs == [] then [] else [Counted(specs[0].name, CasesOf(specs[0], helpers))] + CountAll(specs[1..], helpers)
  }

  lemma CountStep(specs: seq<Spec>, helpers: map<string, nat>)
    requires AllScanned(specs) && specs != []
    ensures var all := CountAll(specs, helpers);
            && all != [] && all[0] == Counted(specs[0].name, CasesOf(specs[0], helpers))
            && all[1..] == CountAll(specs[1..], helpers)
  {
  }

  function ShapeFrom(all: seq<Counted>, independent: nat, cases: nat, sites: nat, lines: map<string, nat>): Suite {
    if all == [] then
      if sites != independent then Refused(SitesDisagree)
      else if cases == 0 then Refused(NoCases)
      else Shape(cases, lines)
    else if all[0].tally.None? then Refused(Unread(all[0].name))
    else
      var Tally(specCases, found, parameterised) := all[0].tally.value;
      if |parameterised| > 1 then Refused(ManyLines(all[0].name))
      else ShapeFrom(all[1..], independent, cases + specCases, sites + found, Noted(lines, all[0].name, parameterised))
  }

  function ShapeOf(all: seq<Counted>, independent: nat): Suite {
    if all == [] then Refused(NoSpecs) else ShapeFrom(all, independent, 0, 0, map[])
  }

  method SuiteShape(specs: seq<Spec>, helpers: map<string, nat>, independent: nat) returns (r: Suite)
    requires AllScanned(specs)
    ensures r == ShapeOf(CountAll(specs, helpers), independent)
  {
    if specs == [] {
      return Refused(NoSpecs);
    }
    var cases: nat, sites: nat := 0, 0;
    var lines: map<string, nat> := map[];
    var rest := specs;
    while rest != []
      invariant AllScanned(rest)
      invariant ShapeFrom(CountAll(rest, helpers), independent, cases, sites, lines)
             == ShapeFrom(CountAll(specs, helpers), independent, 0, 0, map[])
      decreases |rest|
    {
      CountStep(rest, helpers);
      var counted := CountCases(rest[0], helpers);
      if counted.None? {
        return Refused(Unread(rest[0].name));
      }
      cases := cases + counted.value.cases;
      sites := sites + counted.value.found;
      if |counted.value.parameterised| > 1 {
        return Refused(ManyLines(rest[0].name));
      }
      lines := Noted(lines, rest[0].name, counted.value.parameterised);
      rest := rest[1..];
    }
    if sites != independent {
      return Refused(SitesDisagree);
    }
    if cases == 0 {
      return Refused(NoCases);
    }
    return Shape(cases, lines);
  }

  // Every spec was counted, with at most one line whose calls outnumber its sites.
  predicate Legible(all: seq<Counted>) {
    all == [] || (all[0].tally.Some? && |all[0].tally.value.parameterised| <= 1 && Legible(all[1..]))
  }

  function TotalCases(all: seq<Counted>): nat {
    if all == [] then 0 else (if all[0].tally.Some? then all[0].tally.value.cases else 0) + TotalCases(all[1..])
  }

  function TotalFound(all: seq<Counted>): nat {
    if all == [] then 0 else (if all[0].tally.Some? then all[0].tally.value.found else 0) + TotalFound(all[1..])
  }

  lemma {:induction false} ShapeTotals(
    all: seq<Counted>, independent: nat, cases: nat, sites: nat, lines: map<string, nat>)
    ensures var r := ShapeFrom(all, independent, cases, sites, lines);
            && (r.Shape? <==> Legible(all) && sites + TotalFound(all) == independent && cases + TotalCases(all) > 0)
            && (r.Shape? ==> r.cases == cases + TotalCases(all))
    decreases |all|
  {
    if all != [] && all[0].tally.Some? && |all[0].tally.value.parameterised| <= 1 {
      var tally := all[0].tally.value;
      ShapeTotals(all[1..], independent, cases + tally.cases, sites + tally.found,
                  Noted(lines, all[0].name, tally.parameterised));
    }
  }

  // -------------------------------------------------------------------------
  // Refusals and lines
  // -------------------------------------------------------------------------

  predicate LegibleSpec(counted: Counted) {
    counted.tally.Some? && |counted.tally.value.parameterised| <= 1
  }

  lemma {:induction false} RefusedFrom(
    all: seq<Counted>, independent: nat, cases: nat, sites: nat, lines: map<string, nat>, i: nat)
    requires i < |all| && !LegibleSpec(all[i]) && forall k | 0 <= k < i :: LegibleSpec(all[k])
    ensures ShapeFrom(all, independent, cases, sites, lines)
         == Refused(if all[i].tally.None? then Unread(all[i].name) else ManyLines(all[i].name))
    decreases |all|
  {
    if i > 0 {
      var tally := all[0].tally.value;
      RefusedFrom(all[1..], independent, cases + tally.cases, sites + tally.found,
                  Noted(lines, all[0].name, tally.parameterised), i - 1);
    }
  }

  lemma {:induction false} LegibleIsEach(all: seq<Counted>)
    ensures Legible(all) <==> forall k | 0 <= k < |all| :: LegibleSpec(all[k])
    decreases |all|
  {
    if all != [] {
      LegibleIsEach(all[1..]);
      if Legible(all) {
        forall k | 0 <= k < |all| ensures LegibleSpec(all[k]) {
          assert k > 0 ==> all[k] == all[1..][k - 1];
        }
      }
      if forall k | 0 <= k < |all| :: LegibleSpec(all[k]) {
        forall k | 0 <= k < |all[1..]| ensures LegibleSpec(all[1..][k]) {
          assert all[1..][k] == all[k + 1];
        }
      }
    }
  }

  lemma {:induction false} EndsFrom(
    all: seq<Counted>, independent: nat, cases: nat, sites: nat, lines: map<string, nat>)
    requires Legible(all)
    ensures var r := ShapeFrom(all, independent, cases, sites, lines);
            && (sites + TotalFound(all) != independent ==> r == Refused(SitesDisagree))
            && (sites + TotalFound(all) == independent && cases + TotalCases(all) == 0 ==> r == Refused(NoCases))
    decreases |all|
  {
    if all != [] {
      var tally := all[0].tally.value;
      EndsFrom(all[1..], independent, cases + tally.cases, sites + tally.found,
               Noted(lines, all[0].name, tally.parameterised));
    }
  }

  // Why a suite has no shape: no specs; the first spec that cannot be counted or has two lines, by name; else the sites
  // that disagree; else that nothing is called.
  lemma RefusedExactly(all: seq<Counted>, independent: nat)
    ensures all == [] ==> ShapeOf(all, independent) == Refused(NoSpecs)
    ensures forall i | 0 <= i < |all| && !LegibleSpec(all[i]) && (forall k | 0 <= k < i :: LegibleSpec(all[k])) ::
              var why := if all[i].tally.None? then Unread(all[i].name) else ManyLines(all[i].name);
              ShapeOf(all, independent) == Refused(why)
    ensures all != [] && (forall k | 0 <= k < |all| :: LegibleSpec(all[k])) ==>
              && (TotalFound(all) != independent ==> ShapeOf(all, independent) == Refused(SitesDisagree))
              && (TotalFound(all) == independent && TotalCases(all) == 0 ==>
                    ShapeOf(all, independent) == Refused(NoCases))
  {
    forall i | 0 <= i < |all| && !LegibleSpec(all[i]) && forall k | 0 <= k < i :: LegibleSpec(all[k])
      ensures ShapeOf(all, independent)
           == Refused(if all[i].tally.None? then Unread(all[i].name) else ManyLines(all[i].name))
    {
      RefusedFrom(all, independent, 0, 0, map[], i);
    }
    LegibleIsEach(all);
    if Legible(all) {
      EndsFrom(all, independent, 0, 0, map[]);
    }
  }

  // No spec of the list is called `name`.
  predicate Unnamed(all: seq<Counted>, name: string) {
    all == [] || (all[0].name != name && Unnamed(all[1..], name))
  }

  predicate DistinctNames(all: seq<Counted>) {
    all == [] || (Unnamed(all[1..], all[0].name) && DistinctNames(all[1..]))
  }

  lemma {:induction false} LinesStand(
    all: seq<Counted>, independent: nat, cases: nat, sites: nat, lines: map<string, nat>, name: string)
    requires ShapeFrom(all, independent, cases, sites, lines).Shape? && Unnamed(all, name)
    ensures var r := ShapeFrom(all, independent, cases, sites, lines);
            (name in r.lines <==> name in lines) && (name in lines ==> r.lines[name] == lines[name])
    decreases |all|
  {
    if all != [] {
      var tally := all[0].tally.value;
      LinesStand(all[1..], independent, cases + tally.cases, sites + tally.found,
                 Noted(lines, all[0].name, tally.parameterised), name);
    }
  }

  lemma {:induction false} LinesFrom(
    all: seq<Counted>, independent: nat, cases: nat, sites: nat, lines: map<string, nat>, i: nat)
    requires ShapeFrom(all, independent, cases, sites, lines).Shape? && DistinctNames(all) && i < |all|
    requires all[i].name !in lines
    ensures all[i].tally.Some?
    ensures var r, table := ShapeFrom(all, independent, cases, sites, lines), all[i].tally.value.parameterised;
            && (all[i].name in r.lines <==> table != map[])
            && (all[i].name in r.lines ==> r.lines[all[i].name] in table)
    decreases |all|
  {
    var tally := all[0].tally.value;
    var noted := Noted(lines, all[0].name, tally.parameterised);
    if i == 0 {
      LinesStand(all[1..], independent, cases + tally.cases, sites + tally.found, noted, all[0].name);
    } else {
      NameApart(all[1..], all[0].name, i - 1);
      LinesFrom(all[1..], independent, cases + tally.cases, sites + tally.found, noted, i - 1);
    }
  }

  lemma {:induction false} NameApart(all: seq<Counted>, name: string, i: nat)
    requires Unnamed(all, name) && i < |all|
    ensures all[i].name != name
    decreases i
  {
    if i > 0 {
      NameApart(all[1..], name, i - 1);
    }
  }

  // -------------------------------------------------------------------------
  // The suite's count is what running the suite registers
  // -------------------------------------------------------------------------

  // `spec` is the print of `p`, its heads and sites found where they are printed.
  predicate Prints(spec: Spec, p: Nodes) {
    Wf(p) && spec.text == Print(p) && spec.heads == HeadsAt(p, 0) && spec.sites == Sites(p, 0)
  }

  predicate PrintsAll(specs: seq<Spec>, programs: seq<Nodes>) {
    if specs == [] then programs == []
    else programs != [] && Prints(specs[0], programs[0]) && PrintsAll(specs[1..], programs[1..])
  }

  lemma SpecCountsCalls(spec: Spec, p: Nodes, helpers: map<string, nat>)
    requires Prints(spec, p)
    ensures Scanned(spec)
    ensures var lengths, tally := LengthsOf(spec.arrays, helpers), CasesOf(spec, helpers);
            && (tally.None? <==> Unreadable(p, lengths))
            && (tally.Some? ==>
                 && tally.value.cases == |Calls(p, lengths, 0)| && tally.value.found == SiteCount(p)
                 && (|tally.value.parameterised| <= 1 <==> OneRepeatedLine(p, lengths)))
  {
    var lengths := LengthsOf(spec.arrays, helpers);
    LoopBodiesAreFound(p);
    CasesAreCalls(p, lengths);
    if !Unreadable(p, lengths) {
      TableIsOneLine(p, lengths);
    }
    assert Source(spec.text, spec.sites, BodiesAt(p, 0)) == SourceOf(p);
  }

  // The `test` calls of the whole suite as the counter reads its loops, and its call sites.
  function TotalCalls(specs: seq<Spec>, programs: seq<Nodes>, helpers: map<string, nat>): nat
    requires |specs| == |programs|
  {
    if specs == [] then 0
    else |Calls(programs[0], LengthsOf(specs[0].arrays, helpers), 0)| + TotalCalls(specs[1..], programs[1..], helpers)
  }

  function TotalSites(programs: seq<Nodes>): nat {
    if programs == [] then 0 else SiteCount(programs[0]) + TotalSites(programs[1..])
  }

  predicate SomeUnreadable(specs: seq<Spec>, programs: seq<Nodes>, helpers: map<string, nat>)
    requires |specs| == |programs|
  {
    specs != [] && (Unreadable(programs[0], LengthsOf(specs[0].arrays, helpers))
                    || SomeUnreadable(specs[1..], programs[1..], helpers))
  }

  // In each spec the sites called more than once share one line.
  ghost predicate OneLineEach(specs: seq<Spec>, programs: seq<Nodes>, helpers: map<string, nat>)
    requires |specs| == |programs|
  {
    specs == [] || (OneRepeatedLine(programs[0], LengthsOf(specs[0].arrays, helpers))
                    && OneLineEach(specs[1..], programs[1..], helpers))
  }

  lemma {:induction false} CountedAreCalls(specs: seq<Spec>, programs: seq<Nodes>, helpers: map<string, nat>)
    requires PrintsAll(specs, programs)
    ensures |specs| == |programs| && AllScanned(specs)
    ensures var all := CountAll(specs, helpers);
            && (Legible(all) <==> !SomeUnreadable(specs, programs, helpers) && OneLineEach(specs, programs, helpers))
            && (!SomeUnreadable(specs, programs, helpers) ==>
                 TotalCases(all) == TotalCalls(specs, programs, helpers) && TotalFound(all) == TotalSites(programs))
    decreases |specs|
  {
    if specs != [] {
      SpecCountsCalls(specs[0], programs[0], helpers);
      CountedAreCalls(specs[1..], programs[1..], helpers);
      CountStep(specs, helpers);
    }
  }

  lemma {:induction false} CountedAt(
    specs: seq<Spec>, programs: seq<Nodes>, helpers: map<string, nat>, i: nat)
    requires PrintsAll(specs, programs) && AllScanned(specs) && i < |specs|
    ensures |CountAll(specs, helpers)| == |specs| == |programs| && Prints(specs[i], programs[i]) && Scanned(specs[i])
    ensures CountAll(specs, helpers)[i] == Counted(specs[i].name, CasesOf(specs[i], helpers))
    decreases |specs|
  {
    CountStep(specs, helpers);
    if i > 0 {
      CountedAt(specs[1..], programs[1..], helpers, i - 1);
    } else {
      CountedSize(specs, programs, helpers);
    }
  }

  lemma {:induction false} CountedSize(specs: seq<Spec>, programs: seq<Nodes>, helpers: map<string, nat>)
    requires PrintsAll(specs, programs) && AllScanned(specs)
    ensures |CountAll(specs, helpers)| == |specs| == |programs|
    decreases |specs|
  {
    if specs != [] {
      CountStep(specs, helpers);
      CountedSize(specs[1..], programs[1..], helpers);
    }
  }

  // The lines of a shape are those of the specs that have a site called more than once, its loops running as read.
  lemma SuiteNotesLines(specs: seq<Spec>, programs: seq<Nodes>, helpers: map<string, nat>, independent: nat, i: nat)
    requires PrintsAll(specs, programs) && AllScanned(specs) && i < |specs| == |programs|
    requires DistinctNames(CountAll(specs, helpers)) && ShapeOf(CountAll(specs, helpers), independent).Shape?
    ensures var r, lengths := ShapeOf(CountAll(specs, helpers), independent), LengthsOf(specs[i].arrays, helpers);
            var p, name := programs[i], specs[i].name;
            && (name in r.lines <==> exists line :: RepeatsOn(p, lengths, 1, 0, Print(p), line))
            && (name in r.lines ==> RepeatsOn(p, lengths, 1, 0, Print(p), r.lines[name]))
  {
    var lengths, p := LengthsOf(specs[i].arrays, helpers), programs[i];
    CountedAt(specs, programs, helpers, i);
    LinesFrom(CountAll(specs, helpers), independent, 0, 0, map[], i);
    SpecCountsCalls(specs[i], p, helpers);
    SpecTable(specs[i], p, helpers);
  }

  lemma SpecTable(spec: Spec, p: Nodes, helpers: map<string, nat>)
    requires Prints(spec, p) && Scanned(spec) && CasesOf(spec, helpers).Some?
    ensures var table, lengths := CasesOf(spec, helpers).value.parameterised, LengthsOf(spec.arrays, helpers);
            && (forall line :: line in table <==> line >= 0 && RepeatsOn(p, lengths, 1, 0, Print(p), line))
            && (table != map[] <==> exists line: nat :: RepeatsOn(p, lengths, 1, 0, Print(p), line))
  {
    var table, lengths := CasesOf(spec, helpers).value.parameterised, LengthsOf(spec.arrays, helpers);
    SpecCountsCalls(spec, p, helpers);
    LoopBodiesAreFound(p);
    assert Source(spec.text, spec.sites, BodiesAt(p, 0)) == SourceOf(p);
    forall line: nat ensures line in table <==> RepeatsOn(p, lengths, 1, 0, Print(p), line) {
      TableIsRepeats(p, lengths, line);
    }
    if table != map[] {
      assert table.Keys != {};
      var line :| line in table.Keys;
    }
  }

  // The `test` calls that running the suite makes.
  function TotalRuns(programs: seq<Nodes>, runs: seq<Rounds>): nat
    requires |programs| == |runs|
  {
    if programs == [] then 0 else |Runs(programs[0], runs[0], 0)| + TotalRuns(programs[1..], runs[1..])
  }

  function ReadBy(spec: Spec, p: Nodes, helpers: map<string, nat>): Rounds {
    ReadOff(p, LengthsOf(spec.arrays, helpers))
  }

  // No block over a site runs more often than it is read to.
  predicate NoneRunsMore(specs: seq<Spec>, programs: seq<Nodes>, helpers: map<string, nat>, runs: seq<Rounds>)
    requires |specs| == |programs| == |runs|
  {
    specs == [] || (AtLeast(programs[0], ReadBy(specs[0], programs[0], helpers), runs[0], 0)
                    && NoneRunsMore(specs[1..], programs[1..], helpers, runs[1..]))
  }

  // No block over a site runs less often than it is read to.
  predicate NoneRunsLess(specs: seq<Spec>, programs: seq<Nodes>, helpers: map<string, nat>, runs: seq<Rounds>)
    requires |specs| == |programs| == |runs|
  {
    specs == [] || (AtLeast(programs[0], runs[0], ReadBy(specs[0], programs[0], helpers), 0)
                    && NoneRunsLess(specs[1..], programs[1..], helpers, runs[1..]))
  }

  // Each site of the suite stands only in blocks read right, or in one read empty that is.
  predicate AllAgree(specs: seq<Spec>, programs: seq<Nodes>, helpers: map<string, nat>, runs: seq<Rounds>)
    requires |specs| == |programs| == |runs|
  {
    specs == [] || (Agree(programs[0], ReadBy(specs[0], programs[0], helpers), runs[0], 0, true, false)
                    && AllAgree(specs[1..], programs[1..], helpers, runs[1..]))
  }

  lemma {:induction false} TotalsCompare(
    specs: seq<Spec>, programs: seq<Nodes>, helpers: map<string, nat>, runs: seq<Rounds>)
    requires PrintsAll(specs, programs) && |specs| == |programs| == |runs| && !SomeUnreadable(specs, programs, helpers)
    ensures var counted, called := TotalCalls(specs, programs, helpers), TotalRuns(programs, runs);
            && (NoneRunsMore(specs, programs, helpers, runs) ==>
                 Exceeds(counted, called, AllAgree(specs, programs, helpers, runs)))
            && (NoneRunsLess(specs, programs, helpers, runs) ==>
                 Exceeds(called, counted, AllAgree(specs, programs, helpers, runs)))
    decreases |specs|
  {
    if specs != [] {
      var lengths := LengthsOf(specs[0].arrays, helpers);
      CasesAreRuns(programs[0], lengths, runs[0]);
      CasesAreCalls(programs[0], lengths);
      TotalsCompare(specs[1..], programs[1..], helpers, runs[1..]);
    }
  }

  // A suite has a shape if and only if no site lies under a loop that cannot be read, the sites of each spec called
  // more than once share one line, the independent count found every site and some test is called, as the loops are
  // read. Its cases are then at least the calls that running its specs makes where no block over a site runs more often
  // than it is read to, at most those where none runs less often, and in either event exactly those if and only if
  // each site stands only in blocks read right, or in one read empty that is.
  lemma SuiteCountsCalls(specs: seq<Spec>, programs: seq<Nodes>, helpers: map<string, nat>, runs: seq<Rounds>,
                         independent: nat)
    requires PrintsAll(specs, programs) && specs != [] && |runs| == |programs|
    ensures |specs| == |programs| && AllScanned(specs)
    ensures var r, called := ShapeOf(CountAll(specs, helpers), independent), TotalRuns(programs, runs);
            && (r.Shape? <==>
                 && !SomeUnreadable(specs, programs, helpers) && OneLineEach(specs, programs, helpers)
                 && TotalSites(programs) == independent && TotalCalls(specs, programs, helpers) > 0)
            && (r.Shape? && NoneRunsMore(specs, programs, helpers, runs) ==>
                 r.cases >= called && (r.cases == called <==> AllAgree(specs, programs, helpers, runs)))
            && (r.Shape? && NoneRunsLess(specs, programs, helpers, runs) ==>
                 r.cases <= called && (r.cases == called <==> AllAgree(specs, programs, helpers, runs)))
  {
    CountedAreCalls(specs, programs, helpers);
    ShapeTotals(CountAll(specs, helpers), independent, 0, 0, map[]);
    if !SomeUnreadable(specs, programs, helpers) {
      TotalsCompare(specs, programs, helpers, runs);
    }
  }

  // -------------------------------------------------------------------------
  // When loops are read right
  // -------------------------------------------------------------------------

  // The iterable written at each loop's brace.
  type Shapes = nat -> Iterable

  // The arrays a spec's loops can name: its own and the helpers'.
  datatype Arrays = Arrays(own: map<string, nat>, helpers: map<string, nat>)

  // A loop through `text` goes through `it`, once for each entry.
  predicate GoesThrough(text: string, it: Iterable, arrays: Arrays, rounds: nat) {
    WfIterable(it) && text == IterableText(it) && TrueLength(it, arrays.own, arrays.helpers) == Some(rounds)
  }

  predicate ReadRight(it: Iterable, arrays: Arrays) {
    WfIterable(it) && !Misread(it, arrays.own, arrays.helpers)
  }

  // Loops over a site go through literals and named arrays, and other blocks over one run once.
  predicate Written(p: Nodes, shapes: Shapes, arrays: Arrays, rounds: Rounds, at: nat) {
    match p
    case Nil => true
    case Cons(n, rest) =>
      WrittenNode(n, shapes, arrays, rounds, at) && Written(rest, shapes, arrays, rounds, at + |PrintNode(n)|)
  }

  predicate WrittenNode(n: Node, shapes: Shapes, arrays: Arrays, rounds: Rounds, at: nat) {
    match n
    case Text(_) => true
    case Site(_) => true
    case Braces(body) => SiteCount(body) > 0 ==> rounds(at) == 1 && Written(body, shapes, arrays, rounds, at + 1)
    case ForHead(_) => true
    case ForOf(decl, iterable, gap, body) =>
      var brace := at + |Front(decl, iterable, gap)|;
      SiteCount(body) > 0 ==>
        GoesThrough(iterable, shapes(brace), arrays, rounds(brace)) && Written(body, shapes, arrays, rounds, brace + 1)
  }

  function RightAt(shapes: Shapes, arrays: Arrays): nat -> bool {
    (k: nat) => ReadRight(shapes(k), arrays)
  }

  // No loop over a site goes through a literal with a trailing comma or an empty named array.
  predicate NoneMisread(p: Nodes, shapes: Shapes, arrays: Arrays) {
    AllRight(p, RightAt(shapes, arrays), 0)
  }

  lemma LoopFits(text: string, it: Iterable, arrays: Arrays, rounds: nat, lengths: Lengths, right: bool)
    requires GoesThrough(text, it, arrays, rounds) && lengths(text) == Resolved(text, arrays.own, arrays.helpers)
    requires lengths(text).Some? && right == ReadRight(it, arrays)
    ensures Fits(Length(lengths, text), rounds, right)
  {
    ResolvedExactly(it, arrays.own, arrays.helpers);
  }

  // Whatever loop goes through what is written at its brace fits.
  ghost predicate LoopsAreFitting(shapes: Shapes, arrays: Arrays, right: nat -> bool, lengths: Lengths) {
    forall text: string, brace: nat, rounds: nat | GoesThrough(text, shapes(brace), arrays, rounds) ::
      lengths(text).Some? ==> Fits(Length(lengths, text), rounds, right(brace))
  }

  lemma {:induction false} WrittenFits(
    p: Nodes, shapes: Shapes, arrays: Arrays, rounds: Rounds, right: nat -> bool, lengths: Lengths, at: nat)
    requires LoopsAreFitting(shapes, arrays, right, lengths)
    requires Written(p, shapes, arrays, rounds, at) && !Unreadable(p, lengths)
    ensures LoopsFit(p, lengths, rounds, right, at)
    decreases p
  {
    match p
    case Nil =>
    case Cons(n, rest) =>
      WrittenFitsNode(n, shapes, arrays, rounds, right, lengths, at);
      WrittenFits(rest, shapes, arrays, rounds, right, lengths, at + |PrintNode(n)|);
  }

  lemma {:induction false} WrittenFitsNode(
    n: Node, shapes: Shapes, arrays: Arrays, rounds: Rounds, right: nat -> bool, lengths: Lengths, at: nat)
    requires LoopsAreFitting(shapes, arrays, right, lengths)
    requires WrittenNode(n, shapes, arrays, rounds, at) && !UnreadableNode(n, lengths)
    ensures LoopsFitNode(n, lengths, rounds, right, at)
    decreases n
  {
    match n
    case Text(_) =>
    case Site(_) =>
    case Braces(body) =>
      if SiteCount(body) > 0 {
        WrittenFits(body, shapes, arrays, rounds, right, lengths, at + 1);
      }
    case ForHead(_) =>
    case ForOf(decl, iterable, gap, body) =>
      if SiteCount(body) > 0 {
        var brace := at + |Front(decl, iterable, gap)|;
        WrittenFits(body, shapes, arrays, rounds, right, lengths, brace + 1);
        assert GoesThrough(iterable, shapes(brace), arrays, rounds(brace));
      }
  }

  // A readable spec of such loops, none over a site empty, is counted right if and only if no loop over a site goes
  // through a literal with a trailing comma; its count is never too low.
  lemma WrittenSpecIsCounted(spec: Spec, p: Nodes, shapes: Shapes, helpers: map<string, nat>, rounds: Rounds)
    requires Prints(spec, p) && Scanned(spec) && CasesOf(spec, helpers).Some?
    requires Written(p, shapes, Arrays(spec.arrays, helpers), rounds, 0)
    ensures var cases := CasesOf(spec, helpers).value.cases;
            var right := NoneMisread(p, shapes, Arrays(spec.arrays, helpers));
            && cases >= |Runs(p, rounds, 0)|
            && (right ==> cases == |Runs(p, rounds, 0)|)
            && (Busy(p, rounds, 0) && cases == |Runs(p, rounds, 0)| ==> right)
  {
    var lengths, arrays := LengthsOf(spec.arrays, helpers), Arrays(spec.arrays, helpers);
    var right := RightAt(shapes, arrays);
    SpecCountsCalls(spec, p, helpers);
    CasesAreCalls(p, lengths);
    forall text: string, brace: nat, n: nat | GoesThrough(text, shapes(brace), arrays, n) && lengths(text).Some?
      ensures Fits(Length(lengths, text), n, right(brace))
    {
      LoopFits(text, shapes(brace), arrays, n, lengths, right(brace));
    }
    WrittenFits(p, shapes, arrays, rounds, right, lengths, 0);
    FittingCases(p, lengths, rounds, right);
  }

  // One loop over a literal with a trailing comma: the suite is given a case too many.
  lemma TrailingCommaSuite(name: string, decl: string, gap: string, site: string, elements: seq<string>, blank: string)
    requires Elements(elements) && Blank(blank)
    requires var iterable := "[" + (Join(elements) + "," + blank) + "]";
             Wf(Cons(ForOf(decl, iterable, gap, Cons(Site(site), Nil)), Nil))
    ensures var iterable := "[" + (Join(elements) + "," + blank) + "]";
            var p := Cons(ForOf(decl, iterable, gap, Cons(Site(site), Nil)), Nil);
            var specs := [Spec(name, Print(p), HeadsAt(p, 0), Sites(p, 0), map[])];
            && AllScanned(specs)
            && var r := ShapeOf(CountAll(specs, map[]), 1);
               && r.Shape? && r.cases == |elements| + 1
               && |Runs(p, k => |elements|, 0)| == |elements|
  {
    var iterable := "[" + (Join(elements) + "," + blank) + "]";
    var body := Cons(Site(site), Nil);
    var p := Cons(ForOf(decl, iterable, gap, body), Nil);
    var spec := Spec(name, Print(p), HeadsAt(p, 0), Sites(p, 0), map[]);
    TrailingCommaMiscounts(elements, blank);
    OneLoop(decl, iterable, gap, site, LengthsOf(map[], map[]), k => |elements|);
    assert [spec][1..] == [] && [p][1..] == [] && PrintsAll([spec], [p]);
    SuiteCountsCalls([spec], [p], map[], [k => |elements|], 1);
    CountedAreCalls([spec], [p], map[]);
    ShapeTotals(CountAll([spec], map[]), 1, 0, 0, map[]);
  }

  // A spec of one loop around one site.
  lemma OneLoop(decl: string, iterable: string, gap: string, site: string, lengths: Lengths, rounds: Rounds)
    ensures var p, brace := Cons(ForOf(decl, iterable, gap, Cons(Site(site), Nil)), Nil), |Front(decl, iterable, gap)|;
            && SiteCount(p) == 1 && (Unreadable(p, lengths) <==> lengths(iterable).None?)
            && |Calls(p, lengths, 0)| == Length(lengths, iterable) && |Runs(p, rounds, 0)| == rounds(brace)
            && OneRepeatedLine(p, lengths)
  {
    var body := Cons(Site(site), Nil);
    var n := ForOf(decl, iterable, gap, body);
    var p := Cons(n, Nil);
    var brace := |Front(decl, iterable, gap)|;
    assert Calls(body, lengths, brace + 1) == [brace + 1] + [];
    assert Runs(body, rounds, brace + 1) == [brace + 1] + [];
    assert Calls(p, lengths, 0) == CallsNode(n, lengths, 0) + [];
    assert Runs(p, rounds, 0) == RunsNode(n, rounds, 0) + [];
    assert !Unreadable(Nil, lengths) && !UnreadableNode(Site(site), lengths);
    assert SiteCount(body) == 1 && !Unreadable(body, lengths);
    assert Sites(p, 0) == SitesNode(n, 0) + {} && Sites(body, brace + 1) == {brace + 1} + {};
    forall line, line' | RepeatsOn(p, lengths, 1, 0, Print(p), line) && RepeatsOn(p, lengths, 1, 0, Print(p), line')
      ensures line == line'
    {
      var a: nat :| Repeats(p, lengths, 1, 0, Print(p), line, a);
      var b: nat :| Repeats(p, lengths, 1, 0, Print(p), line', b);
      assert a == brace + 1 == b;
    }
  }
}
