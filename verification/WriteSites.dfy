// `sites_in` of scripts/validate/validate_write_sites.py: the file-creating calls of a source file, each with the
// argument text the bracket scan reads.
module WriteSites {
  import opened Windows
  import opened Wrappers
  import opened Texts
  import opened Brackets

  datatype Call = WriteFile | ExecuteCommand

  // A call found in the text: which, where the match begins, and where its parenthesis stands.
  datatype Match = Match(call: Call, at: nat, paren: nat)

  // A registry entry is looked up by a site's call and first argument. `program` is what the argument names in place,
  // `arguments` the call's whole argument text.
  datatype Site = Site(call: Call, argument: string, line: nat, program: string, arguments: string)

  // The commands that materialise a path: `cp`, `mv`, `ln`, `tee`, `touch`, `install` and `dd`.
  type Commands = set<string>

  function Unquoted(text: string): string {
    if text != "" && text[0] == '"' then Unquoted(text[1..])
    else if text != "" && text[|text| - 1] == '"' then Unquoted(text[..|text| - 1])
    else text
  }

  // The program a first argument names in place.
  function Literal(argument: string): Option<string> {
    if argument != "" && argument[0] == '"' then Some(Unquoted(argument)) else None
  }

  // Whether a call creates a file as far as its first argument tells.
  predicate Creates(call: Call, argument: string, creating: Commands) {
    call.ExecuteCommand? ==> Literal(argument).Some? && Literal(argument).value in creating
  }

  // The site a call makes, from its line, its first argument and its whole argument text.
  function SiteOf(call: Call, line: nat, argument: string, arguments: string, creating: Commands): Option<Site> {
    if !Creates(call, argument, creating) then None
    else
      var program := if Literal(argument).Some? then Literal(argument).value else "";
      Some(Site(call, argument, line, program, arguments))
  }

  function Kept(site: Option<Site>): seq<Site> {
    if site.Some? then [site.value] else []
  }

  predicate Stands(text: string, found: Match) {
    found.at <= found.paren < |text|
  }

  predicate AllStand(text: string, matches: seq<Match>) {
    matches == [] || (Stands(text, matches[0]) && AllStand(text, matches[1..]))
  }

  function SiteAt(text: string, found: Match, creating: Commands): Option<Site>
    requires Stands(text, found)
  {
    SiteOf(found.call, LinesBefore(text, found.at) + 1, SpanOf(text, found.paren + 1, ",)"),
           SpanOf(text, found.paren + 1, ")"), creating)
  }

  function SitesFrom(text: string, matches: seq<Match>, creating: Commands): seq<Site>
    requires AllStand(text, matches)
  {
    if matches == [] then [] else Kept(SiteAt(text, matches[0], creating)) + SitesFrom(text, matches[1..], creating)
  }

  method ReadSite(text: string, found: Match, creating: Commands) returns (site: Option<Site>)
    requires Stands(text, found)
    ensures site == SiteAt(text, found, creating)
  {
    var argument := FirstArgument(text, found.paren);
    var literal := Literal(argument);
    if found.call.ExecuteCommand? && (literal.None? || literal.value !in creating) {
      return None;
    }
    var arguments := Span(text, found.paren + 1, ")");
    site := Some(Site(found.call, argument, LinesBefore(text, found.at) + 1,
                      if literal.Some? then literal.value else "", arguments));
  }

  method SitesIn(text: string, matches: seq<Match>, creating: Commands) returns (found: seq<Site>)
    requires AllStand(text, matches)
    ensures found == SitesFrom(text, matches, creating)
  {
    found := [];
    var rest := matches;
    while rest != []
      invariant AllStand(text, rest)
      invariant found + SitesFrom(text, rest, creating) == SitesFrom(text, matches, creating)
      decreases |rest|
    {
      var site := ReadSite(text, rest[0], creating);
      Assoc(found, Kept(site), SitesFrom(text, rest[1..], creating));
      found := found + Kept(site);
      rest := rest[1..];
    }
    assert found + [] == found;
  }

  predicate Quotes(text: string) {
    forall k | 0 <= k < |text| :: text[k] == '"'
  }

  lemma SliceOfRest(text: string, from: nat, to: nat)
    requires from <= to < |text|
    ensures text[1..][from..to] == text[from + 1..to + 1] && text[1..][to..] == text[to + 1..]
  {
    assert forall k | 0 <= k < to - from :: text[1..][from..to][k] == text[from + 1..to + 1][k];
  }

  lemma QuotesBefore(text: string, n: nat)
    requires n < |text| && text[0] == '"' && Quotes(text[1..][..n])
    ensures Quotes(text[..n + 1])
  {
    assert text[..n + 1] == [text[0]] + text[1..][..n];
  }

  lemma QuotesBehind(text: string, n: nat)
    requires n < |text| && text[|text| - 1] == '"' && Quotes(text[..|text| - 1][n..])
    ensures Quotes(text[n..])
  {
    assert text[n..] == text[..|text| - 1][n..] + [text[|text| - 1]];
  }

  // Unquoting takes off the quotes at both ends and nothing else.
  lemma {:induction false} UnquotedExactly(text: string) returns (from: nat, to: nat)
    ensures from <= to <= |text| && Unquoted(text) == text[from..to]
    ensures Quotes(text[..from]) && Quotes(text[to..])
    ensures from < to ==> text[from] != '"' && text[to - 1] != '"'
    decreases |text|
  {
    if text != "" && text[0] == '"' {
      var rest := text[1..];
      from, to := UnquotedExactly(rest);
      QuotesBefore(text, from);
      SliceOfRest(text, from, to);
      from, to := from + 1, to + 1;
    } else if text != "" && text[|text| - 1] == '"' {
      var front := text[..|text| - 1];
      from, to := UnquotedExactly(front);
      assert text[..from] == front[..from] && text[from..to] == front[from..to];
      QuotesBehind(text, to);
    } else {
      from, to := 0, |text|;
    }
  }

  // What a match makes, from the two scans of its text: a file written always makes a site, a command one when it is
  // quoted in place and creates files; and the site says where it stands, what it is called with, and what it names.
  lemma SiteExactly(text: string, found: Match, creating: Commands)
    requires Stands(text, found)
    ensures var argument := SpanOf(text, found.paren + 1, ",)");
            var site := SiteAt(text, found, creating);
            var quoted := argument != "" && argument[0] == '"';
            && (found.call == WriteFile ==> site.Some?)
            && (found.call == ExecuteCommand ==> (site.Some? <==> quoted && Unquoted(argument) in creating))
            && (site.Some? ==>
                  && site.value.call == found.call
                  && site.value.argument == argument
                  && site.value.arguments == SpanOf(text, found.paren + 1, ")")
                  && site.value.line == multiset(text[..found.at])['\n'] + 1
                  && site.value.program == if quoted then Unquoted(argument) else "")
  {
    LinesBeforeCounts(text, found.at);
  }

  // -------------------------------------------------------------------------
  // What is read of printed calls
  // -------------------------------------------------------------------------

  // A call as it is meant: its argument expressions, and the text it stands in up to the call.
  datatype Printed = Printed(call: Call, args: seq<string>)

  predicate WfPrinted(p: Printed) {
    Arguments(p.args)
  }

  function FirstOf(args: seq<string>): string {
    if args == [] then "" else Strip(args[0])
  }

  // Each match is the print of the call in its place, whatever stands between and after them.
  ghost predicate Lays(text: string, matches: seq<Match>, calls: seq<Printed>)
    decreases |matches|
  {
    if matches == [] then calls == []
    else
      && calls != []
      && Stands(text, matches[0]) && WfPrinted(calls[0]) && matches[0].call == calls[0].call
      && At(text, matches[0].paren, "(" + (Join(calls[0].args) + ")"))
      && Lays(text, matches[1..], calls[1..])
  }

  // The site of one printed call, whose match begins on line `line`.
  function PrintedSite(p: Printed, line: nat, creating: Commands): Option<Site> {
    SiteOf(p.call, line, FirstOf(p.args), Strip(Join(p.args)), creating)
  }

  // The sites of calls, by their arguments alone and the lines they begin on.
  function PrintedSites(text: string, matches: seq<Match>, calls: seq<Printed>, creating: Commands): seq<Site>
    requires AllStand(text, matches) && |calls| == |matches|
  {
    if calls == [] then []
    else
      Kept(PrintedSite(calls[0], LinesBefore(text, matches[0].at) + 1, creating))
      + PrintedSites(text, matches[1..], calls[1..], creating)
  }

  // What the two scans read of a call whose parenthesis stands at `paren`.
  predicate ReadsAs(text: string, paren: nat, first: string, whole: string) {
    paren < |text| && SpanOf(text, paren + 1, ",)") == first && SpanOf(text, paren + 1, ")") == whole
  }

  lemma CallReadsAs(text: string, paren: nat, args: seq<string>)
    requires paren < |text| && Arguments(args) && At(text, paren, "(" + (Join(args) + ")"))
    ensures ReadsAs(text, paren, FirstOf(args), Strip(Join(args)))
  {
    CallReadsBack(text, paren, args);
  }

  // A match's site is its call's.
  predicate ReadsOne(text: string, found: Match, p: Printed, creating: Commands) {
    Stands(text, found) && SiteAt(text, found, creating) == PrintedSite(p, LinesBefore(text, found.at) + 1, creating)
  }

  lemma SiteIs(text: string, found: Match, creating: Commands, first: string, whole: string)
    requires Stands(text, found) && ReadsAs(text, found.paren, first, whole)
    ensures SiteAt(text, found, creating) == SiteOf(found.call, LinesBefore(text, found.at) + 1, first, whole, creating)
  {
  }

  lemma SiteReadsBack(text: string, found: Match, p: Printed, creating: Commands)
    requires Stands(text, found) && found.call == p.call && WfPrinted(p)
    requires At(text, found.paren, "(" + (Join(p.args) + ")"))
    ensures ReadsOne(text, found, p, creating)
  {
    CallReadsAs(text, found.paren, p.args);
    SiteIs(text, found, creating, FirstOf(p.args), Strip(Join(p.args)));
  }

  predicate ReadsEach(text: string, matches: seq<Match>, calls: seq<Printed>, creating: Commands) {
    if matches == [] then calls == []
    else
      && calls != [] && ReadsOne(text, matches[0], calls[0], creating)
      && ReadsEach(text, matches[1..], calls[1..], creating)
  }

  lemma {:induction false} EachReadsBack(text: string, matches: seq<Match>, calls: seq<Printed>, creating: Commands)
    requires Lays(text, matches, calls)
    ensures ReadsEach(text, matches, calls, creating)
    decreases |matches|
  {
    if matches != [] {
      SiteReadsBack(text, matches[0], calls[0], creating);
      EachReadsBack(text, matches[1..], calls[1..], creating);
    }
  }

  lemma {:induction false} SitesJoin(text: string, matches: seq<Match>, calls: seq<Printed>, creating: Commands)
    requires ReadsEach(text, matches, calls, creating)
    ensures AllStand(text, matches) && |matches| == |calls|
    ensures SitesFrom(text, matches, creating) == PrintedSites(text, matches, calls, creating)
    decreases |matches|
  {
    if matches != [] {
      SitesJoin(text, matches[1..], calls[1..], creating);
    }
  }

  // Every call is read back from its own print, so its site depends on its arguments and its line only: not on how the
  // call is broken over lines, nor on anything around it.
  lemma SitesReadBack(
    text: string, matches: seq<Match>, calls: seq<Printed>, creating: Commands)
    requires Lays(text, matches, calls)
    ensures AllStand(text, matches) && |matches| == |calls|
    ensures SitesFrom(text, matches, creating) == PrintedSites(text, matches, calls, creating)
  {
    EachReadsBack(text, matches, calls, creating);
    SitesJoin(text, matches, calls, creating);
  }

  predicate NoQuoteAtEnds(word: string) {
    word != "" ==> word[0] != '"' && word[|word| - 1] != '"'
  }

  // A command written in place is a site exactly when it is one that creates files; one named otherwise never is.
  lemma CommandsAreSites(word: string, line: nat, arguments: string, creating: Commands)
    requires NoQuoteAtEnds(word)
    ensures SiteOf(ExecuteCommand, line, "\"" + word + "\"", arguments, creating).Some? <==> word in creating
    ensures SiteOf(ExecuteCommand, line, word, arguments, creating).None?
  {
    var quoted := "\"" + word + "\"";
    assert quoted[1..] == word + "\"";
    var open := word + "\"";
    if word == "" {
      assert Unquoted(open) == Unquoted(open[1..]) == "";
    } else {
      assert open[0] == word[0] && open[|open| - 1] == '"' && open[..|open| - 1] == word;
      assert Unquoted(open) == Unquoted(word) == word;
    }
    assert Literal(quoted) == Some(word);
  }
}
