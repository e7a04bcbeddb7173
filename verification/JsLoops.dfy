// The scan for loop bodies and the report of parameterised lines, on printed specs.
module JsLoops {
  import opened Windows
  import opened Wrappers
  import opened Texts
  import opened JsWalk
  import opened JsCases

  // -------------------------------------------------------------------------
  // Loop bodies are found where they are printed
  // -------------------------------------------------------------------------

  lemma {:induction false} ParenCloseShift(text: string, at: nat, part: string, i: nat, depth: int)
    requires At(text, at, part) && i <= |part| && ParenClose(part, i, depth).Some?
    ensures ParenClose(text, at + i, depth) == Some(at + ParenClose(part, i, depth).value)
    decreases |part| - i
  {
    AtEach(text, at, part, i);
    if part[i] == '(' {
      ParenCloseShift(text, at, part, i + 1, depth + 1);
    } else if part[i] == ')' {
      if depth != 1 { ParenCloseShift(text, at, part, i + 1, depth - 1); }
    } else {
      ParenCloseShift(text, at, part, i + 1, depth);
    }
  }

  lemma {:induction false} SpaceRunIs(text: string, at: nat, gap: string)
    requires At(text, at, gap) && (forall c | c in gap :: Space(c))
    requires at + |gap| < |text| && !Space(text[at + |gap|])
    ensures SpaceRun(text, at) == |gap|
    decreases |gap|
  {
    if gap != "" {
      AtRest(text, at, gap);
      assert gap[0] in gap;
      SpaceRunIs(text, at + 1, gap[1..]);
    }
  }

  // What stands at a head: its parenthesis, header and closing parenthesis.
  lemma {:induction false} HeadStands(text: string, at: nat, header: string, closed: string)
    requires closed == header + ")" && At(text, at, "(" + closed) && Paired(header, 0)
    ensures at < |text| && text[at] == '('
    ensures ParenClose(text, at + 1, 1) == Some(at + 1 + |header|) && text[at + 1..at + 1 + |header|] == header
  {
    AtSplit(text, at, "(", closed);
    AtRest(text, at, "(");
    AtSplit(text, at + 1, header, ")");
    AtIs(text, at + 1, header);
    PairedCloses(header);
    ParenCloseShift(text, at + 1, closed, 0, 1);
  }

  lemma LoopStands(text: string, at: nat, header: string, gap: string)
    requires At(text, at, "(" + header + ")" + gap) && Paired(header, 0)
    requires forall c | c in gap :: Space(c)
    requires var brace := at + 2 + |header| + |gap|; brace < |text| && text[brace] == '{'
    ensures at < |text| && text[at] == '(' && ParenClose(text, at + 1, 1) == Some(at + 1 + |header|)
    ensures text[at + 1..at + 1 + |header|] == header && SpaceRun(text, at + 2 + |header|) == |gap|
  {
    AtSplit(text, at, "(" + header + ")", gap);
    Assoc("(", header, ")");
    HeadStands(text, at, header, header + ")");
    SpaceRunIs(text, at + 2 + |header|, gap);
  }

  lemma {:induction false} BodyRead(text: string, paren: nat, header: string, marker: nat, brace: nat)
    requires paren < |text| && text[paren] == '(' && paren + 1 + |header| < |text|
    requires ParenClose(text, paren + 1, 1) == Some(paren + 1 + |header|)
    requires text[paren + 1..paren + 1 + |header|] == header && FindOf(header, 0) == Some(marker)
    requires brace == paren + 2 + |header| + SpaceRun(text, paren + 2 + |header|) < |text| && text[brace] == '{'
    ensures BodyOf(text, paren) == Bodies(map[brace := Strip(header[marker + 4..])])
  {
  }

  lemma BodyOfLoop(text: string, at: nat, decl: string, iterable: string, gap: string, brace: nat)
    requires WfFront(decl, iterable, gap) && At(text, at, Front(decl, iterable, gap))
    requires brace == at + |Front(decl, iterable, gap)| < |text| && text[brace] == '{'
    ensures at < |text| && text[at] == '(' && BodyOf(text, at) == Bodies(map[brace := iterable])
  {
    var header := Header(decl, iterable);
    LoopStands(text, at, header, gap);
    assert header[|decl| + 4..] == iterable && header[|decl|..|decl| + 4] == " of ";
    FirstOf(header, |decl|);
    BodyRead(text, at, header, |decl|, brace);
  }

  lemma {:induction false} BodyOfHead(text: string, at: nat, header: string)
    requires WfNode(ForHead(header)) && At(text, at, "(" + header + ")")
    ensures at < |text| && text[at] == '(' && BodyOf(text, at) == Bodies(map[])
  {
    Assoc("(", header, ")");
    HeadStands(text, at, header, header + ")");
    NotOf(header);
  }

  // Reading `heads` with `so` already found comes to reading `more` with `after` found.
  predicate Comes(text: string, heads: seq<nat>, so: map<nat, string>, more: seq<nat>, after: map<nat, string>) {
    && ParensAt(text, heads) && ParensAt(text, more)
    && BodiesFrom(text, heads, so) == BodiesFrom(text, more, after)
  }

  lemma ComesOn(text: string, heads: seq<nat>, so: map<nat, string>, middle: seq<nat>,
                                   between: map<nat, string>, more: seq<nat>, after: map<nat, string>)
    requires Comes(text, heads, so, middle, between) && Comes(text, middle, between, more, after)
    ensures Comes(text, heads, so, more, after)
  {
  }

  lemma ComesNowhere(text: string, heads: seq<nat>, so: map<nat, string>)
    requires ParensAt(text, heads)
    ensures Comes(text, [] + heads, so, heads, so + map[])
  {
    assert [] + heads == heads && so + map[] == so;
  }

  lemma FirstHead(
    text: string, at: nat, heads: seq<nat>, so: map<nat, string>, own: map<nat, string>)
    requires at < |text| && text[at] == '(' && ParensAt(text, heads) && BodyOf(text, at) == Bodies(own)
    ensures Comes(text, [at] + heads, so, heads, so + own)
  {
    assert ([at] + heads)[0] == at && ([at] + heads)[1..] == heads;
  }

  lemma {:induction false} BodiesFound(text: string, p: Nodes, at: nat, more: seq<nat>, so: map<nat, string>)
    requires Wf(p) && At(text, at, Print(p)) && ParensAt(text, more)
    ensures Comes(text, HeadsAt(p, at) + more, so, more, so + BodiesAt(p, at))
    decreases p, 0
  {
    match p
    case Nil => ComesNowhere(text, more, so);
    case Cons(n, rest) =>
      var next := at + |PrintNode(n)|;
      var middle, between := HeadsAt(rest, next) + more, so + BodiesAtNode(n, at);
      AtSplit(text, at, PrintNode(n), Print(rest));
      BodiesFound(text, rest, next, more, between);
      BodiesFoundNode(text, n, at, middle, so);
      Assoc(HeadsAtNode(n, at), HeadsAt(rest, next), more);
      MapAssoc(so, BodiesAtNode(n, at), BodiesAt(rest, next));
      ComesOn(text, HeadsAt(p, at) + more, so, middle, between, more, so + BodiesAt(p, at));
  }

  lemma MapAssoc(a: map<nat, string>, b: map<nat, string>, c: map<nat, string>)
    ensures a + b + c == a + (b + c)
  {
  }

  lemma {:induction false} BodiesFoundNode(text: string, n: Node, at: nat, more: seq<nat>, so: map<nat, string>)
    requires WfNode(n) && At(text, at, PrintNode(n)) && ParensAt(text, more)
    ensures Comes(text, HeadsAtNode(n, at) + more, so, more, so + BodiesAtNode(n, at))
    decreases n, 1
  {
    match n
    case Text(_) => ComesNowhere(text, more, so);
    case Site(_) => ComesNowhere(text, more, so);
    case Braces(body) =>
      AtSplit3(text, at, "{", Print(body), "}");
      BodiesFound(text, body, at + 1, more, so);
    case ForHead(header) =>
      HeadFound(text, at, header, more, so);
    case ForOf(_, _, _, _) => BodiesFoundFor(text, n, at, more, so);
  }

  lemma {:induction false} BodiesFoundFor(text: string, n: Node, at: nat, more: seq<nat>, so: map<nat, string>)
    requires n.ForOf? && WfNode(n) && At(text, at, PrintNode(n)) && ParensAt(text, more)
    ensures Comes(text, HeadsAtNode(n, at) + more, so, more, so + BodiesAtNode(n, at))
    decreases n, 0
  {
    var brace := at + |Front(n.decl, n.iterable, n.gap)|;
    LoopAt(n, at, brace);
    BodiesFoundLoop(text, n.decl, n.iterable, n.gap, n.body, at, brace, more, so, map[brace := n.iterable]);
  }

  lemma {:induction false} HeadFound(text: string, at: nat, header: string, more: seq<nat>, so: map<nat, string>)
    requires WfNode(ForHead(header)) && At(text, at, "(" + header + ")") && ParensAt(text, more)
    ensures Comes(text, [at] + more, so, more, so + map[])
  {
    BodyOfHead(text, at, header);
    FirstHead(text, at, more, so, map[]);
  }

  lemma {:induction false} LoopAt(n: Node, at: nat, brace: nat)
    requires n.ForOf? && brace == at + |Front(n.decl, n.iterable, n.gap)|
    ensures HeadsAtNode(n, at) == [at] + HeadsAt(n.body, brace + 1)
    ensures BodiesAtNode(n, at) == map[brace := n.iterable] + BodiesAt(n.body, brace + 1)
  {
  }

  lemma LoopHead(
    text: string, at: nat, decl: string, iterable: string, gap: string, brace: nat, heads: seq<nat>,
    so: map<nat, string>, own: map<nat, string>)
    requires WfFront(decl, iterable, gap) && At(text, at, Front(decl, iterable, gap)) && ParensAt(text, heads)
    requires brace == at + |Front(decl, iterable, gap)| < |text| && text[brace] == '{' && own == map[brace := iterable]
    ensures Comes(text, [at] + heads, so, heads, so + own)
  {
    BodyOfLoop(text, at, decl, iterable, gap, brace);
    FirstHead(text, at, heads, so, own);
  }

  lemma {:induction false} BodiesFoundLoop(
    text: string, decl: string, iterable: string, gap: string, body: Nodes, at: nat, brace: nat, more: seq<nat>,
    so: map<nat, string>, own: map<nat, string>)
    requires WfFront(decl, iterable, gap) && Wf(body) && ParensAt(text, more)
    requires At(text, at, Front(decl, iterable, gap) + ("{" + Print(body) + "}"))
    requires brace == at + |Front(decl, iterable, gap)| && own == map[brace := iterable]
    ensures Comes(text, [at] + HeadsAt(body, brace + 1) + more, so, more, so + (own + BodiesAt(body, brace + 1)))
    decreases body, 1
  {
    var inside := HeadsAt(body, brace + 1);
    LoopParts(text, at, Front(decl, iterable, gap), Print(body));
    BodiesFound(text, body, brace + 1, more, so + own);
    LoopHead(text, at, decl, iterable, gap, brace, inside + more, so, own);
    Assoc([at], inside, more);
    MapAssoc(so, own, BodiesAt(body, brace + 1));
    ComesOn(text, [at] + inside + more, so, inside + more, so + own, more, so + (own + BodiesAt(body, brace + 1)));
  }

  lemma LoopParts(text: string, at: nat, front: string, inside: string)
    requires At(text, at, front + ("{" + inside + "}"))
    ensures var brace := at + |front|;
            At(text, at, front) && brace < |text| && text[brace] == '{' && At(text, brace + 1, inside)
  {
    AtSplit(text, at, front, "{" + inside + "}");
    AtSplit3(text, at + |front|, "{", inside, "}");
    AtRest(text, at + |front|, "{");
  }

  // The scan over the `for (` heads finds exactly the loops' bodies, each with its own iterable.
  lemma LoopBodiesAreFound(p: Nodes)
    requires Wf(p)
    ensures ParensAt(Print(p), HeadsAt(p, 0))
    ensures BodiesFrom(Print(p), HeadsAt(p, 0), map[]) == Bodies(SourceOf(p).bodies)
  {
    var text := Print(p);
    AtWhole(text);
    BodiesFound(text, p, 0, [], map[]);
    assert HeadsAt(p, 0) + [] == HeadsAt(p, 0);
    assert map[] + BodiesAt(p, 0) == BodiesAt(p, 0);
  }

  // -------------------------------------------------------------------------
  // Parameterised lines
  // -------------------------------------------------------------------------

  // How many calls come from one site.
  function CallsFrom(p: Nodes, lengths: Lengths, at: nat, site: nat): nat {
    multiset(Calls(p, lengths, at))[site]
  }

  function CallsFromNode(n: Node, lengths: Lengths, at: nat, site: nat): nat {
    multiset(CallsNode(n, lengths, at))[site]
  }

  lemma OneMore(n: nat, k: nat)
    requires n > 0
    ensures n * k == k + (n - 1) * k
  {
  }

  lemma {:induction false} RepeatCount<T>(n: nat, s: seq<T>, x: T)
    ensures multiset(Repeat(n, s))[x] == n * multiset(s)[x]
    decreases n
  {
    if n > 0 {
      var less := Repeat(n - 1, s);
      assert multiset(s + less)[x] == multiset(s)[x] + multiset(less)[x];
      RepeatCount(n - 1, s, x);
      OneMore(n, multiset(s)[x]);
    }
  }

  lemma {:induction false} NoCallFrom(p: Nodes, lengths: Lengths, at: nat, site: nat)
    requires site !in Sites(p, at)
    ensures CallsFrom(p, lengths, at, site) == 0
    decreases p
  {
    match p
    case Nil =>
    case Cons(n, rest) =>
      NoCallFromNode(n, lengths, at, site);
      NoCallFrom(rest, lengths, at + |PrintNode(n)|, site);
  }

  lemma {:induction false} NoCallFromNode(n: Node, lengths: Lengths, at: nat, site: nat)
    requires site !in SitesNode(n, at)
    ensures CallsFromNode(n, lengths, at, site) == 0
    decreases n
  {
    match n
    case Text(_) =>
    case Site(_) =>
    case Braces(body) => NoCallFrom(body, lengths, at + 1, site);
    case ForHead(_) =>
    case ForOf(decl, iterable, gap, body) =>
      var inner := at + |Front(decl, iterable, gap)| + 1;
      NoCallFrom(body, lengths, inner, site);
      LoopCalls(n, lengths, at, inner, site);
  }

  // What the walk leaves in the table at `line` on passing nodes whose sites each count `w` times over: the
  // multiplier of the last site there counting more than once.
  function Entry(p: Nodes, lengths: Lengths, w: nat, at: nat, text: string, line: nat): Option<nat>
    requires at + |Print(p)| <= |text|
  {
    match p
    case Nil => None
    case Cons(n, rest) =>
      var later := Entry(rest, lengths, w, at + |PrintNode(n)|, text, line);
      if later.Some? then later else EntryNode(n, lengths, w, at, text, line)
  }

  function EntryNode(n: Node, lengths: Lengths, w: nat, at: nat, text: string, line: nat): Option<nat>
    requires at + |PrintNode(n)| <= |text|
  {
    match n
    case Text(_) => None
    case Site(_) => if line == LinesBefore(text, at) + 1 && w > 1 then Some(w) else None
    case Braces(body) => Entry(body, lengths, w, at + 1, text, line)
    case ForHead(_) => None
    case ForOf(decl, iterable, gap, body) =>
      Entry(body, lengths, w * Length(lengths, iterable), at + |Front(decl, iterable, gap)| + 1, text, line)
  }

  function Lookup(table: map<nat, nat>, line: nat): Option<nat> {
    if line in table then Some(table[line]) else None
  }

  function Over(entry: Option<nat>, table: map<nat, nat>, line: nat): Option<nat> {
    if entry.Some? then entry else Lookup(table, line)
  }

  lemma {:induction false} AddedEntry(
    p: Nodes, lengths: Lengths, under: seq<string>, at: nat, text: string, tally: Tally, line: nat)
    requires at + |Print(p)| <= |text| && Added(p, lengths, under, at, text, tally).Some?
    ensures Lookup(Added(p, lengths, under, at, text, tally).value.parameterised, line)
         == Over(Entry(p, lengths, Weight(under, lengths), at, text, line), tally.parameterised, line)
    decreases p
  {
    match p
    case Nil =>
    case Cons(n, rest) =>
      AddedEntryNode(n, lengths, under, at, text, tally, line);
      var first := AddedNode(n, lengths, under, at, text, tally).value;
      AddedEntry(rest, lengths, under, at + |PrintNode(n)|, text, first, line);
  }

  lemma {:induction false} AddedEntryNode(
    n: Node, lengths: Lengths, under: seq<string>, at: nat, text: string, tally: Tally, line: nat)
    requires at + |PrintNode(n)| <= |text| && AddedNode(n, lengths, under, at, text, tally).Some?
    ensures Lookup(AddedNode(n, lengths, under, at, text, tally).value.parameterised, line)
         == Over(EntryNode(n, lengths, Weight(under, lengths), at, text, line), tally.parameterised, line)
    decreases n
  {
    match n
    case Text(_) =>
    case Site(_) =>
    case Braces(body) => AddedEntry(body, lengths, under, at + 1, text, tally, line);
    case ForHead(_) =>
    case ForOf(decl, iterable, gap, body) =>
      AddedEntry(body, lengths, under + [iterable], at + |Front(decl, iterable, gap)| + 1, text, tally, line);
      ProductUnder(under, iterable, lengths);
  }

  // The site numbered `site` is the only one of `sites` on its line.
  ghost predicate AloneOnLine(text: string, sites: set<nat>, site: nat) {
    && site <= |text|
    && forall o | o in sites :: o <= |text| && (LinesBefore(text, o) == LinesBefore(text, site) ==> o == site)
  }

  // A multiplier is entered when it is more than one.
  function Worth(multiplier: int): Option<nat> {
    if multiplier > 1 then Some(multiplier) else None
  }

  lemma WorthBoth(w: nat, here: nat, there: nat)
    requires here == 0 || there == 0
    ensures Worth(w * (here + there))
         == if Worth(w * there).Some? then Worth(w * there) else Worth(w * here)
  {
    if here == 0 {
      assert w * here == 0;
    } else {
      assert w * there == 0;
    }
  }

  lemma {:induction false} EntryIsCalls(p: Nodes, lengths: Lengths, w: nat, at: nat, text: string, site: nat)
    requires Wf(p) && at + |Print(p)| <= |text| && AloneOnLine(text, Sites(p, at), site)
    ensures Entry(p, lengths, w, at, text, LinesBefore(text, site) + 1) == Worth(w * CallsFrom(p, lengths, at, site))
    decreases p, 0
  {
    match p
    case Nil =>
    case Cons(n, rest) =>
      var next := at + |PrintNode(n)|;
      OffsetsWithinNode(n, at);
      OffsetsWithin(rest, next);
      EntryIsCallsNode(n, lengths, w, at, text, site);
      EntryIsCalls(rest, lengths, w, next, text, site);
      Apart(n, rest, lengths, at, site);
      WorthBoth(w, CallsFromNode(n, lengths, at, site), CallsFrom(rest, lengths, next, site));
  }

  // A site stands in one part only, so its calls all come from there.
  lemma {:induction false} Apart(n: Node, rest: Nodes, lengths: Lengths, at: nat, site: nat)
    requires WfNode(n) && Wf(rest)
    ensures var next := at + |PrintNode(n)|;
            var here, there := CallsFromNode(n, lengths, at, site), CallsFrom(rest, lengths, next, site);
            CallsFrom(Cons(n, rest), lengths, at, site) == here + there && (here == 0 || there == 0)
  {
    var next := at + |PrintNode(n)|;
    OffsetsWithinNode(n, at);
    OffsetsWithin(rest, next);
    if site in SitesNode(n, at) {
      NoCallFrom(rest, lengths, next, site);
    } else {
      NoCallFromNode(n, lengths, at, site);
    }
  }

  lemma {:induction false} EntryIsCallsNode(n: Node, lengths: Lengths, w: nat, at: nat, text: string, site: nat)
    requires WfNode(n) && at + |PrintNode(n)| <= |text| && AloneOnLine(text, SitesNode(n, at), site)
    ensures EntryNode(n, lengths, w, at, text, LinesBefore(text, site) + 1)
         == Worth(w * CallsFromNode(n, lengths, at, site))
    decreases n, 1
  {
    match n
    case Text(_) =>
    case Site(_) =>
      assert CallsFromNode(n, lengths, at, site) == if site == at then 1 else 0;
    case Braces(body) => EntryIsCalls(body, lengths, w, at + 1, text, site);
    case ForHead(_) =>
    case ForOf(_, _, _, _) => EntryIsCallsLoop(n, lengths, w, at, text, site);
  }

  lemma LoopCalls(n: Node, lengths: Lengths, at: nat, inner: nat, site: nat)
    requires n.ForOf? && inner == at + |Front(n.decl, n.iterable, n.gap)| + 1
    ensures CallsFromNode(n, lengths, at, site) == Length(lengths, n.iterable) * CallsFrom(n.body, lengths, inner, site)
  {
    RepeatCount(Length(lengths, n.iterable), Calls(n.body, lengths, inner), site);
  }

  lemma LoopEntry(n: Node, lengths: Lengths, w: nat, at: nat, inner: nat, text: string, line: nat)
    requires n.ForOf? && inner == at + |Front(n.decl, n.iterable, n.gap)| + 1 && at + |PrintNode(n)| <= |text|
    ensures inner + |Print(n.body)| <= |text|
    ensures EntryNode(n, lengths, w, at, text, line)
         == Entry(n.body, lengths, w * Length(lengths, n.iterable), inner, text, line)
  {
  }

  lemma {:induction false} EntryIsCallsLoop(n: Node, lengths: Lengths, w: nat, at: nat, text: string, site: nat)
    requires n.ForOf? && Wf(n.body) && at + |PrintNode(n)| <= |text| && AloneOnLine(text, SitesNode(n, at), site)
    ensures EntryNode(n, lengths, w, at, text, LinesBefore(text, site) + 1)
         == Worth(w * CallsFromNode(n, lengths, at, site))
    decreases n, 0
  {
    var inner := at + |Front(n.decl, n.iterable, n.gap)| + 1;
    var k := Length(lengths, n.iterable);
    LoopEntry(n, lengths, w, at, inner, text, LinesBefore(text, site) + 1);
    EntryIsCalls(n.body, lengths, w * k, inner, text, site);
    LoopCalls(n, lengths, at, inner, site);
    ScaleTwice(w, k, CallsFrom(n.body, lengths, inner, site));
  }

  // The table of parameterised lines holds a site's line exactly when the site is called more than once, and then
  // holds how often.
  lemma ParameterisedLinesAreCalls(p: Nodes, lengths: Lengths, site: nat)
    requires Wf(p) && !Unreadable(p, lengths) && AloneOnLine(Print(p), Sites(p, 0), site)
    ensures var r := WalkFrom(SourceOf(p), lengths, 0, 0, [], NOTHING);
            var calls := CallsFrom(p, lengths, 0, site);
            && r.Some?
            && Lookup(r.value.parameterised, LinesBefore(Print(p), site) + 1) == Worth(calls)
  {
    var text := Print(p);
    CasesAreCalls(p, lengths);
    WalkPrinted(p, lengths, SourceOf(p));
    var line := LinesBefore(text, site) + 1;
    AddedEntry(p, lengths, [], 0, text, NOTHING, line);
    assert Weight([], lengths) == 1 && Lookup(NOTHING.parameterised, line) == None;
    EntryIsCalls(p, lengths, 1, 0, text, site);
    assert Entry(p, lengths, 1, 0, text, line) == Worth(CallsFrom(p, lengths, 0, site));
  }

  // A site of the part on `line` that is called more than once, when the part runs `w` times.
  ghost predicate Repeats(p: Nodes, lengths: Lengths, w: nat, at: nat, text: string, line: nat, site: nat) {
    && site in Sites(p, at) && site <= |text| && LinesBefore(text, site) + 1 == line
    && w * CallsFrom(p, lengths, at, site) > 1
  }

  ghost predicate RepeatsNode(n: Node, lengths: Lengths, w: nat, at: nat, text: string, line: nat, site: nat) {
    && site in SitesNode(n, at) && site <= |text| && LinesBefore(text, site) + 1 == line
    && w * CallsFromNode(n, lengths, at, site) > 1
  }

  ghost predicate RepeatsOn(p: Nodes, lengths: Lengths, w: nat, at: nat, text: string, line: nat) {
    exists site :: Repeats(p, lengths, w, at, text, line, site)
  }

  ghost predicate RepeatsOnNode(n: Node, lengths: Lengths, w: nat, at: nat, text: string, line: nat) {
    exists site :: RepeatsNode(n, lengths, w, at, text, line, site)
  }

  lemma RepeatsEither(
    n: Node, rest: Nodes, lengths: Lengths, w: nat, at: nat, text: string, line: nat)
    requires WfNode(n) && Wf(rest)
    ensures RepeatsOn(Cons(n, rest), lengths, w, at, text, line) <==>
            RepeatsOnNode(n, lengths, w, at, text, line)
            || RepeatsOn(rest, lengths, w, at + |PrintNode(n)|, text, line)
  {
    if site :| Repeats(Cons(n, rest), lengths, w, at, text, line, site) {
      RepeatsHere(n, rest, lengths, w, at, text, line, site);
    }
    if site :| RepeatsNode(n, lengths, w, at, text, line, site) {
      RepeatsHere(n, rest, lengths, w, at, text, line, site);
    }
    var next := at + |PrintNode(n)|;
    if site :| Repeats(rest, lengths, w, next, text, line, site) {
      RepeatsHere(n, rest, lengths, w, at, text, line, site);
    }
  }

  lemma {:induction false} RepeatsHere(
    n: Node, rest: Nodes, lengths: Lengths, w: nat, at: nat, text: string, line: nat, site: nat)
    requires WfNode(n) && Wf(rest)
    ensures Repeats(Cons(n, rest), lengths, w, at, text, line, site) <==>
            RepeatsNode(n, lengths, w, at, text, line, site)
            || Repeats(rest, lengths, w, at + |PrintNode(n)|, text, line, site)
  {
    var next := at + |PrintNode(n)|;
    OffsetsWithinNode(n, at);
    OffsetsWithin(rest, next);
    Apart(n, rest, lengths, at, site);
    if site in SitesNode(n, at) {
      NoCallFrom(rest, lengths, next, site);
    } else {
      NoCallFromNode(n, lengths, at, site);
    }
  }

  lemma RepeatsLoop(n: Node, lengths: Lengths, w: nat, at: nat, inner: nat, text: string, line: nat)
    requires n.ForOf? && inner == at + |Front(n.decl, n.iterable, n.gap)| + 1
    ensures RepeatsOnNode(n, lengths, w, at, text, line)
       <==> RepeatsOn(n.body, lengths, w * Length(lengths, n.iterable), inner, text, line)
  {
    forall site
      ensures RepeatsNode(n, lengths, w, at, text, line, site)
         <==> Repeats(n.body, lengths, w * Length(lengths, n.iterable), inner, text, line, site)
    {
      LoopCalls(n, lengths, at, inner, site);
      ScaleTwice(w, Length(lengths, n.iterable), CallsFrom(n.body, lengths, inner, site));
    }
  }

  // However many sites share a line, the walk enters it exactly when one of them is called more than once.
  lemma {:induction false} EntryIsRepeats(p: Nodes, lengths: Lengths, w: nat, at: nat, text: string, line: nat)
    requires Wf(p) && at + |Print(p)| <= |text|
    ensures Entry(p, lengths, w, at, text, line).Some? <==> RepeatsOn(p, lengths, w, at, text, line)
    decreases p, 0
  {
    match p
    case Nil =>
    case Cons(n, rest) =>
      EntryIsRepeatsNode(n, lengths, w, at, text, line);
      EntryIsRepeats(rest, lengths, w, at + |PrintNode(n)|, text, line);
      RepeatsEither(n, rest, lengths, w, at, text, line);
  }

  lemma {:induction false} EntryIsRepeatsNode(n: Node, lengths: Lengths, w: nat, at: nat, text: string, line: nat)
    requires WfNode(n) && at + |PrintNode(n)| <= |text|
    ensures EntryNode(n, lengths, w, at, text, line).Some? <==> RepeatsOnNode(n, lengths, w, at, text, line)
    decreases n, 1
  {
    match n
    case Text(_) =>
    case Site(_) =>
      assert CallsFromNode(n, lengths, at, at) == 1;
      assert RepeatsNode(n, lengths, w, at, text, line, at) <==> LinesBefore(text, at) + 1 == line && w > 1;
    case Braces(body) =>
      EntryIsRepeats(body, lengths, w, at + 1, text, line);
      BracesRepeat(n, lengths, w, at, text, line);
    case ForHead(_) =>
    case ForOf(decl, iterable, gap, body) =>
      var inner := at + |Front(decl, iterable, gap)| + 1;
      RepeatsLoop(n, lengths, w, at, inner, text, line);
      EntryIsRepeats(body, lengths, w * Length(lengths, iterable), inner, text, line);
  }

  lemma BracesRepeat(n: Node, lengths: Lengths, w: nat, at: nat, text: string, line: nat)
    requires n.Braces?
    ensures RepeatsOnNode(n, lengths, w, at, text, line) <==> RepeatsOn(n.body, lengths, w, at + 1, text, line)
  {
    if site :| RepeatsNode(n, lengths, w, at, text, line, site) {
      assert Repeats(n.body, lengths, w, at + 1, text, line, site);
    }
    var inner := at + 1;
    if site :| Repeats(n.body, lengths, w, inner, text, line, site) {
      assert RepeatsNode(n, lengths, w, at, text, line, site);
    }
  }

  // The table of parameterised lines is exactly the lines on which some site is called more than once.
  lemma TableIsRepeats(p: Nodes, lengths: Lengths, line: nat)
    requires Wf(p) && !Unreadable(p, lengths)
    ensures var r := WalkFrom(SourceOf(p), lengths, 0, 0, [], NOTHING);
            r.Some? && (line in r.value.parameterised <==> RepeatsOn(p, lengths, 1, 0, Print(p), line))
  {
    var text := Print(p);
    CasesAreCalls(p, lengths);
    WalkPrinted(p, lengths, SourceOf(p));
    AddedEntry(p, lengths, [], 0, text, NOTHING, line);
    assert Weight([], lengths) == 1 && Lookup(NOTHING.parameterised, line) == None;
    EntryIsRepeats(p, lengths, 1, 0, text, line);
  }

  // All sites called more than once stand on one line.
  ghost predicate OneRepeatedLine(p: Nodes, lengths: Lengths) {
    forall a, b | RepeatsOn(p, lengths, 1, 0, Print(p), a) && RepeatsOn(p, lengths, 1, 0, Print(p), b) :: a == b
  }

  lemma AtMostOneKey(table: map<nat, nat>)
    ensures |table| <= 1 <==> forall a, b | a in table && b in table :: a == b
  {
    if |table| > 1 {
      var a :| a in table;
      assert |table.Keys - {a}| > 0;
      var b :| b in table.Keys - {a};
    } else if |table| == 1 {
      forall a, b | a in table && b in table ensures a == b {
        assert |table.Keys - {a}| == 0;
      }
    }
  }

  lemma TableIsOneLine(p: Nodes, lengths: Lengths)
    requires Wf(p) && !Unreadable(p, lengths)
    ensures var r := WalkFrom(SourceOf(p), lengths, 0, 0, [], NOTHING);
            r.Some? && (|r.value.parameterised| <= 1 <==> OneRepeatedLine(p, lengths))
  {
    var r := WalkFrom(SourceOf(p), lengths, 0, 0, [], NOTHING);
    TableIsRepeats(p, lengths, 0);
    var table := r.value.parameterised;
    forall line: nat ensures line in table <==> RepeatsOn(p, lengths, 1, 0, Print(p), line) {
      TableIsRepeats(p, lengths, line);
    }
    AtMostOneKey(table);
  }
}
