// Spec programs, the calls the counter takes running them to make, and the one-pass count proved equal to that. What
// running them really makes is `JsRuns`.
module JsCases {
  import opened Windows
  import opened Wrappers
  import opened Texts
  import opened JsWalk

  datatype Node =
    | Text(text: string)
    | Site(text: string)                                                   // a `test(` call site and its line start
    | Braces(body: Nodes)
    | ForHead(header: string)                                              // a C-style head; its block follows
    | ForOf(decl: string, iterable: string, gap: string, body: Nodes)

  datatype Nodes = Nil | Cons(head: Node, tail: Nodes)

  function Header(decl: string, iterable: string): string {
    decl + " of " + iterable
  }

  // Everything a loop prints before the brace of its body.
  function Front(decl: string, iterable: string, gap: string): string {
    "(" + Header(decl, iterable) + ")" + gap
  }

  function Print(p: Nodes): string {
    match p
    case Nil => ""
    case Cons(n, rest) => PrintNode(n) + Print(rest)
  }

  function PrintNode(n: Node): string {
    match n
    case Text(text) => text
    case Site(text) => text
    case Braces(body) => "{" + Print(body) + "}"
    case ForHead(header) => "(" + header + ")"
    case ForOf(decl, iterable, gap, body) => Front(decl, iterable, gap) + ("{" + Print(body) + "}")
  }

  // Brace depth after `text`, or None when it closes a brace it did not open.
  function Nest(text: string, depth: nat): Option<nat> {
    if text == "" then Some(depth)
    else if text[0] == '{' then Nest(text[1..], depth + 1)
    else if text[0] == '}' then (if depth == 0 then None else Nest(text[1..], depth - 1))
    else Nest(text[1..], depth)
  }

  predicate Level(text: string) {
    Nest(text, 0) == Some(0)
  }

  predicate Wf(p: Nodes) {
    match p
    case Nil => true
    case Cons(n, rest) => WfNode(n) && Wf(rest)
  }

  predicate WfNode(n: Node) {
    match n
    case Text(text) => Level(text)
    case Site(text) => Level(text) && text != "" && text[0] != '{' && text[0] != '}'
    case Braces(body) => Wf(body)
    case ForHead(header) =>
      Level("(" + header + ")") && Paired(header, 0) && NoOf(header, |header|)
    case ForOf(decl, iterable, gap, body) => WfFront(decl, iterable, gap) && Wf(body)
  }

  predicate WfFront(decl: string, iterable: string, gap: string) {
    var header := Header(decl, iterable);
    && Level(Front(decl, iterable, gap))
    && Paired(header, 0)
    && NoOf(header, |decl|)
    && Strip(iterable) == iterable
    && (forall c | c in gap :: Space(c))
  }

  // -------------------------------------------------------------------------
  // Running a spec as the counter reads it
  // -------------------------------------------------------------------------

  function Repeat<T>(n: nat, s: seq<T>): (r: seq<T>)
    ensures |r| == n * |s|
  {
    if n == 0 then [] else s + Repeat(n - 1, s)
  }

  function Length(lengths: Lengths, iterable: string): nat {
    var n := lengths(iterable);
    if n.Some? then n.value else 0
  }

  // The `test(` calls made, in order, when every `for...of` runs its body as often as `lengths` tells and every other
  // block runs once; a call is named by the offset of its site.
  function Calls(p: Nodes, lengths: Lengths, at: nat): seq<nat> {
    match p
    case Nil => []
    case Cons(n, rest) => CallsNode(n, lengths, at) + Calls(rest, lengths, at + |PrintNode(n)|)
  }

  function CallsNode(n: Node, lengths: Lengths, at: nat): seq<nat> {
    match n
    case Text(_) => []
    case Site(_) => [at]
    case Braces(body) => Calls(body, lengths, at + 1)
    case ForHead(_) => []
    case ForOf(decl, iterable, gap, body) =>
      Repeat(Length(lengths, iterable), Calls(body, lengths, at + |Front(decl, iterable, gap)| + 1))
  }

  function SiteCount(p: Nodes): nat {
    match p
    case Nil => 0
    case Cons(n, rest) => SiteCountNode(n) + SiteCount(rest)
  }

  function SiteCountNode(n: Node): nat {
    match n
    case Text(_) => 0
    case Site(_) => 1
    case Braces(body) => SiteCount(body)
    case ForHead(_) => 0
    case ForOf(_, _, _, body) => SiteCount(body)
  }

  // Whether some site lies under a loop whose iterable does not resolve.
  predicate Unreadable(p: Nodes, lengths: Lengths) {
    match p
    case Nil => false
    case Cons(n, rest) => UnreadableNode(n, lengths) || Unreadable(rest, lengths)
  }

  predicate UnreadableNode(n: Node, lengths: Lengths) {
    match n
    case Text(_) => false
    case Site(_) => false
    case Braces(body) => Unreadable(body, lengths)
    case ForHead(_) => false
    case ForOf(_, iterable, _, body) =>
      Unreadable(body, lengths) || (SiteCount(body) > 0 && lengths(iterable).None?)
  }

  // -------------------------------------------------------------------------
  // Offsets
  // -------------------------------------------------------------------------

  function Sites(p: Nodes, at: nat): set<nat> {
    match p
    case Nil => {}
    case Cons(n, rest) => SitesNode(n, at) + Sites(rest, at + |PrintNode(n)|)
  }

  function SitesNode(n: Node, at: nat): set<nat> {
    match n
    case Text(_) => {}
    case Site(_) => {at}
    case Braces(body) => Sites(body, at + 1)
    case ForHead(_) => {}
    case ForOf(decl, iterable, gap, body) => Sites(body, at + |Front(decl, iterable, gap)| + 1)
  }

  function BodiesAt(p: Nodes, at: nat): map<nat, string> {
    match p
    case Nil => map[]
    case Cons(n, rest) => BodiesAtNode(n, at) + BodiesAt(rest, at + |PrintNode(n)|)
  }

  function BodiesAtNode(n: Node, at: nat): map<nat, string> {
    match n
    case Text(_) => map[]
    case Site(_) => map[]
    case Braces(body) => BodiesAt(body, at + 1)
    case ForHead(_) => map[]
    case ForOf(decl, iterable, gap, body) =>
      var brace := at + |Front(decl, iterable, gap)|;
      map[brace := iterable] + BodiesAt(body, brace + 1)
  }

  // The heads the pattern `for (` finds, in text order.
  function HeadsAt(p: Nodes, at: nat): seq<nat> {
    match p
    case Nil => []
    case Cons(n, rest) => HeadsAtNode(n, at) + HeadsAt(rest, at + |PrintNode(n)|)
  }

  function HeadsAtNode(n: Node, at: nat): seq<nat> {
    match n
    case Text(_) => []
    case Site(_) => []
    case Braces(body) => HeadsAt(body, at + 1)
    case ForHead(_) => [at]
    case ForOf(decl, iterable, gap, body) => [at] + HeadsAt(body, at + |Front(decl, iterable, gap)| + 1)
  }

  ghost predicate Within(keys: set<nat>, at: nat, end: nat) {
    forall k | k in keys :: at <= k < end
  }

  lemma {:induction false} OffsetsWithin(p: Nodes, at: nat)
    requires Wf(p)
    ensures Within(Sites(p, at), at, at + |Print(p)|) && Within(BodiesAt(p, at).Keys, at, at + |Print(p)|)
    decreases p
  {
    match p
    case Nil =>
    case Cons(n, rest) =>
      OffsetsWithinNode(n, at);
      OffsetsWithin(rest, at + |PrintNode(n)|);
  }

  lemma {:induction false} OffsetsWithinNode(n: Node, at: nat)
    requires WfNode(n)
    ensures Within(SitesNode(n, at), at, at + |PrintNode(n)|)
    ensures Within(BodiesAtNode(n, at).Keys, at, at + |PrintNode(n)|)
    decreases n, 1
  {
    match n
    case Text(_) =>
    case Site(_) =>
    case Braces(body) => OffsetsWithin(body, at + 1);
    case ForHead(_) =>
    case ForOf(_, _, _, _) => OffsetsWithinLoop(n, at);
  }

  lemma {:induction false} OffsetsWithinLoop(n: Node, at: nat)
    requires n.ForOf? && Wf(n.body)
    ensures Within(SitesNode(n, at), at, at + |PrintNode(n)|)
    ensures Within(BodiesAtNode(n, at).Keys, at, at + |PrintNode(n)|)
    decreases n, 0
  {
    var front := Front(n.decl, n.iterable, n.gap);
    OffsetsWithin(n.body, at + |front| + 1);
    assert |PrintNode(n)| == |front| + 2 + |Print(n.body)|;
    assert BodiesAtNode(n, at).Keys == {at + |front|} + BodiesAt(n.body, at + |front| + 1).Keys;
  }

  // In `[at, at + length)` the source's sites and bodies are exactly those given.
  ghost predicate Marks(src: Source, at: nat, length: nat, sites: set<nat>, bodies: map<nat, string>) {
    forall k | at <= k < at + length ::
      && (k in src.sites <==> k in sites)
      && (k in src.bodies <==> k in bodies)
      && (k in src.bodies && k in bodies ==> src.bodies[k] == bodies[k])
  }

  lemma MarksNodes(src: Source, i: nat, n: Node, rest: Nodes)
    requires WfNode(n) && Wf(rest)
    requires var p := Cons(n, rest); Marks(src, i, |Print(p)|, Sites(p, i), BodiesAt(p, i))
    ensures Marks(src, i, |PrintNode(n)|, SitesNode(n, i), BodiesAtNode(n, i))
    ensures var next := i + |PrintNode(n)|; Marks(src, next, |Print(rest)|, Sites(rest, next), BodiesAt(rest, next))
  {
    OffsetsWithinNode(n, i);
    OffsetsWithin(rest, i + |PrintNode(n)|);
  }

  // What the source marks of a loop whose body opens at `brace`: nothing before it, the body there, and what stands
  // in the body.
  ghost predicate LoopMarks(src: Source, i: nat, brace: nat, iterable: string, body: Nodes) {
    && i <= brace && Marks(src, i, brace - i, {}, map[])
    && brace !in src.sites && brace in src.bodies && src.bodies[brace] == iterable
    && Marks(src, brace + 1, |Print(body)|, Sites(body, brace + 1), BodiesAt(body, brace + 1))
    && brace + 1 + |Print(body)| !in src.sites
  }

  lemma MarksLoop(src: Source, i: nat, n: Node)
    requires n.ForOf? && Wf(n.body)
    requires Marks(src, i, |PrintNode(n)|, SitesNode(n, i), BodiesAtNode(n, i))
    ensures LoopMarks(src, i, i + |Front(n.decl, n.iterable, n.gap)|, n.iterable, n.body)
  {
    var brace := i + |Front(n.decl, n.iterable, n.gap)|;
    OffsetsWithin(n.body, brace + 1);
    MarksBlock(src, i, brace, |Print(n.body)|, n.iterable, Sites(n.body, brace + 1), BodiesAt(n.body, brace + 1));
  }

  lemma MarksBlock(
    src: Source, i: nat, brace: nat, length: nat, iterable: string, sites: set<nat>, bodies: map<nat, string>)
    requires i <= brace
    requires Within(sites, brace + 1, brace + 1 + length) && Within(bodies.Keys, brace + 1, brace + 1 + length)
    requires Marks(src, i, brace - i + 2 + length, sites, map[brace := iterable] + bodies)
    ensures Marks(src, i, brace - i, {}, map[]) && Marks(src, brace + 1, length, sites, bodies)
    ensures brace !in src.sites && brace in src.bodies && src.bodies[brace] == iterable
    ensures brace + 1 + length !in src.sites
  {
    assert brace !in bodies.Keys;
    assert (map[brace := iterable] + bodies)[brace] == iterable;
  }

  // -------------------------------------------------------------------------
  // The walk over printed parts
  // -------------------------------------------------------------------------

  // Every loop entered opened below `depth`: the stack is exactly the enclosing bodies.
  ghost predicate Enclosing(stack: seq<Frame>, depth: int) {
    forall k | 0 <= k < |stack| :: stack[k].openedAt < depth
  }

  lemma {:induction false} WalkLevel(
    src: Source, lengths: Lengths, i: nat, text: string, nest: nat, base: int, stack: seq<Frame>, tally: Tally)
    requires At(src.text, i, text) && Nest(text, nest).Some? && Enclosing(stack, base)
    requires Marks(src, i, |text|, {}, map[])
    ensures WalkFrom(src, lengths, i, base + nest, stack, tally)
         == WalkFrom(src, lengths, i + |text|, base + Nest(text, nest).value, stack, tally)
    decreases |text|
  {
    if text != "" {
      AtRest(src.text, i, text);
      var nest' := if text[0] == '{' then nest + 1 else if text[0] == '}' then nest - 1 else nest;
      WalkLevel(src, lengths, i + 1, text[1..], nest', base, stack, tally);
    }
  }

  // The product of the iterables sites lie under, outermost first.
  function Product(under: seq<string>, lengths: Lengths): Option<nat> {
    if under == [] then Some(1)
    else
      var outer := Product(under[..|under| - 1], lengths);
      var length := lengths(under[|under| - 1]);
      if outer.Some? && length.Some? then Some(outer.value * length.value) else None
  }

  // What a run of nodes adds to the tally `under` the loops around it; None when it is refused there.
  function Added(p: Nodes, lengths: Lengths, under: seq<string>, at: nat, text: string, tally: Tally): Option<Tally>
    requires at + |Print(p)| <= |text|
    decreases p
  {
    match p
    case Nil => Some(tally)
    case Cons(n, rest) =>
      var first := AddedNode(n, lengths, under, at, text, tally);
      if first.None? then None else Added(rest, lengths, under, at + |PrintNode(n)|, text, first.value)
  }

  function AddedNode(n: Node, lengths: Lengths, under: seq<string>, at: nat, text: string, tally: Tally): Option<Tally>
    requires at + |PrintNode(n)| <= |text|
    decreases n
  {
    match n
    case Text(_) => Some(tally)
    case Site(_) =>
      var m := Product(under, lengths);
      if m.None? then None else Some(Count(tally, text, at, m.value))
    case Braces(body) => Added(body, lengths, under, at + 1, text, tally)
    case ForHead(_) => Some(tally)
    case ForOf(decl, iterable, gap, body) =>
      Added(body, lengths, under + [iterable], at + |Front(decl, iterable, gap)| + 1, text, tally)
  }

  ghost predicate Entered(stack: seq<Frame>, under: seq<string>) {
    |stack| == |under| && forall k | 0 <= k < |stack| :: stack[k].iterable == under[k]
  }

  lemma {:induction false} MultiplierIsProduct(stack: seq<Frame>, under: seq<string>, lengths: Lengths)
    requires Entered(stack, under)
    ensures Multiplier(stack, lengths) == Product(under, lengths)
    decreases |stack|
  {
    if stack != [] {
      MultiplierIsProduct(stack[..|stack| - 1], under[..|under| - 1], lengths);
    }
  }

  // From a state, after a run of nodes: refused, or on behind them with their tally added.
  function Onward(
    src: Source, lengths: Lengths, i: nat, depth: int, stack: seq<Frame>, added: Option<Tally>): Option<Tally>
    requires i <= |src.text|
  {
    if added.None? then None else WalkFrom(src, lengths, i, depth, stack, added.value)
  }

  lemma {:induction false} WalkNodes(
    src: Source, lengths: Lengths, i: nat, p: Nodes, depth: int, stack: seq<Frame>, under: seq<string>, tally: Tally)
    requires Wf(p) && At(src.text, i, Print(p)) && Enclosing(stack, depth) && Entered(stack, under)
    requires Marks(src, i, |Print(p)|, Sites(p, i), BodiesAt(p, i))
    ensures WalkFrom(src, lengths, i, depth, stack, tally)
         == Onward(src, lengths, i + |Print(p)|, depth, stack, Added(p, lengths, under, i, src.text, tally))
    decreases p, 0
  {
    match p
    case Nil =>
    case Cons(n, rest) =>
      AtSplit(src.text, i, PrintNode(n), Print(rest));
      var next := i + |PrintNode(n)|;
      MarksNodes(src, i, n, rest);
      WalkNode(src, lengths, i, n, depth, stack, under, tally);
      var first := AddedNode(n, lengths, under, i, src.text, tally);
      if first.Some? {
        WalkNodes(src, lengths, next, rest, depth, stack, under, first.value);
      }
  }

  lemma {:induction false} WalkNode(
    src: Source, lengths: Lengths, i: nat, n: Node, depth: int, stack: seq<Frame>, under: seq<string>, tally: Tally)
    requires WfNode(n) && At(src.text, i, PrintNode(n)) && Enclosing(stack, depth) && Entered(stack, under)
    requires Marks(src, i, |PrintNode(n)|, SitesNode(n, i), BodiesAtNode(n, i))
    ensures WalkFrom(src, lengths, i, depth, stack, tally)
         == Onward(src, lengths, i + |PrintNode(n)|, depth, stack, AddedNode(n, lengths, under, i, src.text, tally))
    decreases n, 1
  {
    match n
    case Text(text) =>
      WalkLevel(src, lengths, i, text, 0, depth, stack, tally);
    case Site(text) =>
      MultiplierIsProduct(stack, under, lengths);
      AtRest(src.text, i, text);
      var m := Multiplier(stack, lengths);
      if m.Some? {
        WalkLevel(src, lengths, i + 1, text[1..], 0, depth, stack, Count(tally, src.text, i, m.value));
      }
    case Braces(body) =>
      OffsetsWithin(body, i + 1);
      WalkBlock(src, lengths, i, body, depth, stack, stack, under, tally);
    case ForHead(header) =>
      WalkLevel(src, lengths, i, "(" + header + ")", 0, depth, stack, tally);
    case ForOf(_, _, _, _) =>
      WalkLoop(src, lengths, i, n, depth, stack, under, tally);
  }

  lemma {:induction false} WalkLoop(
    src: Source, lengths: Lengths, i: nat, n: Node, depth: int, stack: seq<Frame>, under: seq<string>, tally: Tally)
    requires n.ForOf? && Level(Front(n.decl, n.iterable, n.gap)) && Wf(n.body)
    requires At(src.text, i, PrintNode(n)) && Enclosing(stack, depth) && Entered(stack, under)
    requires Marks(src, i, |PrintNode(n)|, SitesNode(n, i), BodiesAtNode(n, i))
    ensures WalkFrom(src, lengths, i, depth, stack, tally)
         == Onward(src, lengths, i + |PrintNode(n)|, depth, stack, AddedNode(n, lengths, under, i, src.text, tally))
    decreases n, 0
  {
    MarksLoop(src, i, n);
    var front := Front(n.decl, n.iterable, n.gap);
    WalkLoopAt(src, lengths, i, front, n.iterable, n.body, depth, stack, under, tally);
  }

  lemma {:induction false} WalkLoopAt(
    src: Source, lengths: Lengths, i: nat, front: string, iterable: string, body: Nodes,
    depth: int, stack: seq<Frame>, under: seq<string>, tally: Tally)
    requires Level(front) && Wf(body) && At(src.text, i, front + ("{" + Print(body) + "}"))
    requires Enclosing(stack, depth) && Entered(stack, under)
    requires LoopMarks(src, i, i + |front|, iterable, body)
    ensures WalkFrom(src, lengths, i, depth, stack, tally)
         == Onward(src, lengths, i + |front| + 2 + |Print(body)|, depth, stack,
                   Added(body, lengths, under + [iterable], i + |front| + 1, src.text, tally))
    decreases body, 2
  {
    AtSplit(src.text, i, front, "{" + Print(body) + "}");
    WalkLevel(src, lengths, i, front, 0, depth, stack, tally);
    var inside := Enter(stack, under, depth, iterable);
    WalkBlock(src, lengths, i + |front|, body, depth, stack, inside, under + [iterable], tally);
  }

  function Enter(stack: seq<Frame>, ghost under: seq<string>, depth: int, iterable: string): (r: seq<Frame>)
    requires Entered(stack, under)
    ensures Entered(r, under + [iterable]) && r == stack + [Frame(depth, iterable)]
  {
    stack + [Frame(depth, iterable)]
  }

  // A block walked with `inside` in force ends with the stack it began with: a loop's own frame is popped by its
  // closing brace and no other is.
  lemma {:induction false} WalkBlock(
    src: Source, lengths: Lengths, i: nat, body: Nodes, depth: int,
    stack: seq<Frame>, inside: seq<Frame>, under: seq<string>, tally: Tally)
    requires Wf(body) && At(src.text, i, "{" + Print(body) + "}") && Enclosing(stack, depth)
    requires Entered(inside, under)
    requires i !in src.sites && i + 1 + |Print(body)| !in src.sites
    requires if i in src.bodies then inside == stack + [Frame(depth, src.bodies[i])] else inside == stack
    requires Marks(src, i + 1, |Print(body)|, Sites(body, i + 1), BodiesAt(body, i + 1))
    ensures WalkFrom(src, lengths, i, depth, stack, tally)
         == Onward(src, lengths, i + 2 + |Print(body)|, depth, stack,
                   Added(body, lengths, under, i + 1, src.text, tally))
    decreases body, 1
  {
    AtSplit3(src.text, i, "{", Print(body), "}");
    AtRest(src.text, i, "{");
    var close := i + 1 + |Print(body)|;
    AtRest(src.text, close, "}");
    WalkNodes(src, lengths, i + 1, body, depth + 1, inside, under, tally);
    PopsOwn(stack, inside, depth);
  }

  lemma PopsOwn(stack: seq<Frame>, inside: seq<Frame>, depth: int)
    requires Enclosing(stack, depth)
    requires inside == stack
          || (|inside| == |stack| + 1 && inside[..|stack|] == stack && inside[|stack|].openedAt == depth)
    ensures Pop(inside, depth) == stack
  {
    if inside != stack {
      assert inside[..|inside| - 1] == stack;
    }
  }

  // -------------------------------------------------------------------------
  // The tally is the calls of the loops as read
  // -------------------------------------------------------------------------

  function Weight(under: seq<string>, lengths: Lengths): nat {
    var m := Product(under, lengths);
    if m.Some? then m.value else 0
  }

  lemma ProductUnder(under: seq<string>, iterable: string, lengths: Lengths)
    ensures Weight(under + [iterable], lengths) == Weight(under, lengths) * Length(lengths, iterable)
    ensures Product(under + [iterable], lengths).None? <==> Product(under, lengths).None? || lengths(iterable).None?
  {
    assert (under + [iterable])[..|under|] == under;
  }

  // Refused exactly when some site here lies under a loop that does not resolve.
  ghost predicate RefusedUnder(p: Nodes, lengths: Lengths, under: seq<string>) {
    Unreadable(p, lengths) || (SiteCount(p) > 0 && Product(under, lengths).None?)
  }

  ghost predicate Adds(tally: Tally, after: Tally, sites: nat, cases: nat) {
    after.found == tally.found + sites && after.cases == tally.cases + cases
  }

  lemma Scale(w: nat, a: nat, b: nat)
    ensures w * a + w * b == w * (a + b)
  {
  }

  lemma ScaleTwice(w: nat, n: nat, a: nat)
    ensures w * n * a == w * (n * a)
  {
  }

  lemma {:induction false} AddedIsCalls(
    p: Nodes, lengths: Lengths, under: seq<string>, at: nat, text: string, tally: Tally)
    requires at + |Print(p)| <= |text|
    ensures var r := Added(p, lengths, under, at, text, tally);
            && (r.None? <==> RefusedUnder(p, lengths, under))
            && (r.Some? ==> Adds(tally, r.value, SiteCount(p), Weight(under, lengths) * |Calls(p, lengths, at)|))
    decreases p
  {
    match p
    case Nil =>
    case Cons(n, rest) =>
      AddedNodeIsCalls(n, lengths, under, at, text, tally);
      var first := AddedNode(n, lengths, under, at, text, tally);
      var next := at + |PrintNode(n)|;
      if first.Some? {
        AddedIsCalls(rest, lengths, under, next, text, first.value);
        Scale(Weight(under, lengths), |CallsNode(n, lengths, at)|, |Calls(rest, lengths, next)|);
      }
  }

  lemma {:induction false} AddedNodeIsCalls(
    n: Node, lengths: Lengths, under: seq<string>, at: nat, text: string, tally: Tally)
    requires at + |PrintNode(n)| <= |text|
    ensures var r := AddedNode(n, lengths, under, at, text, tally);
            && (r.None? <==> UnreadableNode(n, lengths) || (SiteCountNode(n) > 0 && Product(under, lengths).None?))
            && (r.Some? ==>
                 Adds(tally, r.value, SiteCountNode(n), Weight(under, lengths) * |CallsNode(n, lengths, at)|))
    decreases n
  {
    match n
    case Text(_) =>
    case Site(_) =>
    case Braces(body) => AddedIsCalls(body, lengths, under, at + 1, text, tally);
    case ForHead(_) =>
    case ForOf(decl, iterable, gap, body) =>
      var inner := at + |Front(decl, iterable, gap)| + 1;
      AddedIsCalls(body, lengths, under + [iterable], inner, text, tally);
      ProductUnder(under, iterable, lengths);
      ScaleTwice(Weight(under, lengths), Length(lengths, iterable), |Calls(body, lengths, inner)|);
  }

  // The source a printed spec makes, its sites and bodies where it prints them.
  function SourceOf(p: Nodes): Source {
    Source(Print(p), Sites(p, 0), BodiesAt(p, 0))
  }

  lemma WalkPrinted(p: Nodes, lengths: Lengths, src: Source)
    requires Wf(p) && src.text == Print(p) && src.sites == Sites(p, 0) && src.bodies == BodiesAt(p, 0)
    ensures WalkFrom(src, lengths, 0, 0, [], NOTHING) == Added(p, lengths, [], 0, src.text, NOTHING)
  {
    AtWhole(src.text);
    WalkNodes(src, lengths, 0, p, 0, [], [], NOTHING);
  }

  // The one pass over the text refuses exactly when a site lies under a loop it cannot resolve, and otherwise counts
  // every site and every call made when the loops run as they are read.
  lemma CasesAreCalls(p: Nodes, lengths: Lengths)
    requires Wf(p)
    ensures var r := WalkFrom(SourceOf(p), lengths, 0, 0, [], NOTHING);
            && (r.None? <==> Unreadable(p, lengths))
            && (r.Some? ==> r.value.cases == |Calls(p, lengths, 0)| && r.value.found == SiteCount(p))
  {
    WalkPrinted(p, lengths, SourceOf(p));
    AddedIsCalls(p, lengths, [], 0, Print(p), NOTHING);
  }

  // -------------------------------------------------------------------------
  // Loops without a site do not matter
  // -------------------------------------------------------------------------

  // The same spec but for what loops without a site iterate over.
  predicate SameButIdle(p: Nodes, q: Nodes) {
    match p
    case Nil => q.Nil?
    case Cons(n, rest) => q.Cons? && SameNodeButIdle(n, q.head) && SameButIdle(rest, q.tail)
  }

  predicate SameNodeButIdle(n: Node, m: Node) {
    match n
    case Text(text) => m == n
    case Site(text) => m == n
    case Braces(body) => m.Braces? && SameButIdle(body, m.body)
    case ForHead(_) => m == n
    case ForOf(_, iterable, _, body) =>
      m.ForOf? && SameButIdle(body, m.body) && (SiteCount(body) > 0 ==> m.iterable == iterable)
  }

  lemma {:induction false} NoSiteNoCall(p: Nodes, lengths: Lengths, at: nat)
    requires SiteCount(p) == 0
    ensures Calls(p, lengths, at) == [] && !Unreadable(p, lengths)
    decreases p
  {
    match p
    case Nil =>
    case Cons(n, rest) =>
      NoSiteNoCallNode(n, lengths, at);
      NoSiteNoCall(rest, lengths, at + |PrintNode(n)|);
  }

  lemma {:induction false} NoSiteNoCallNode(n: Node, lengths: Lengths, at: nat)
    requires SiteCountNode(n) == 0
    ensures CallsNode(n, lengths, at) == [] && !UnreadableNode(n, lengths)
    decreases n
  {
    match n
    case Text(_) =>
    case Site(_) =>
    case Braces(body) => NoSiteNoCall(body, lengths, at + 1);
    case ForHead(_) =>
    case ForOf(decl, iterable, gap, body) =>
      NoSiteNoCall(body, lengths, at + |Front(decl, iterable, gap)| + 1);
  }

  lemma {:induction false} IdleLoops(p: Nodes, q: Nodes, lengths: Lengths, at: nat, at': nat)
    requires SameButIdle(p, q)
    ensures SiteCount(p) == SiteCount(q) && (Unreadable(p, lengths) <==> Unreadable(q, lengths))
    ensures |Calls(p, lengths, at)| == |Calls(q, lengths, at')|
    decreases p
  {
    match p
    case Nil =>
    case Cons(n, rest) =>
      IdleLoopsNode(n, q.head, lengths, at, at');
      IdleLoops(rest, q.tail, lengths, at + |PrintNode(n)|, at' + |PrintNode(q.head)|);
  }

  lemma {:induction false} IdleLoopsNode(n: Node, m: Node, lengths: Lengths, at: nat, at': nat)
    requires SameNodeButIdle(n, m)
    ensures SiteCountNode(n) == SiteCountNode(m) && (UnreadableNode(n, lengths) <==> UnreadableNode(m, lengths))
    ensures |CallsNode(n, lengths, at)| == |CallsNode(m, lengths, at')|
    decreases n
  {
    match n
    case Text(_) =>
    case Site(_) =>
    case Braces(body) => IdleLoops(body, m.body, lengths, at + 1, at' + 1);
    case ForHead(_) =>
    case ForOf(decl, iterable, gap, body) =>
      var inner := at + |Front(decl, iterable, gap)| + 1;
      var inner' := at' + |Front(m.decl, m.iterable, m.gap)| + 1;
      IdleLoops(body, m.body, lengths, inner, inner');
      if SiteCount(body) == 0 {
        NoSiteNoCall(body, lengths, inner);
        NoSiteNoCall(m.body, lengths, inner');
      }
  }

  // A loop holding no site need not be understood: replacing what it iterates over changes neither the outcome nor
  // the counts.
  lemma IdleLoopsDoNotMatter(p: Nodes, q: Nodes, lengths: Lengths)
    requires Wf(p) && Wf(q) && SameButIdle(p, q)
    ensures var r := WalkFrom(SourceOf(p), lengths, 0, 0, [], NOTHING);
            var r' := WalkFrom(SourceOf(q), lengths, 0, 0, [], NOTHING);
            && (r.None? <==> r'.None?)
            && (r.Some? ==> r.value.cases == r'.value.cases && r.value.found == r'.value.found)
  {
    CasesAreCalls(p, lengths);
    CasesAreCalls(q, lengths);
    IdleLoops(p, q, lengths, 0, 0);
  }
}
