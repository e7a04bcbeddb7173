// What running a spec registers, each block running as often as it really does, against what the counter reads.
module JsRuns {
  import opened Windows
  import opened Wrappers
  import opened JsWalk
  import opened JsCases

  // How often the block that opens at an offset runs each time it is reached: a `for...of` its list's length, a C-style
  // loop or a callback as often as it is run, any other block once or not at all.
  type Rounds = nat -> nat

  // The `test(` calls made, in order; a call is named by the offset of its site.
  function Runs(p: Nodes, rounds: Rounds, at: nat): seq<nat> {
    match p
    case Nil => []
    case Cons(n, rest) => RunsNode(n, rounds, at) + Runs(rest, rounds, at + |PrintNode(n)|)
  }

  function RunsNode(n: Node, rounds: Rounds, at: nat): seq<nat> {
    match n
    case Text(_) => []
    case Site(_) => [at]
    case Braces(body) => Repeat(rounds(at), Runs(body, rounds, at + 1))
    case ForHead(_) => []
    case ForOf(decl, iterable, gap, body) =>
      var brace := at + |Front(decl, iterable, gap)|;
      Repeat(rounds(brace), Runs(body, rounds, brace + 1))
  }

  // The rounds the counter takes blocks to run: a `for...of` body as often as its iterable is read to have entries,
  // every other block once.
  function Reading(bodies: map<nat, string>, lengths: Lengths): Rounds {
    k => if k in bodies then Length(lengths, bodies[k]) else 1
  }

  lemma RepeatOnce<T>(s: seq<T>)
    ensures Repeat(1, s) == s
  {
    assert Repeat(0, s) == [];
  }

  // `rounds` runs each `for...of` body as often as its iterable is read to have entries, every other block once.
  predicate ReadsAs(p: Nodes, lengths: Lengths, rounds: Rounds, at: nat) {
    match p
    case Nil => true
    case Cons(n, rest) => ReadsAsNode(n, lengths, rounds, at) && ReadsAs(rest, lengths, rounds, at + |PrintNode(n)|)
  }

  predicate ReadsAsNode(n: Node, lengths: Lengths, rounds: Rounds, at: nat) {
    match n
    case Text(_) => true
    case Site(_) => true
    case Braces(body) => rounds(at) == 1 && ReadsAs(body, lengths, rounds, at + 1)
    case ForHead(_) => true
    case ForOf(decl, iterable, gap, body) =>
      var brace := at + |Front(decl, iterable, gap)|;
      rounds(brace) == Length(lengths, iterable) && ReadsAs(body, lengths, rounds, brace + 1)
  }

  lemma {:induction false} BodiesRead(src: Source, p: Nodes, lengths: Lengths, at: nat)
    requires Wf(p) && Marks(src, at, |Print(p)|, Sites(p, at), BodiesAt(p, at))
    ensures ReadsAs(p, lengths, Reading(src.bodies, lengths), at)
    decreases p, 0
  {
    match p
    case Nil =>
    case Cons(n, rest) =>
      MarksNodes(src, at, n, rest);
      BodiesReadNode(src, n, lengths, at);
      BodiesRead(src, rest, lengths, at + |PrintNode(n)|);
  }

  lemma {:induction false} BodiesReadNode(src: Source, n: Node, lengths: Lengths, at: nat)
    requires WfNode(n) && Marks(src, at, |PrintNode(n)|, SitesNode(n, at), BodiesAtNode(n, at))
    ensures ReadsAsNode(n, lengths, Reading(src.bodies, lengths), at)
    decreases n, 1
  {
    match n
    case Text(_) =>
    case Site(_) =>
    case Braces(body) => BodiesReadBraces(src, n, lengths, at);
    case ForHead(_) =>
    case ForOf(_, _, _, _) => BodiesReadLoop(src, n, lengths, at);
  }

  lemma {:induction false} BodiesReadLoop(src: Source, n: Node, lengths: Lengths, at: nat)
    requires n.ForOf? && Wf(n.body) && Marks(src, at, |PrintNode(n)|, SitesNode(n, at), BodiesAtNode(n, at))
    ensures ReadsAsNode(n, lengths, Reading(src.bodies, lengths), at)
    decreases n, 0
  {
    MarksLoop(src, at, n);
    BodiesRead(src, n.body, lengths, at + |Front(n.decl, n.iterable, n.gap)| + 1);
  }

  lemma {:induction false} BodiesReadBraces(src: Source, n: Node, lengths: Lengths, at: nat)
    requires n.Braces? && Wf(n.body) && Marks(src, at, |PrintNode(n)|, SitesNode(n, at), BodiesAtNode(n, at))
    ensures ReadsAsNode(n, lengths, Reading(src.bodies, lengths), at)
    decreases n, 0
  {
    OffsetsWithin(n.body, at + 1);
    assert at !in BodiesAt(n.body, at + 1).Keys;
    assert at !in src.bodies;
    BodiesRead(src, n.body, lengths, at + 1);
  }

  // The calls the counter counts are those of a run with the rounds it reads.
  lemma {:induction false} CallsAreRuns(p: Nodes, lengths: Lengths, rounds: Rounds, at: nat)
    requires ReadsAs(p, lengths, rounds, at)
    ensures Calls(p, lengths, at) == Runs(p, rounds, at)
    decreases p
  {
    match p
    case Nil =>
    case Cons(n, rest) =>
      CallsAreRunsNode(n, lengths, rounds, at);
      CallsAreRuns(rest, lengths, rounds, at + |PrintNode(n)|);
  }

  lemma {:induction false} CallsAreRunsNode(n: Node, lengths: Lengths, rounds: Rounds, at: nat)
    requires ReadsAsNode(n, lengths, rounds, at)
    ensures CallsNode(n, lengths, at) == RunsNode(n, rounds, at)
    decreases n
  {
    match n
    case Text(_) =>
    case Site(_) =>
    case Braces(body) =>
      CallsAreRuns(body, lengths, rounds, at + 1);
      RepeatOnce(Calls(body, lengths, at + 1));
    case ForHead(_) =>
    case ForOf(decl, iterable, gap, body) =>
      CallsAreRuns(body, lengths, rounds, at + |Front(decl, iterable, gap)| + 1);
  }

  // -------------------------------------------------------------------------
  // Two ways of running
  // -------------------------------------------------------------------------

  // Every block over a site runs at least as often under `more` as under `less`.
  predicate AtLeast(p: Nodes, more: Rounds, less: Rounds, at: nat) {
    match p
    case Nil => true
    case Cons(n, rest) => AtLeastNode(n, more, less, at) && AtLeast(rest, more, less, at + |PrintNode(n)|)
  }

  predicate AtLeastNode(n: Node, more: Rounds, less: Rounds, at: nat) {
    match n
    case Text(_) => true
    case Site(_) => true
    case Braces(body) => SiteCount(body) > 0 ==> more(at) >= less(at) && AtLeast(body, more, less, at + 1)
    case ForHead(_) => true
    case ForOf(decl, iterable, gap, body) =>
      var brace := at + |Front(decl, iterable, gap)|;
      SiteCount(body) > 0 ==> more(brace) >= less(brace) && AtLeast(body, more, less, brace + 1)
  }

  // Each site stands only in blocks that run equally often both ways (`same` tells of the enclosing ones), or in one
  // that runs neither way (`idle`).
  predicate Agree(p: Nodes, f: Rounds, g: Rounds, at: nat, same: bool, idle: bool)
    decreases p, 0
  {
    match p
    case Nil => true
    case Cons(n, rest) => AgreeNode(n, f, g, at, same, idle) && Agree(rest, f, g, at + |PrintNode(n)|, same, idle)
  }

  predicate AgreeNode(n: Node, f: Rounds, g: Rounds, at: nat, same: bool, idle: bool) {
    match n
    case Text(_) => true
    case Site(_) => same || idle
    case Braces(body) => AgreeIn(body, f, g, at, same, idle)
    case ForHead(_) => true
    case ForOf(decl, iterable, gap, body) => AgreeIn(body, f, g, at + |Front(decl, iterable, gap)|, same, idle)
  }

  // The same of the sites of a block that opens at `brace`.
  predicate AgreeIn(body: Nodes, f: Rounds, g: Rounds, brace: nat, same: bool, idle: bool)
    decreases body, 1
  {
    Agree(body, f, g, brace + 1, same && f(brace) == g(brace), idle || (f(brace) == 0 && g(brace) == 0))
  }

  // How often the enclosing blocks run, all told, under the one and the other.
  predicate Weighed(w: nat, v: nat, same: bool, idle: bool) {
    && (idle ==> w == 0 && v == 0)
    && (!idle ==> w > 0 && if same then w == v else w > v)
  }

  lemma WeighedIn(w: nat, v: nat, same: bool, idle: bool, m: nat, l: nat)
    requires Weighed(w, v, same, idle) && m >= l
    ensures Weighed(w * m, v * l, same && m == l, idle || (m == 0 && l == 0))
  {
    if idle {
      assert w * m == 0 && v * l == 0;
    } else if m == 0 {
      assert w * m == 0 && v * l == 0;
    } else {
      assert w * m > 0;
      if !same {
        Larger(w, v, m, l);
      } else if m > l {
        Larger(m, l, w, v);
        assert m * w == w * m && l * v == v * l;
      }
    }
  }

  lemma Larger(w: nat, v: nat, m: nat, l: nat)
    requires w > v && m >= l && m > 0
    ensures w * m > v * l
  {
    assert v * l <= v * m by {
      assert v * (m - l) >= 0;
    }
    assert (w - v) * m > 0;
  }

  // Sums of larger parts are larger, and equal exactly when the parts are.
  predicate Exceeds(a: nat, b: nat, equal: bool) {
    a >= b && (a == b <==> equal)
  }

  lemma SumExceeds(a: nat, b: nat, c: nat, d: nat, first: bool, second: bool)
    requires Exceeds(a, b, first) && Exceeds(c, d, second)
    ensures Exceeds(a + c, b + d, first && second)
  {
  }

  lemma {:induction false} RunsCompare(
    p: Nodes, more: Rounds, less: Rounds, at: nat, w: nat, v: nat, same: bool, idle: bool)
    requires AtLeast(p, more, less, at) && Weighed(w, v, same, idle)
    ensures Exceeds(w * |Runs(p, more, at)|, v * |Runs(p, less, at)|, Agree(p, more, less, at, same, idle))
    decreases p, 0
  {
    match p
    case Nil => assert w * 0 == 0 && v * 0 == 0;
    case Cons(n, rest) =>
      var next := at + |PrintNode(n)|;
      RunsCompareNode(n, more, less, at, w, v, same, idle);
      RunsCompare(rest, more, less, next, w, v, same, idle);
      Scale(w, |RunsNode(n, more, at)|, |Runs(rest, more, next)|);
      Scale(v, |RunsNode(n, less, at)|, |Runs(rest, less, next)|);
      SumExceeds(w * |RunsNode(n, more, at)|, v * |RunsNode(n, less, at)|,
                 w * |Runs(rest, more, next)|, v * |Runs(rest, less, next)|,
                 AgreeNode(n, more, less, at, same, idle), Agree(rest, more, less, next, same, idle));
  }

  lemma {:induction false} RunsCompareNode(
    n: Node, more: Rounds, less: Rounds, at: nat, w: nat, v: nat, same: bool, idle: bool)
    requires AtLeastNode(n, more, less, at) && Weighed(w, v, same, idle)
    ensures Exceeds(w * |RunsNode(n, more, at)|, v * |RunsNode(n, less, at)|, AgreeNode(n, more, less, at, same, idle))
    decreases n, 1
  {
    match n
    case Text(_) => assert w * 0 == 0 && v * 0 == 0;
    case Site(_) => assert w * 1 == w && v * 1 == v;
    case Braces(body) => RunsCompareIn(body, more, less, at, w, v, same, idle);
    case ForHead(_) => assert w * 0 == 0 && v * 0 == 0;
    case ForOf(decl, iterable, gap, body) =>
      RunsCompareIn(body, more, less, at + |Front(decl, iterable, gap)|, w, v, same, idle);
  }

  lemma {:induction false} RunsCompareIn(
    body: Nodes, more: Rounds, less: Rounds, brace: nat, w: nat, v: nat, same: bool, idle: bool)
    requires SiteCount(body) > 0 ==> more(brace) >= less(brace) && AtLeast(body, more, less, brace + 1)
    requires Weighed(w, v, same, idle)
    ensures Exceeds(w * (more(brace) * |Runs(body, more, brace + 1)|),
                    v * (less(brace) * |Runs(body, less, brace + 1)|),
                    AgreeIn(body, more, less, brace, same, idle))
    decreases body, 1
  {
    var m, l := more(brace), less(brace);
    if SiteCount(body) == 0 {
      NoSiteNoRun(body, more, brace + 1);
      NoSiteNoRun(body, less, brace + 1);
      NoSiteAgree(body, more, less, brace + 1, same && m == l, idle || (m == 0 && l == 0));
      assert w * (m * 0) == 0 && v * (l * 0) == 0;
    } else {
      WeighedIn(w, v, same, idle, m, l);
      RunsCompare(body, more, less, brace + 1, w * m, v * l, same && m == l, idle || (m == 0 && l == 0));
      ScaleTwice(w, m, |Runs(body, more, brace + 1)|);
      ScaleTwice(v, l, |Runs(body, less, brace + 1)|);
    }
  }

  lemma {:induction false} NoSiteNoRun(p: Nodes, rounds: Rounds, at: nat)
    requires SiteCount(p) == 0
    ensures Runs(p, rounds, at) == []
    decreases p
  {
    match p
    case Nil =>
    case Cons(n, rest) =>
      match n {
        case Text(_) =>
        case Site(_) =>
        case Braces(body) => NoSiteNoRun(body, rounds, at + 1);
        case ForHead(_) =>
        case ForOf(decl, iterable, gap, body) => NoSiteNoRun(body, rounds, at + |Front(decl, iterable, gap)| + 1);
      }
      NoSiteNoRun(rest, rounds, at + |PrintNode(n)|);
  }

  lemma {:induction false} NoSiteAgree(p: Nodes, f: Rounds, g: Rounds, at: nat, same: bool, idle: bool)
    requires SiteCount(p) == 0
    ensures Agree(p, f, g, at, same, idle)
    decreases p
  {
    match p
    case Nil =>
    case Cons(n, rest) =>
      match n {
        case Text(_) =>
        case Site(_) =>
        case Braces(body) =>
          NoSiteAgree(body, f, g, at + 1, same && f(at) == g(at), idle || (f(at) == 0 && g(at) == 0));
        case ForHead(_) =>
        case ForOf(decl, iterable, gap, body) =>
          var brace := at + |Front(decl, iterable, gap)|;
          NoSiteAgree(body, f, g, brace + 1, same && f(brace) == g(brace), idle || (f(brace) == 0 && g(brace) == 0));
      }
      NoSiteAgree(rest, f, g, at + |PrintNode(n)|, same, idle);
  }

  // Where every block over a site runs at least as often one way as the other, so do the calls made; and they are as
  // many if and only if each site stands only in blocks that run equally often, or in one that does not run.
  lemma RunsAgreeExactly(p: Nodes, more: Rounds, less: Rounds, at: nat)
    requires AtLeast(p, more, less, at)
    ensures |Runs(p, more, at)| >= |Runs(p, less, at)|
    ensures |Runs(p, more, at)| == |Runs(p, less, at)| <==> Agree(p, more, less, at, true, false)
  {
    RunsCompare(p, more, less, at, 1, 1, true, false);
    assert 1 * |Runs(p, more, at)| == |Runs(p, more, at)| && 1 * |Runs(p, less, at)| == |Runs(p, less, at)|;
  }

  lemma {:induction false} AgreeEither(p: Nodes, f: Rounds, g: Rounds, at: nat, same: bool, idle: bool)
    ensures Agree(p, f, g, at, same, idle) == Agree(p, g, f, at, same, idle)
    decreases p, 0
  {
    match p
    case Nil =>
    case Cons(n, rest) =>
      match n {
        case Text(_) =>
        case Site(_) =>
        case Braces(body) => AgreeInEither(body, f, g, at, same, idle);
        case ForHead(_) =>
        case ForOf(decl, iterable, gap, body) =>
          AgreeInEither(body, f, g, at + |Front(decl, iterable, gap)|, same, idle);
      }
      AgreeEither(rest, f, g, at + |PrintNode(n)|, same, idle);
      assert AgreeNode(n, f, g, at, same, idle) == AgreeNode(n, g, f, at, same, idle);
  }

  lemma {:induction false} AgreeInEither(body: Nodes, f: Rounds, g: Rounds, brace: nat, same: bool, idle: bool)
    ensures AgreeIn(body, f, g, brace, same, idle) == AgreeIn(body, g, f, brace, same, idle)
    decreases body, 1
  {
    AgreeEither(body, f, g, brace + 1, same && f(brace) == g(brace), idle || (f(brace) == 0 && g(brace) == 0));
  }

  // Every block over a site runs equally often both ways.
  predicate SameRounds(p: Nodes, f: Rounds, g: Rounds, at: nat) {
    match p
    case Nil => true
    case Cons(n, rest) => SameRoundsNode(n, f, g, at) && SameRounds(rest, f, g, at + |PrintNode(n)|)
  }

  predicate SameRoundsNode(n: Node, f: Rounds, g: Rounds, at: nat) {
    match n
    case Text(_) => true
    case Site(_) => true
    case Braces(body) => SiteCount(body) > 0 ==> f(at) == g(at) && SameRounds(body, f, g, at + 1)
    case ForHead(_) => true
    case ForOf(decl, iterable, gap, body) =>
      var brace := at + |Front(decl, iterable, gap)|;
      SiteCount(body) > 0 ==> f(brace) == g(brace) && SameRounds(body, f, g, brace + 1)
  }

  // Every block over a site does run.
  predicate Busy(p: Nodes, rounds: Rounds, at: nat) {
    match p
    case Nil => true
    case Cons(n, rest) => BusyNode(n, rounds, at) && Busy(rest, rounds, at + |PrintNode(n)|)
  }

  predicate BusyNode(n: Node, rounds: Rounds, at: nat) {
    match n
    case Text(_) => true
    case Site(_) => true
    case Braces(body) => SiteCount(body) > 0 ==> rounds(at) > 0 && Busy(body, rounds, at + 1)
    case ForHead(_) => true
    case ForOf(decl, iterable, gap, body) =>
      var brace := at + |Front(decl, iterable, gap)|;
      SiteCount(body) > 0 ==> rounds(brace) > 0 && Busy(body, rounds, brace + 1)
  }

  // Where every block over a site runs, agreeing is running each of them equally often.
  lemma {:induction false} AgreeIsSameRounds(p: Nodes, f: Rounds, g: Rounds, at: nat, same: bool)
    requires Busy(p, g, at)
    ensures Agree(p, f, g, at, same, false) <==> SiteCount(p) == 0 || (same && SameRounds(p, f, g, at))
    decreases p, 0
  {
    match p
    case Nil =>
    case Cons(n, rest) =>
      var next := at + |PrintNode(n)|;
      AgreeIsSameRounds(rest, f, g, next, same);
      AgreeIsSameRoundsNode(n, f, g, at, same);
      if SiteCountNode(n) == 0 {
        NoSiteSame(n, f, g, at);
      }
      if SiteCount(rest) == 0 {
        NoSitesSame(rest, f, g, next);
      }
  }

  lemma {:induction false} AgreeIsSameRoundsNode(n: Node, f: Rounds, g: Rounds, at: nat, same: bool)
    requires BusyNode(n, g, at)
    ensures AgreeNode(n, f, g, at, same, false) <==> SiteCountNode(n) == 0 || (same && SameRoundsNode(n, f, g, at))
    decreases n, 1
  {
    match n
    case Text(_) =>
    case Site(_) =>
    case Braces(body) => AgreeInSame(body, f, g, at, same);
    case ForHead(_) =>
    case ForOf(decl, iterable, gap, body) => AgreeInSame(body, f, g, at + |Front(decl, iterable, gap)|, same);
  }

  lemma {:induction false} AgreeInSame(body: Nodes, f: Rounds, g: Rounds, brace: nat, same: bool)
    requires SiteCount(body) > 0 ==> g(brace) > 0 && Busy(body, g, brace + 1)
    ensures AgreeIn(body, f, g, brace, same, false) <==>
            SiteCount(body) == 0 || (same && f(brace) == g(brace) && SameRounds(body, f, g, brace + 1))
    decreases body, 1
  {
    if SiteCount(body) == 0 {
      NoSiteAgree(body, f, g, brace + 1, same && f(brace) == g(brace), f(brace) == 0 && g(brace) == 0);
    } else {
      AgreeIsSameRounds(body, f, g, brace + 1, same && f(brace) == g(brace));
    }
  }

  lemma {:induction false} SameRoundsAgree(p: Nodes, f: Rounds, g: Rounds, at: nat, same: bool, idle: bool)
    requires SameRounds(p, f, g, at) && same
    ensures Agree(p, f, g, at, same, idle)
    decreases p, 0
  {
    match p
    case Nil =>
    case Cons(n, rest) =>
      match n {
        case Text(_) =>
        case Site(_) =>
        case Braces(body) => SameRoundsAgreeIn(body, f, g, at, same, idle);
        case ForHead(_) =>
        case ForOf(decl, iterable, gap, body) =>
          SameRoundsAgreeIn(body, f, g, at + |Front(decl, iterable, gap)|, same, idle);
      }
      SameRoundsAgree(rest, f, g, at + |PrintNode(n)|, same, idle);
  }

  lemma {:induction false} SameRoundsAgreeIn(body: Nodes, f: Rounds, g: Rounds, brace: nat, same: bool, idle: bool)
    requires SiteCount(body) > 0 ==> f(brace) == g(brace) && SameRounds(body, f, g, brace + 1)
    requires same
    ensures AgreeIn(body, f, g, brace, same, idle)
    decreases body, 1
  {
    var idle' := idle || (f(brace) == 0 && g(brace) == 0);
    if SiteCount(body) == 0 {
      NoSiteAgree(body, f, g, brace + 1, same && f(brace) == g(brace), idle');
    } else {
      SameRoundsAgree(body, f, g, brace + 1, true, idle');
    }
  }

  lemma NoSiteSame(n: Node, f: Rounds, g: Rounds, at: nat)
    requires SiteCountNode(n) == 0
    ensures SameRoundsNode(n, f, g, at)
  {
  }

  lemma {:induction false} NoSitesSame(p: Nodes, f: Rounds, g: Rounds, at: nat)
    requires SiteCount(p) == 0
    ensures SameRounds(p, f, g, at)
    decreases p
  {
    match p
    case Nil =>
    case Cons(n, rest) =>
      NoSiteSame(n, f, g, at);
      NoSitesSame(rest, f, g, at + |PrintNode(n)|);
  }

  // No loop over a site is read to run less often than it does, and it is read right where `right` says so; other
  // blocks over a site run once.
  predicate LoopsFit(p: Nodes, lengths: Lengths, rounds: Rounds, right: nat -> bool, at: nat) {
    match p
    case Nil => true
    case Cons(n, rest) =>
      LoopsFitNode(n, lengths, rounds, right, at) && LoopsFit(rest, lengths, rounds, right, at + |PrintNode(n)|)
  }

  predicate LoopsFitNode(n: Node, lengths: Lengths, rounds: Rounds, right: nat -> bool, at: nat) {
    match n
    case Text(_) => true
    case Site(_) => true
    case Braces(body) => SiteCount(body) > 0 ==> rounds(at) == 1 && LoopsFit(body, lengths, rounds, right, at + 1)
    case ForHead(_) => true
    case ForOf(decl, iterable, gap, body) =>
      var brace := at + |Front(decl, iterable, gap)|;
      SiteCount(body) > 0 ==>
        && Fits(Length(lengths, iterable), rounds(brace), right(brace))
        && LoopsFit(body, lengths, rounds, right, brace + 1)
  }

  predicate Fits(length: nat, rounds: nat, right: bool) {
    length >= rounds && (length == rounds <==> right)
  }

  // Every loop over a site is right.
  predicate AllRight(p: Nodes, right: nat -> bool, at: nat) {
    match p
    case Nil => true
    case Cons(n, rest) => AllRightNode(n, right, at) && AllRight(rest, right, at + |PrintNode(n)|)
  }

  predicate AllRightNode(n: Node, right: nat -> bool, at: nat) {
    match n
    case Text(_) => true
    case Site(_) => true
    case Braces(body) => SiteCount(body) > 0 ==> AllRight(body, right, at + 1)
    case ForHead(_) => true
    case ForOf(decl, iterable, gap, body) =>
      var brace := at + |Front(decl, iterable, gap)|;
      SiteCount(body) > 0 ==> right(brace) && AllRight(body, right, brace + 1)
  }

  lemma {:induction false} FitIsAtLeast(
    p: Nodes, lengths: Lengths, rounds: Rounds, right: nat -> bool, read: Rounds, at: nat)
    requires LoopsFit(p, lengths, rounds, right, at) && ReadsAs(p, lengths, read, at)
    ensures AtLeast(p, read, rounds, at)
    decreases p
  {
    match p
    case Nil =>
    case Cons(n, rest) =>
      FitIsAtLeastNode(n, lengths, rounds, right, read, at);
      FitIsAtLeast(rest, lengths, rounds, right, read, at + |PrintNode(n)|);
  }

  lemma {:induction false} FitIsAtLeastNode(
    n: Node, lengths: Lengths, rounds: Rounds, right: nat -> bool, read: Rounds, at: nat)
    requires LoopsFitNode(n, lengths, rounds, right, at) && ReadsAsNode(n, lengths, read, at)
    ensures AtLeastNode(n, read, rounds, at)
    decreases n
  {
    match n
    case Text(_) =>
    case Site(_) =>
    case Braces(body) =>
      if SiteCount(body) > 0 {
        FitIsAtLeast(body, lengths, rounds, right, read, at + 1);
      }
    case ForHead(_) =>
    case ForOf(decl, iterable, gap, body) =>
      if SiteCount(body) > 0 {
        FitIsAtLeast(body, lengths, rounds, right, read, at + |Front(decl, iterable, gap)| + 1);
      }
  }

  lemma {:induction false} FitIsSame(
    p: Nodes, lengths: Lengths, rounds: Rounds, right: nat -> bool, read: Rounds, at: nat)
    requires LoopsFit(p, lengths, rounds, right, at) && ReadsAs(p, lengths, read, at)
    ensures SameRounds(p, read, rounds, at) <==> AllRight(p, right, at)
    decreases p
  {
    match p
    case Nil =>
    case Cons(n, rest) =>
      FitIsSameNode(n, lengths, rounds, right, read, at);
      FitIsSame(rest, lengths, rounds, right, read, at + |PrintNode(n)|);
  }

  lemma {:induction false} FitIsSameNode(
    n: Node, lengths: Lengths, rounds: Rounds, right: nat -> bool, read: Rounds, at: nat)
    requires LoopsFitNode(n, lengths, rounds, right, at) && ReadsAsNode(n, lengths, read, at)
    ensures SameRoundsNode(n, read, rounds, at) <==> AllRightNode(n, right, at)
    decreases n
  {
    match n
    case Text(_) =>
    case Site(_) =>
    case Braces(body) =>
      if SiteCount(body) > 0 {
        FitIsSame(body, lengths, rounds, right, read, at + 1);
      }
    case ForHead(_) =>
    case ForOf(decl, iterable, gap, body) =>
      if SiteCount(body) > 0 {
        FitIsSame(body, lengths, rounds, right, read, at + |Front(decl, iterable, gap)| + 1);
      }
  }

  // -------------------------------------------------------------------------
  // The count against the run
  // -------------------------------------------------------------------------

  // The rounds the counter reads off a printed spec.
  function ReadOff(p: Nodes, lengths: Lengths): Rounds {
    Reading(BodiesAt(p, 0), lengths)
  }

  // A counted spec has no fewer cases than calls where no block over a site runs more often than it is read to, no
  // more where none runs less often, and in either event as many if and only if each site stands only in blocks read
  // right, or in one read empty that is.
  lemma CasesAreRuns(p: Nodes, lengths: Lengths, rounds: Rounds)
    requires Wf(p) && !Unreadable(p, lengths)
    ensures var r, read := WalkFrom(SourceOf(p), lengths, 0, 0, [], NOTHING), ReadOff(p, lengths);
            && r.Some?
            && (AtLeast(p, read, rounds, 0) ==> r.value.cases >= |Runs(p, rounds, 0)|)
            && (AtLeast(p, rounds, read, 0) ==> r.value.cases <= |Runs(p, rounds, 0)|)
            && (AtLeast(p, read, rounds, 0) || AtLeast(p, rounds, read, 0) ==>
                 (r.value.cases == |Runs(p, rounds, 0)| <==> Agree(p, read, rounds, 0, true, false)))
  {
    var read := ReadOff(p, lengths);
    CasesAreCalls(p, lengths);
    BodiesRead(SourceOf(p), p, lengths, 0);
    CallsAreRuns(p, lengths, read, 0);
    if AtLeast(p, read, rounds, 0) {
      RunsAgreeExactly(p, read, rounds, 0);
    }
    if AtLeast(p, rounds, read, 0) {
      RunsAgreeExactly(p, rounds, read, 0);
      AgreeEither(p, read, rounds, 0, true, false);
    }
  }

  // A counted spec whose loops fit has no fewer cases than calls, as many if every loop over a site is right, and only
  // then where every block over a site runs.
  lemma FittingCases(p: Nodes, lengths: Lengths, rounds: Rounds, right: nat -> bool)
    requires Wf(p) && !Unreadable(p, lengths) && LoopsFit(p, lengths, rounds, right, 0)
    ensures var r := WalkFrom(SourceOf(p), lengths, 0, 0, [], NOTHING);
            && r.Some? && r.value.cases >= |Runs(p, rounds, 0)|
            && (AllRight(p, right, 0) ==> r.value.cases == |Runs(p, rounds, 0)|)
            && (Busy(p, rounds, 0) && r.value.cases == |Runs(p, rounds, 0)| ==> AllRight(p, right, 0))
  {
    var read := ReadOff(p, lengths);
    BodiesRead(SourceOf(p), p, lengths, 0);
    FitIsAtLeast(p, lengths, rounds, right, read, 0);
    FitIsSame(p, lengths, rounds, right, read, 0);
    CasesAreRuns(p, lengths, rounds);
    if SameRounds(p, read, rounds, 0) {
      SameRoundsAgree(p, read, rounds, 0, true, false);
    }
    if Busy(p, rounds, 0) {
      AgreeIsSameRounds(p, read, rounds, 0, true);
      if SiteCount(p) == 0 {
        NoSitesSame(p, read, rounds, 0);
      }
    }
  }

  // A site in the block of a C-style loop is counted once, however often the loop runs.
  lemma CStyleCountsOnce(header: string, gap: string, site: string, lengths: Lengths, rounds: Rounds)
    requires Wf(Cons(ForHead(header), Cons(Text(gap), Cons(Braces(Cons(Site(site), Nil)), Nil))))
    ensures var p := Cons(ForHead(header), Cons(Text(gap), Cons(Braces(Cons(Site(site), Nil)), Nil)));
            var r := WalkFrom(SourceOf(p), lengths, 0, 0, [], NOTHING);
            r.Some? && r.value.cases == 1 && |Runs(p, rounds, 0)| == rounds(2 + |header| + |gap|)
  {
    var body := Cons(Site(site), Nil);
    var block := Cons(Braces(body), Nil);
    var more := Cons(Text(gap), block);
    var p := Cons(ForHead(header), more);
    var at := 2 + |header| + |gap|;
    CasesAreCalls(p, lengths);
    assert |PrintNode(ForHead(header))| == 2 + |header|;
    assert Runs(body, rounds, at + 1) == [at + 1] + [];
    assert Runs(block, rounds, at) == RunsNode(Braces(body), rounds, at) + [];
    assert Runs(more, rounds, 2 + |header|) == [] + Runs(block, rounds, at);
    assert Calls(body, lengths, at + 1) == [at + 1] + [];
    assert Calls(block, lengths, at) == CallsNode(Braces(body), lengths, at) + [];
    assert Calls(more, lengths, 2 + |header|) == [] + Calls(block, lengths, at);
    assert !Unreadable(Nil, lengths);
    assert !Unreadable(body, lengths);
    assert !Unreadable(block, lengths);
    assert !Unreadable(more, lengths);
  }
}
