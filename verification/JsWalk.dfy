// `_spec_cases` of scripts/validate/validate_cross_document_facts.py: the `for...of` bodies of a blanked Playwright
// spec, and one pass over it with a stack of the loops entered.
module JsWalk {
  import opened Wrappers
  import opened Texts

  // -------------------------------------------------------------------------
  // Loop bodies
  // -------------------------------------------------------------------------

  // Where the parenthesis entered at depth `depth` closes, reading on from `i`.
  function ParenClose(text: string, i: nat, depth: int): (close: Option<nat>)
    requires i <= |text|
    ensures close.Some? ==> i <= close.value < |text|
    decreases |text| - i
  {
    if i == |text| then None
    else if text[i] == '(' then ParenClose(text, i + 1, depth + 1)
    else if text[i] == ')' then (if depth == 1 then Some(i) else ParenClose(text, i + 1, depth - 1))
    else ParenClose(text, i + 1, depth)
  }

  // Where `" of "` first stands in a loop's header.
  function FindOf(header: string, i: nat): (marker: Option<nat>)
    requires i <= |header|
    ensures marker.Some? ==> i <= marker.value && marker.value + 4 <= |header|
    decreases |header| - i
  {
    if i + 4 > |header| then None
    else if header[i..i + 4] == " of " then Some(i)
    else FindOf(header, i + 1)
  }

  datatype Bodies = Bodies(at: map<nat, string>) | Unclosed(paren: nat) | Braceless(paren: nat)

  // The body a `for` head contributes: its opening brace's offset and the iterable's text. A header with no ` of `
  // contributes none.
  function BodyOf(text: string, paren: nat): Bodies
    requires paren < |text| && text[paren] == '('
  {
    var close := ParenClose(text, paren + 1, 1);
    if close.None? then Unclosed(paren) else BodyBelow(text, paren, close.value)
  }

  predicate ParensAt(text: string, heads: seq<nat>) {
    heads == [] || (heads[0] < |text| && text[heads[0]] == '(' && ParensAt(text, heads[1..]))
  }

  // Every body, head by head in the order the heads are found; the first refusal ends the scan.
  function BodiesFrom(text: string, heads: seq<nat>, so: map<nat, string>): Bodies
    requires ParensAt(text, heads)
    decreases |heads|
  {
    if heads == [] then Bodies(so)
    else
      var body := BodyOf(text, heads[0]);
      if body.Bodies? then BodiesFrom(text, heads[1..], so + body.at) else body
  }

  method MatchParen(text: string, paren: nat) returns (close: Option<nat>)
    requires paren < |text| && text[paren] == '('
    ensures close == ParenClose(text, paren + 1, 1)
  {
    var depth := 0;
    var cursor := paren;
    while cursor < |text|
      invariant paren <= cursor <= |text|
      invariant ParenClose(text, cursor, depth) == ParenClose(text, paren + 1, 1)
    {
      if text[cursor] == '(' {
        depth := depth + 1;
      } else if text[cursor] == ')' {
        depth := depth - 1;
        if depth == 0 {
          return Some(cursor);
        }
      }
      cursor := cursor + 1;
    }
    return None;
  }

  // The part of a head's reading behind its closing parenthesis.
  function BodyBelow(text: string, paren: nat, close: nat): Bodies
    requires paren < close < |text|
  {
    var header := text[paren + 1..close];
    var marker := FindOf(header, 0);
    if marker.None? then Bodies(map[])
    else
      var brace := close + 1 + SpaceRun(text, close + 1);
      if brace < |text| && text[brace] == '{' then Bodies(map[brace := Strip(header[marker.value + 4..])])
      else Braceless(paren)
  }

  method ReadBelow(text: string, paren: nat, close: nat) returns (body: Bodies)
    requires paren < close < |text|
    ensures body == BodyBelow(text, paren, close)
  {
    var header := text[paren + 1..close];
    var marker := FindOf(header, 0);
    if marker.None? {
      return Bodies(map[]);
    }
    var brace := close + 1 + SpaceRun(text, close + 1);
    if brace < |text| && text[brace] == '{' {
      return Bodies(map[brace := Strip(header[marker.value + 4..])]);
    }
    return Braceless(paren);
  }

  method ReadHead(text: string, paren: nat) returns (body: Bodies)
    requires paren < |text| && text[paren] == '('
    ensures body == BodyOf(text, paren)
  {
    var close := MatchParen(text, paren);
    if close.None? {
      return Unclosed(paren);
    }
    body := ReadBelow(text, paren, close.value);
  }

  method LoopBodies(text: string, heads: seq<nat>) returns (r: Bodies)
    requires ParensAt(text, heads)
    ensures r == BodiesFrom(text, heads, map[])
  {
    var bodies: map<nat, string> := map[];
    var i := 0;
    while i < |heads|
      invariant 0 <= i <= |heads|
      invariant ParensAt(text, heads[i..])
      invariant BodiesFrom(text, heads[i..], bodies) == BodiesFrom(text, heads, map[])
    {
      assert heads[i..][0] == heads[i] && heads[i..][1..] == heads[i + 1..];
      var body := ReadHead(text, heads[i]);
      if !body.Bodies? {
        return body;
      }
      bodies := bodies + body.at;
      i := i + 1;
    }
    return Bodies(bodies);
  }

  // -------------------------------------------------------------------------
  // What is read of a head, said of the text
  // -------------------------------------------------------------------------

  // Text whose parentheses close, entered `depth` deep.
  predicate Paired(text: string, depth: nat) {
    if text == "" then depth == 0
    else if text[0] == '(' then Paired(text[1..], depth + 1)
    else if text[0] == ')' then depth > 0 && Paired(text[1..], depth - 1)
    else Paired(text[1..], depth)
  }

  predicate OfAt(header: string, k: nat) {
    k + 4 <= |header| && header[k..k + 4] == " of "
  }

  // No ` of ` begins in front of `end`.
  predicate NoOf(header: string, end: nat) {
    forall k: nat | k < end :: !OfAt(header, k)
  }

  // The parenthesis found closes the one entered: what stands between them is paired.
  lemma {:induction false} ParenCloseExactly(text: string, i: nat, depth: nat, k: nat)
    requires i <= k < |text| && depth > 0
    ensures ParenClose(text, i, depth) == Some(k) <==> text[k] == ')' && Paired(text[i..k], depth - 1)
    decreases k - i
  {
    if i < k {
      assert text[i..k][0] == text[i] && text[i..k][1..] == text[i + 1..k];
      if text[i] == '(' {
        ParenCloseExactly(text, i + 1, depth + 1, k);
      } else if text[i] != ')' {
        ParenCloseExactly(text, i + 1, depth, k);
      } else if depth > 1 {
        ParenCloseExactly(text, i + 1, depth - 1, k);
      }
    }
  }

  lemma PairedCloses(header: string)
    requires Paired(header, 0)
    ensures ParenClose(header + ")", 0, 1) == Some(|header|)
  {
    assert (header + ")")[0..|header|] == header;
    ParenCloseExactly(header + ")", 0, 1, |header|);
  }

  // The ` of ` found is the first.
  lemma {:induction false} FindOfExactly(header: string, i: nat)
    requires i <= |header|
    ensures var found := FindOf(header, i);
            && (found.Some? ==> OfAt(header, found.value))
            && forall k: nat | i <= k && (found.Some? ==> k < found.value) :: !OfAt(header, k)
    decreases |header| - i
  {
    if i + 4 <= |header| && !OfAt(header, i) {
      FindOfExactly(header, i + 1);
    }
  }

  lemma FirstOf(header: string, k: nat)
    requires OfAt(header, k) && NoOf(header, k)
    ensures FindOf(header, 0) == Some(k)
  {
    FindOfExactly(header, 0);
  }

  lemma NotOf(header: string)
    requires NoOf(header, |header|)
    ensures FindOf(header, 0).None?
  {
    FindOfExactly(header, 0);
  }

  // A head is refused as unclosed exactly when no parenthesis behind it closes its own.
  lemma UnclosedExactly(text: string, paren: nat)
    requires paren < |text| && text[paren] == '('
    ensures BodyOf(text, paren) == Unclosed(paren) <==>
            forall k | paren < k < |text| && text[k] == ')' :: !Paired(text[paren + 1..k], 0)
  {
    var close := ParenClose(text, paren + 1, 1);
    if close.Some? {
      ParenCloseExactly(text, paren + 1, 1, close.value);
    }
    forall k | paren < k < |text| && text[k] == ')' && Paired(text[paren + 1..k], 0) ensures close == Some(k) {
      ParenCloseExactly(text, paren + 1, 1, k);
    }
  }

  // Of a head closed at `close`: nothing is read without a ` of `; with one, the text behind the first, trimmed, is
  // the iterable of the body that opens next, and a head whose next character is no `{` is refused as braceless.
  lemma HeadExactly(text: string, paren: nat, close: nat, next: nat)
    requires paren < close < next <= |text| && text[paren] == '(' && text[close] == ')'
    requires Paired(text[paren + 1..close], 0)
    requires (forall k | close < k < next :: Space(text[k])) && (next < |text| ==> !Space(text[next]))
    ensures var header := text[paren + 1..close];
            && (NoOf(header, |header|) ==> BodyOf(text, paren) == Bodies(map[]))
            && forall m: nat | OfAt(header, m) && NoOf(header, m) ::
                 BodyOf(text, paren) == Headed(text, paren, next, header[m + 4..])
  {
    var header := text[paren + 1..close];
    if NoOf(header, |header|) {
      ParenCloseExactly(text, paren + 1, 1, close);
      NotOf(header);
    }
    forall m: nat | OfAt(header, m) && NoOf(header, m)
      ensures BodyOf(text, paren) == Headed(text, paren, next, header[m + 4..])
    {
      HeadWithOf(text, paren, close, next, m);
    }
  }

  lemma HeadWithOf(text: string, paren: nat, close: nat, next: nat, m: nat)
    requires paren < close < next <= |text| && text[paren] == '(' && text[close] == ')'
    requires Paired(text[paren + 1..close], 0)
    requires (forall k | close < k < next :: Space(text[k])) && (next < |text| ==> !Space(text[next]))
    requires var header := text[paren + 1..close]; OfAt(header, m) && NoOf(header, m)
    ensures BodyOf(text, paren) == Headed(text, paren, next, text[paren + 1..close][m + 4..])
  {
    ParenCloseExactly(text, paren + 1, 1, close);
    FirstOf(text[paren + 1..close], m);
    RunEnds(text, close + 1, next);
  }

  // The body of a loop over `iterable` whose block, if it has one, opens at `next`.
  function Headed(text: string, paren: nat, next: nat, iterable: string): Bodies {
    if next < |text| && text[next] == '{' then Bodies(map[next := Strip(iterable)]) else Braceless(paren)
  }

  lemma {:induction false} RunEnds(text: string, i: nat, next: nat)
    requires i <= next <= |text|
    requires (forall k | i <= k < next :: Space(text[k])) && (next < |text| ==> !Space(text[next]))
    ensures i + SpaceRun(text, i) == next
    decreases next - i
  {
    if i < next {
      RunEnds(text, i + 1, next);
    }
  }

  // Head number `k` is refused, and no head before it.
  predicate RefusedFirst(text: string, heads: seq<nat>, k: nat, r: Bodies)
    requires k < |heads| && forall j | 0 <= j < |heads| :: heads[j] < |text| && text[heads[j]] == '('
  {
    BodyOf(text, heads[k]) == r && forall j | 0 <= j < k :: BodyOf(text, heads[j]).Bodies?
  }

  // The scan of the heads is refused exactly by the first head that is.
  lemma {:induction false} FirstRefusal(text: string, heads: seq<nat>, so: map<nat, string>)
    requires ParensAt(text, heads)
    ensures forall k | 0 <= k < |heads| :: heads[k] < |text| && text[heads[k]] == '('
    ensures var r := BodiesFrom(text, heads, so);
            if r.Bodies? then forall k | 0 <= k < |heads| :: BodyOf(text, heads[k]).Bodies?
            else exists k :: 0 <= k < |heads| && RefusedFirst(text, heads, k, r)
    decreases |heads|
  {
    if heads != [] {
      var body, r := BodyOf(text, heads[0]), BodiesFrom(text, heads, so);
      FirstRefusal(text, heads[1..], if body.Bodies? then so + body.at else so);
      forall k | 0 < k < |heads| ensures heads[k] == heads[1..][k - 1] {
      }
      if !r.Bodies? && body.Bodies? {
        var k :| 0 <= k < |heads[1..]| && RefusedFirst(text, heads[1..], k, r);
        assert RefusedFirst(text, heads, k + 1, r);
      } else if !r.Bodies? {
        assert RefusedFirst(text, heads, 0, r);
      }
    }
  }

  // -------------------------------------------------------------------------
  // The walk
  // -------------------------------------------------------------------------

  // The blanked text, where its `test(` sites begin, and where its `for...of` bodies open.
  datatype Source = Source(text: string, sites: set<nat>, bodies: map<nat, string>)

  datatype Frame = Frame(openedAt: int, iterable: string)

  datatype Tally = Tally(cases: nat, found: nat, parameterised: map<nat, nat>)

  // How many entries an iterable has, where that can be read.
  type Lengths = string -> Option<nat>

  // The product of the loops entered, outermost first; None when one of them does not resolve.
  function Multiplier(stack: seq<Frame>, lengths: Lengths): Option<nat> {
    if stack == [] then Some(1)
    else
      var outer := Multiplier(stack[..|stack| - 1], lengths);
      var length := lengths(stack[|stack| - 1].iterable);
      if outer.Some? && length.Some? then Some(outer.value * length.value) else None
  }

  function Count(tally: Tally, text: string, offset: nat, multiplier: nat): Tally
    requires offset <= |text|
  {
    Tally(tally.cases + multiplier, tally.found + 1,
          if multiplier > 1 then tally.parameterised[LinesBefore(text, offset) + 1 := multiplier]
          else tally.parameterised)
  }

  function Pop(stack: seq<Frame>, depth: int): seq<Frame> {
    if stack != [] && stack[|stack| - 1].openedAt == depth then Pop(stack[..|stack| - 1], depth) else stack
  }

  function WalkFrom(src: Source, lengths: Lengths, i: nat, depth: int, stack: seq<Frame>, tally: Tally): Option<Tally>
    requires i <= |src.text|
    decreases |src.text| - i
  {
    if i == |src.text| then Some(tally)
    else
      var multiplier := Multiplier(stack, lengths);
      if i in src.sites && multiplier.None? then None
      else
        var tally' := if i in src.sites then Count(tally, src.text, i, multiplier.value) else tally;
        if src.text[i] == '{' then
          var stack' := if i in src.bodies then stack + [Frame(depth, src.bodies[i])] else stack;
          WalkFrom(src, lengths, i + 1, depth + 1, stack', tally')
        else if src.text[i] == '}' then WalkFrom(src, lengths, i + 1, depth - 1, Pop(stack, depth - 1), tally')
        else WalkFrom(src, lengths, i + 1, depth, stack, tally')
  }

  const NOTHING := Tally(0, 0, map[])

  method Resolve(stack: seq<Frame>, lengths: Lengths) returns (multiplier: Option<nat>)
    ensures multiplier == Multiplier(stack, lengths)
  {
    var product: nat := 1;
    var k := 0;
    while k < |stack|
      invariant 0 <= k <= |stack|
      invariant Multiplier(stack[..k], lengths) == Some(product)
    {
      assert stack[..k + 1][..k] == stack[..k];
      var length := lengths(stack[k].iterable);
      if length.None? {
        NoneAbove(stack, lengths, k + 1);
        return None;
      }
      product := product * length.value;
      k := k + 1;
    }
    assert stack[..k] == stack;
    return Some(product);
  }

  lemma {:induction false} NoneAbove(stack: seq<Frame>, lengths: Lengths, k: nat)
    requires k <= |stack| && Multiplier(stack[..k], lengths).None?
    ensures Multiplier(stack, lengths).None?
    decreases |stack| - k
  {
    if k == |stack| {
      assert stack[..k] == stack;
    } else {
      assert stack[..k + 1][..k] == stack[..k];
      NoneAbove(stack, lengths, k + 1);
    }
  }

  method SpecCases(src: Source, lengths: Lengths) returns (r: Option<Tally>)
    ensures r == WalkFrom(src, lengths, 0, 0, [], NOTHING)
  {
    var depth := 0;
    var stack: seq<Frame> := [];
    var tally := NOTHING;
    var offset := 0;
    while offset < |src.text|
      invariant 0 <= offset <= |src.text|
      invariant WalkFrom(src, lengths, offset, depth, stack, tally) == WalkFrom(src, lengths, 0, 0, [], NOTHING)
    {
      if offset in src.sites {
        var multiplier := Resolve(stack, lengths);
        if multiplier.None? {
          return None;
        }
        tally := Count(tally, src.text, offset, multiplier.value);
      }
      if src.text[offset] == '{' {
        if offset in src.bodies {
          stack := stack + [Frame(depth, src.bodies[offset])];
        }
        depth := depth + 1;
      } else if src.text[offset] == '}' {
        depth := depth - 1;
        ghost var popped := Pop(stack, depth);
        while stack != [] && stack[|stack| - 1].openedAt == depth
          invariant Pop(stack, depth) == popped
        {
          stack := stack[..|stack| - 1];
        }
      }
      offset := offset + 1;
    }
    return Some(tally);
  }
}
