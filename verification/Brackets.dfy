// The bracket-depth scanners: `span` and `first_argument` of scripts/validate/validate_write_sites.py, and
// `_literal_length` of scripts/validate/validate_cross_document_facts.py.
module Brackets {
  import opened Windows
  import opened Wrappers
  import opened Texts

  function Delta(c: char): int {
    if c == '(' || c == '[' || c == '{' then 1 else if c == ')' || c == ']' || c == '}' then -1 else 0
  }

  // How many of the text's characters are of these kinds.
  function Among(text: string, kinds: string): nat {
    if text == "" then 0 else Among(text[..|text| - 1], kinds) + if text[|text| - 1] in kinds then 1 else 0
  }

  // How many brackets, of whatever kind, open in the text, less those that close.
  function Depth(text: string): int {
    Among(text, "([{") - Among(text, ")]}")
  }

  lemma DepthStep(text: string, start: nat, i: nat)
    requires start <= i < |text|
    ensures Depth(text[start..i + 1]) == Depth(text[start..i]) + Delta(text[i])
  {
    var more := text[start..i + 1];
    assert more[..|more| - 1] == text[start..i];
  }

  lemma DepthAfter(text: string, i: nat)
    requires i < |text|
    ensures Depth(text[..i + 1]) == Depth(text[..i]) + Delta(text[i])
  {
    assert text[0..i] == text[..i] && text[0..i + 1] == text[..i + 1];
    DepthStep(text, 0, i);
  }

  // -------------------------------------------------------------------------
  // span
  // -------------------------------------------------------------------------

  function SpanFrom(text: string, i: nat, depth: int, terminators: string): (end: Option<nat>)
    requires i <= |text|
    ensures end.Some? ==> i <= end.value < |text|
    decreases |text| - i
  {
    if i == |text| then None
    else if depth == 0 && text[i] in terminators then Some(i)
    else SpanFrom(text, i + 1, depth + Delta(text[i]), terminators)
  }

  function SpanOf(text: string, start: nat, terminators: string): string
    requires start <= |text|
  {
    var end := SpanFrom(text, start, 0, terminators);
    if end.Some? then Strip(text[start..end.value]) else ""
  }

  method Span(text: string, start: nat, terminators: string) returns (r: string)
    requires start <= |text|
    ensures r == SpanOf(text, start, terminators)
  {
    var depth := 0;
    var i := start;
    while i < |text|
      invariant start <= i <= |text|
      invariant SpanFrom(text, i, depth, terminators) == SpanFrom(text, start, 0, terminators)
    {
      if depth == 0 && text[i] in terminators {
        return Strip(text[start..i]);
      }
      depth := depth + Delta(text[i]);
      i := i + 1;
    }
    return "";
  }

  method FirstArgument(text: string, paren: nat) returns (r: string)
    requires paren < |text|
    ensures r == SpanOf(text, paren + 1, ",)")
  {
    r := Span(text, paren + 1, ",)");
  }

  // A terminator outside every bracket opened since `start`.
  ghost predicate Terminates(text: string, start: nat, i: nat, terminators: string) {
    start <= i < |text| && text[i] in terminators && Depth(text[start..i]) == 0
  }

  // The scan stops at the first terminator outside any bracket, and at none when there is none.
  lemma {:induction false} SpanIsFirstTerminator(text: string, start: nat, i: nat, terminators: string)
    requires start <= i <= |text|
    requires forall k | start <= k < i :: !Terminates(text, start, k, terminators)
    ensures var end := SpanFrom(text, i, Depth(text[start..i]), terminators);
            if end.Some? then
              Terminates(text, start, end.value, terminators)
              && forall k | start <= k < end.value :: !Terminates(text, start, k, terminators)
            else forall k | start <= k < |text| :: !Terminates(text, start, k, terminators)
    decreases |text| - i
  {
    if i < |text| {
      DepthStep(text, start, i);
      if !Terminates(text, start, i, terminators) {
        SpanIsFirstTerminator(text, start, i + 1, terminators);
      }
    }
  }

  lemma {:induction false} StripEndBlank(text: string)
    ensures StripEnd(text) == "" <==> forall c | c in text :: Space(c)
    decreases |text|
  {
    if text != "" {
      var last := text[|text| - 1];
      assert last in text;
      if Space(last) {
        StripEndBlank(text[..|text| - 1]);
        assert text == text[..|text| - 1] + [last];
      }
    }
  }

  lemma StripBlank(text: string)
    ensures Strip(text) == "" <==> forall c | c in text :: Space(c)
  {
    var n := SpaceRun(text, 0);
    SpaceRunIsMaximal(text, 0);
    StripEndBlank(text[n..]);
    assert text == text[..n] + text[n..];
    assert forall c | c in text[..n] :: Space(c);
  }

  // An empty answer means there is no terminator outside every bracket, or only blank text before the first.
  lemma SpanEmptyExactly(text: string, start: nat, terminators: string)
    requires start <= |text|
    ensures SpanOf(text, start, terminators) == "" <==>
            forall i: nat | Terminates(text, start, i, terminators)
              && (forall k | start <= k < i :: !Terminates(text, start, k, terminators)) ::
              forall c | c in text[start..i] :: Space(c)
  {
    assert text[start..start] == "";
    SpanIsFirstTerminator(text, start, start, terminators);
    var end := SpanFrom(text, start, 0, terminators);
    if end.Some? {
      StripBlank(text[start..end.value]);
    }
  }

  // -------------------------------------------------------------------------
  // Calls
  // -------------------------------------------------------------------------

  // Text whose brackets all close, with no terminator outside them.
  predicate Enclosed(text: string, depth: int, terminators: string) {
    if text == "" then depth == 0
    else !(depth == 0 && text[0] in terminators) && Enclosed(text[1..], depth + Delta(text[0]), terminators)
  }

  // Said of the whole text: as many brackets close as open, and wherever as many have, no terminator stands.
  lemma {:induction false} EnclosedExactly(text: string, i: nat, terminators: string)
    requires i <= |text|
    ensures Enclosed(text[i..], Depth(text[..i]), terminators) <==>
            Depth(text) == 0 && forall k | i <= k < |text| && text[k] in terminators :: Depth(text[..k]) != 0
    decreases |text| - i
  {
    if i == |text| {
      assert text[..i] == text;
    } else {
      assert text[i..][1..] == text[i + 1..];
      DepthAfter(text, i);
      EnclosedExactly(text, i + 1, terminators);
    }
  }

  lemma {:induction false} SpanPasses(text: string, i: nat, part: string, depth: int, terminators: string)
    requires At(text, i, part) && Enclosed(part, depth, terminators)
    requires i + |part| < |text| && text[i + |part|] in terminators
    ensures SpanFrom(text, i, depth, terminators) == Some(i + |part|)
    decreases |part|
  {
    if part != "" {
      AtRest(text, i, part);
      SpanPasses(text, i + 1, part[1..], depth + Delta(part[0]), terminators);
    }
  }

  // An argument list is laid out with a comma after each argument but the last.
  function Join(args: seq<string>): string {
    if args == [] then ""
    else if |args| == 1 then args[0]
    else args[0] + "," + Join(args[1..])
  }

  // An argument: its brackets close, and no comma stands outside them.
  predicate Argument(text: string) {
    Enclosed(text, 0, ",)")
  }

  predicate Arguments(args: seq<string>) {
    forall arg | arg in args :: Argument(arg)
  }

  lemma {:induction false} EnclosedFewer(text: string, depth: int)
    requires Enclosed(text, depth, ",)")
    ensures Enclosed(text, depth, ")")
    decreases |text|
  {
    if text != "" {
      EnclosedFewer(text[1..], depth + Delta(text[0]));
    }
  }

  lemma {:induction false} EnclosedConcat(a: string, b: string, depth: int, terminators: string)
    requires Enclosed(a, depth, terminators) && Enclosed(b, 0, terminators)
    ensures Enclosed(a + b, depth, terminators)
    decreases |a|
  {
    if a == "" {
      assert a + b == b;
    } else {
      assert (a + b)[1..] == a[1..] + b;
      EnclosedConcat(a[1..], b, depth + Delta(a[0]), terminators);
    }
  }

  lemma {:induction false} JoinEnclosed(args: seq<string>)
    requires Arguments(args)
    ensures Enclosed(Join(args), 0, ")")
    decreases |args|
  {
    if args != [] {
      assert args[0] in args;
      EnclosedFewer(args[0], 0);
      if |args| > 1 {
        JoinEnclosed(args[1..]);
        assert ","[1..] == "";
        EnclosedConcat(args[0], ",", 0, ")");
        EnclosedConcat(args[0] + ",", Join(args[1..]), 0, ")");
      }
    }
  }

  lemma SpanReads(text: string, start: nat, part: string, terminators: string)
    requires At(text, start, part) && Enclosed(part, 0, terminators)
    requires start + |part| < |text| && text[start + |part|] in terminators
    ensures SpanOf(text, start, terminators) == Strip(part)
  {
    SpanPasses(text, start, part, 0, terminators);
    AtIs(text, start, part);
  }

  lemma ArgumentsStand(text: string, paren: nat, inside: string)
    requires At(text, paren, "(" + (inside + ")"))
    ensures At(text, paren + 1, inside)
    ensures var close := paren + 1 + |inside|; close < |text| && text[close] == ')'
  {
    AtSplit(text, paren, "(", inside + ")");
    AtSplit(text, paren + 1, inside, ")");
    AtRest(text, paren + 1 + |inside|, ")");
  }

  lemma FirstStands(text: string, start: nat, args: seq<string>)
    requires args != [] && At(text, start, Join(args))
    requires var close := start + |Join(args)|; close < |text| && text[close] == ')'
    ensures At(text, start, args[0])
    ensures var end := start + |args[0]|; end < |text| && (text[end] == ',' || text[end] == ')')
  {
    if |args| > 1 {
      AtSplit3(text, start, args[0], ",", Join(args[1..]));
      AtRest(text, start + |args[0]|, ",");
    }
  }

  // A call read back from its own print: the first argument and the whole argument text, whatever follows the call
  // and however it is broken over lines.
  lemma {:induction false} CallReadsBack(text: string, paren: nat, args: seq<string>)
    requires Arguments(args) && At(text, paren, "(" + (Join(args) + ")"))
    ensures SpanOf(text, paren + 1, ")") == Strip(Join(args))
    ensures SpanOf(text, paren + 1, ",)") == if args == [] then "" else Strip(args[0])
  {
    ArgumentsStand(text, paren, Join(args));
    JoinEnclosed(args);
    SpanReads(text, paren + 1, Join(args), ")");
    if args == [] {
      SpanReads(text, paren + 1, "", ",)");
    } else {
      assert args[0] in args;
      FirstStands(text, paren + 1, args);
      SpanReads(text, paren + 1, args[0], ",)");
    }
  }

  // -------------------------------------------------------------------------
  // _literal_length
  // -------------------------------------------------------------------------

  function Separators(text: string, i: nat, depth: int): nat
    requires i <= |text|
    decreases |text| - i
  {
    if i == |text| then 0
    else
      (if text[i] == ',' && depth == 0 then 1 else 0) + Separators(text, i + 1, depth + Delta(text[i]))
  }

  // A comma that stands where as many brackets have closed as opened.
  predicate Separates(text: string, k: nat) {
    k < |text| && text[k] == ',' && Depth(text[..k]) == 0
  }

  function Separating(text: string, i: nat): set<nat>
    requires i <= |text|
  {
    set k: nat | i <= k < |text| && Separates(text, k)
  }

  lemma SeparatingStep(text: string, i: nat)
    requires i < |text|
    ensures |Separating(text, i)| == |Separating(text, i + 1)| + if Separates(text, i) then 1 else 0
  {
    if Separates(text, i) {
      assert Separating(text, i) == Separating(text, i + 1) + {i};
    } else {
      assert Separating(text, i) == Separating(text, i + 1);
    }
  }

  lemma {:induction false} SeparatorsExactly(text: string, i: nat)
    requires i <= |text|
    ensures Separators(text, i, Depth(text[..i])) == |Separating(text, i)|
    decreases |text| - i
  {
    if i < |text| {
      DepthAfter(text, i);
      SeparatorsExactly(text, i + 1);
      SeparatingStep(text, i);
    } else {
      assert Separating(text, i) == {};
    }
  }

  function LengthOf(expr: string): Option<nat> {
    if |expr| < 2 || expr[0] != '[' || expr[|expr| - 1] != ']' then None
    else
      var inner := expr[1..|expr| - 1];
      if Strip(inner) == "" then Some(0) else Some(Separators(inner, 0, 0) + 1)
  }

  method LiteralLength(expr: string) returns (length: Option<nat>)
    ensures length == LengthOf(expr)
  {
    if |expr| < 2 || expr[0] != '[' || expr[|expr| - 1] != ']' {
      return None;
    }
    var inner := expr[1..|expr| - 1];
    if Strip(inner) == "" {
      return Some(0);
    }
    var depth := 0;
    var separators: nat := 0;
    var i := 0;
    while i < |inner|
      invariant 0 <= i <= |inner|
      invariant separators + Separators(inner, i, depth) == Separators(inner, 0, 0)
    {
      if Delta(inner[i]) != 0 {
        depth := depth + Delta(inner[i]);
      } else if inner[i] == ',' && depth == 0 {
        separators := separators + 1;
      }
      i := i + 1;
    }
    return Some(separators + 1);
  }

  // Of any expression: none unless it stands in square brackets, nothing when only white text does between them, and
  // else one more than the commas outside every inner bracket.
  lemma LengthExactly(expr: string)
    ensures LengthOf(expr).Some? <==> |expr| >= 2 && expr[0] == '[' && expr[|expr| - 1] == ']'
    ensures LengthOf(expr).Some? ==>
              var inner := expr[1..|expr| - 1];
              LengthOf(expr).value == if AllWhite(inner) then 0 else |Separating(inner, 0)| + 1
  {
    if LengthOf(expr).Some? {
      var inner := expr[1..|expr| - 1];
      StripsAway(inner);
      assert inner[..0] == "";
        SeparatorsExactly(inner, 0);
    }
  }

  // An element: not blank, its brackets close, and no comma stands outside them.
  predicate Element(text: string) {
    Strip(text) != "" && Enclosed(text, 0, ",")
  }

  predicate Elements(texts: seq<string>) {
    texts != [] && forall e | e in texts :: Element(e)
  }

  // Text between commas, blank or not.
  predicate Commaless(texts: seq<string>) {
    forall e | e in texts :: Enclosed(e, 0, ",")
  }

  lemma {:induction false} ElementPasses(text: string, i: nat, part: string, depth: int)
    requires At(text, i, part) && Enclosed(part, depth, ",")
    ensures Separators(text, i, depth) == Separators(text, i + |part|, 0)
    decreases |part|
  {
    if part != "" {
      AtRest(text, i, part);
      ElementPasses(text, i + 1, part[1..], depth + Delta(part[0]));
    }
  }

  lemma {:induction false} JoinSeparators(text: string, i: nat, elements: seq<string>)
    requires elements != [] && Commaless(elements)
    requires At(text, i, Join(elements)) && i + |Join(elements)| == |text|
    ensures Separators(text, i, 0) == |elements| - 1
    decreases |elements|
  {
    assert elements[0] in elements;
    if |elements| == 1 {
      ElementPasses(text, i, elements[0], 0);
    } else {
      AtSplit3(text, i, elements[0], ",", Join(elements[1..]));
      AtRest(text, i + |elements[0]|, ",");
      ElementPasses(text, i, elements[0], 0);
      JoinSeparators(text, i + |elements[0]| + 1, elements[1..]);
    }
  }

  // A literal printed from its elements counts them, nested brackets and their commas aside.
  lemma {:induction false} LiteralCountsElements(elements: seq<string>)
    requires Elements(elements)
    ensures LengthOf("[" + Join(elements) + "]") == Some(|elements|)
  {
    assert elements[0] in elements;
    JoinNotBlank(elements);
    JoinedLength(elements);
  }

  lemma {:induction false} JoinedLength(texts: seq<string>)
    requires texts != [] && Commaless(texts) && Strip(Join(texts)) != ""
    ensures LengthOf("[" + Join(texts) + "]") == Some(|texts|)
  {
    var inner := Join(texts);
    assert ("[" + inner + "]")[1..|inner| + 1] == inner;
    AtWhole(inner);
    JoinSeparators(inner, 0, texts);
  }

  lemma JoinNotBlank(texts: seq<string>)
    requires texts != [] && Strip(texts[0]) != ""
    ensures Strip(Join(texts)) != ""
  {
    StripBlank(texts[0]);
    StripBlank(Join(texts));
    var c :| c in texts[0] && !Space(c);
    assert texts[0] <= Join(texts);
    assert c in Join(texts);
  }

  // A trailing comma, with or without blank text behind it, is counted as one more element.
  lemma TrailingCommaMiscounts(elements: seq<string>, blank: string)
    requires Elements(elements) && Strip(blank) == ""
    ensures LengthOf("[" + (Join(elements) + "," + blank) + "]") == Some(|elements| + 1)
  {
    var more := elements + [blank];
    assert elements[0] in elements && more[0] == elements[0];
    JoinAppend(elements, blank);
    BlankIsEnclosed(blank);
    JoinNotBlank(more);
    JoinedLength(more);
  }

  lemma {:induction false} SpacesEnclosed(blank: string)
    requires forall c | c in blank :: Space(c)
    ensures Enclosed(blank, 0, ",")
    decreases |blank|
  {
    if blank != "" {
      assert blank[0] in blank;
      SpacesEnclosed(blank[1..]);
    }
  }

  lemma BlankIsEnclosed(blank: string)
    requires Strip(blank) == ""
    ensures Enclosed(blank, 0, ",")
  {
    StripBlank(blank);
    SpacesEnclosed(blank);
  }

  lemma {:induction false} JoinAppend(elements: seq<string>, last: string)
    requires elements != []
    ensures Join(elements + [last]) == Join(elements) + "," + last
    decreases |elements|
  {
    var more := elements + [last];
    assert more[1..] == elements[1..] + [last];
    if |elements| > 1 {
      JoinAppend(elements[1..], last);
      Assoc(elements[0] + ",", Join(elements[1..]), "," + last);
      Assoc(Join(elements[1..]), ",", last);
      Assoc(Join(elements), ",", last);
    } else {
      assert more[1..] == [last];
    }
  }
}
