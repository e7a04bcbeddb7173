// `_blank_js` of scripts/validate/validate_cross_document_facts.py: JavaScript source with every comment and string
// body blanked out, length and line numbers kept.
module JsBlank {
  import opened Windows

  datatype Error = OpenComment | OpenString(at: nat)

  datatype Result = Blank(text: string) | Refused(error: Error)

  predicate Quote(c: char) {
    c == '\'' || c == '"' || c == '`'
  }

  function Spaces(n: nat): (s: string)
    ensures |s| == n
  {
    seq(n, _ => ' ')
  }

  function Hidden(text: string): (r: string)
    ensures |r| == |text|
  {
    seq(|text|, i requires 0 <= i < |text| => if text[i] == '\n' then '\n' else ' ')
  }

  function LineEnd(text: string, i: nat): (end: nat)
    requires i <= |text|
    ensures i <= end <= |text|
    decreases |text| - i
  {
    if i == |text| || text[i] == '\n' then i else LineEnd(text, i + 1)
  }

  lemma {:induction false} LineEndIsFirst(text: string, i: nat)
    requires i <= |text|
    ensures '\n' !in text[i..LineEnd(text, i)]
    ensures LineEnd(text, i) < |text| ==> text[LineEnd(text, i)] == '\n'
    decreases |text| - i
  {
    if i < |text| && text[i] != '\n' {
      LineEndIsFirst(text, i + 1);
      assert text[i..LineEnd(text, i)] == [text[i]] + text[i + 1..LineEnd(text, i)];
    }
  }

  predicate PairAt(text: string, i: nat, a: char, b: char) {
    i + 1 < |text| && text[i] == a && text[i + 1] == b
  }

  // Where the next `*/` begins, or the end of the text when there is none.
  function CommentEnd(text: string, i: nat): (end: nat)
    ensures end < |text| ==> i <= end && PairAt(text, end, '*', '/')
    decreases if i < |text| then |text| - i else 0
  {
    if i >= |text| then |text| else if PairAt(text, i, '*', '/') then i else CommentEnd(text, i + 1)
  }

  lemma {:induction false} CommentEndIsFirst(text: string, i: nat, j: nat)
    requires i <= j < CommentEnd(text, i) < |text|
    ensures !PairAt(text, j, '*', '/')
    decreases j - i
  {
    if i < j { CommentEndIsFirst(text, i + 1, j); }
  }

  // Where an unescaped `quote` stands, or past the end when there is none.
  function StringEnd(text: string, i: nat, quote: char): (end: nat)
    ensures i <= end && (end < |text| ==> text[end] == quote)
    decreases if i < |text| then |text| - i else 0
  {
    if i >= |text| || text[i] == quote then i
    else StringEnd(text, i + (if text[i] == '\\' then 2 else 1), quote)
  }

  function Behind(front: string, r: Result): Result {
    if r.Blank? then Blank(front + r.text) else r
  }

  // What one step of the scan appends and where it goes on, or why it refuses.
  datatype Step = Piece(kept: string, next: nat) | Open(error: Error)

  function StepAt(text: string, i: nat): (r: Step)
    requires i < |text|
    ensures r.Piece? ==> i < r.next <= |text|
  {
    if PairAt(text, i, '/', '/') then
      var stop := LineEnd(text, i);
      assert LineEnd(text, i) == LineEnd(text, i + 1);
      Piece(Spaces(stop - i), stop)
    else if PairAt(text, i, '/', '*') then
      var stop := CommentEnd(text, i + 2);
      if stop >= |text| then Open(OpenComment) else Piece(Hidden(text[i..stop + 2]), stop + 2)
    else if Quote(text[i]) then
      var stop := StringEnd(text, i + 1, text[i]);
      if stop >= |text| then Open(OpenString(i))
      else Piece([text[i]] + Hidden(text[i + 1..stop]) + [text[i]], stop + 1)
    else Piece([text[i]], i + 1)
  }

  function BlankFrom(text: string, i: nat): Result
    requires i <= |text|
    decreases |text| - i
  {
    if i == |text| then Blank("")
    else
      match StepAt(text, i)
      case Piece(kept, next) => Behind(kept, BlankFrom(text, next))
      case Open(error) => Refused(error)
  }

  lemma BehindTwice(a: string, b: string, r: Result)
    ensures Behind(a, Behind(b, r)) == Behind(a + b, r)
  {
    if r.Blank? {
      Assoc(a, b, r.text);
    }
  }

  method ReadPiece(text: string, i: nat) returns (r: Step)
    requires i < |text|
    ensures r == StepAt(text, i)
  {
    if PairAt(text, i, '/', '/') {
      var stop := LineEnd(text, i);
      return Piece(Spaces(stop - i), stop);
    }
    if PairAt(text, i, '/', '*') {
      var stop := CommentEnd(text, i + 2);
      if stop >= |text| {
        return Open(OpenComment);
      }
      return Piece(Hidden(text[i..stop + 2]), stop + 2);
    }
    if Quote(text[i]) {
      var stop := i + 1;
      while stop < |text| && text[stop] != text[i]
        invariant i + 1 <= stop
        invariant StringEnd(text, stop, text[i]) == StringEnd(text, i + 1, text[i])
      {
        stop := stop + if text[stop] == '\\' then 2 else 1;
      }
      if stop >= |text| {
        return Open(OpenString(i));
      }
      return Piece([text[i]] + Hidden(text[i + 1..stop]) + [text[i]], stop + 1);
    }
    return Piece([text[i]], i + 1);
  }

  method BlankJs(text: string) returns (r: Result)
    ensures r == BlankFrom(text, 0)
  {
    var out := "";
    var i := 0;
    while i < |text|
      invariant 0 <= i <= |text|
      invariant Behind(out, BlankFrom(text, i)) == BlankFrom(text, 0)
    {
      var piece := ReadPiece(text, i);
      if piece.Open? {
        return Refused(piece.error);
      }
      BehindTwice(out, piece.kept, BlankFrom(text, piece.next));
      out := out + piece.kept;
      i := piece.next;
    }
    assert out + "" == out;
    return Blank(out);
  }

  // -------------------------------------------------------------------------
  // Tokens
  // -------------------------------------------------------------------------

  datatype Token =
    | Ch(c: char)
    | LineComment(text: string)
    | BlockComment(text: string)
    | Quoted(quote: char, body: string)

  function PrintToken(token: Token): string {
    match token
    case Ch(c) => [c]
    case LineComment(text) => "//" + text
    case BlockComment(text) => "/*" + text + "*/"
    case Quoted(quote, body) => [quote] + body + [quote]
  }

  function Print(tokens: seq<Token>): string {
    if tokens == [] then "" else PrintToken(tokens[0]) + Print(tokens[1..])
  }

  function KeptToken(token: Token): (r: string)
    ensures |r| == |PrintToken(token)|
  {
    match token
    case Ch(c) => [c]
    case LineComment(text) => Spaces(2 + |text|)
    case BlockComment(text) => Hidden("/*" + text + "*/")
    case Quoted(quote, body) => [quote] + Hidden(body) + [quote]
  }

  function Kept(tokens: seq<Token>): (r: string)
    ensures |r| == |Print(tokens)|
  {
    if tokens == [] then "" else KeptToken(tokens[0]) + Kept(tokens[1..])
  }

  // A string's body: pieces that are a backslash with any character, or a character that is neither the quote nor a
  // backslash.
  predicate StringBody(body: string, quote: char) {
    body == "" ||
    if body[0] == '\\' then |body| > 1 && StringBody(body[2..], quote)
    else body[0] != quote && StringBody(body[1..], quote)
  }

  // A comment's body: with the closer behind it, none of its characters begins a `*/`.
  predicate ClosedAfter(body: string) {
    forall i: nat | i < |body| :: !(body[i] == '*' && (body + "*/")[i + 1] == '/')
  }

  // A token that is read whole when `following` stands behind it.
  predicate Whole(token: Token, following: string) {
    match token
    case Ch(c) =>
      && c != '\'' && c != '"' && c != '`'
      && !(c == '/' && following != "" && (following[0] == '/' || following[0] == '*'))
    case LineComment(text) => '\n' !in text && (following != "" ==> following[0] == '\n')
    case BlockComment(text) => ClosedAfter(text)
    case Quoted(quote, body) => (quote == '\'' || quote == '"' || quote == '`') && StringBody(body, quote)
  }

  // The scan for a closing quote ends exactly behind a body of such pieces.
  lemma {:induction false} StringEndIsBody(text: string, i: nat, end: nat, quote: char)
    requires i <= end < |text| && quote != '\\'
    ensures StringEnd(text, i, quote) == end <==> text[end] == quote && StringBody(text[i..end], quote)
    decreases end - i
  {
    var body := text[i..end];
    if i < end {
      assert body[0] == text[i];
      if text[i] == '\\' {
        if i + 2 <= end {
          assert body[2..] == text[i + 2..end];
          StringEndIsBody(text, i + 2, end, quote);
        }
      } else {
        assert body[1..] == text[i + 1..end];
        StringEndIsBody(text, i + 1, end, quote);
      }
    }
  }

  lemma BodyEnds(body: string, quote: char)
    requires quote != '\\'
    ensures StringEnd(body + [quote], 0, quote) == |body| <==> StringBody(body, quote)
  {
    assert (body + [quote])[0..|body|] == body;
    StringEndIsBody(body + [quote], 0, |body|, quote);
  }

  lemma CommentEnds(body: string)
    ensures CommentEnd(body + "*/", 0) == |body| <==> ClosedAfter(body)
  {
    var text := body + "*/";
    if ClosedAfter(body) {
      CommentEndFirst(text, 0, |body|);
    } else if CommentEnd(text, 0) == |body| {
      var i: nat :| i < |body| && body[i] == '*' && text[i + 1] == '/';
      CommentEndIsFirst(text, 0, i);
    }
  }

  predicate Stream(tokens: seq<Token>) {
    tokens == [] || (Whole(tokens[0], Print(tokens[1..])) && Stream(tokens[1..]))
  }

  lemma {:induction false} LineEndIs(text: string, i: nat, end: nat)
    requires i <= end <= |text| && '\n' !in text[i..end] && (end < |text| ==> text[end] == '\n')
    ensures LineEnd(text, i) == end
    decreases end - i
  {
    if i < end {
      assert text[i] == text[i..end][0];
      forall c | c in text[i + 1..end] ensures c in text[i..end] {
      }
      LineEndIs(text, i + 1, end);
    }
  }

  // The scan for a closer reads the same in a text as in the part of it that reaches the closer.
  lemma {:induction false} CommentEndShift(text: string, at: nat, part: string, i: nat)
    requires At(text, at, part) && CommentEnd(part, i) < |part|
    ensures CommentEnd(text, at + i) == at + CommentEnd(part, i)
    decreases |part| - i
  {
    forall k: nat | k < |part| ensures text[at + k] == part[k] {
      AtEach(text, at, part, k);
    }
    if !PairAt(part, i, '*', '/') {
      CommentEndShift(text, at, part, i + 1);
    }
  }

  lemma {:induction false} StringEndShift(text: string, at: nat, part: string, i: nat, quote: char)
    requires At(text, at, part) && StringEnd(part, i, quote) < |part|
    ensures StringEnd(text, at + i, quote) == at + StringEnd(part, i, quote)
    decreases |part| - i
  {
    AtEach(text, at, part, i);
    if part[i] != quote {
      StringEndShift(text, at, part, i + (if part[i] == '\\' then 2 else 1), quote);
    }
  }

  lemma ReadsLine(text: string, i: nat, body: string)
    requires At(text, i, "//" + body) && '\n' !in body
    requires var next := i + 2 + |body|; next < |text| ==> text[next] == '\n'
    ensures StepAt(text, i) == Piece(Spaces(2 + |body|), i + 2 + |body|)
  {
    var printed := "//" + body;
    var next := i + 2 + |body|;
    AtIs(text, i, printed);
    AtEach(text, i, printed, 0);
    AtEach(text, i, printed, 1);
    forall c | c in printed ensures c != '\n' {
    }
    LineEndIs(text, i, next);
  }

  lemma BlockCloses(text: string, i: nat, body: string)
    requires At(text, i, "/*" + (body + "*/")) && CommentEnd(body + "*/", 0) == |body|
    ensures PairAt(text, i, '/', '*') && CommentEnd(text, i + 2) == i + 2 + |body|
  {
    AtSplit(text, i, "/*", body + "*/");
    AtRest(text, i, "/*");
    AtRest(text, i + 1, "/*"[1..]);
    CommentEndShift(text, i + 2, body + "*/", 0);
  }

  lemma {:induction false} ReadsBlock(text: string, i: nat, body: string)
    requires At(text, i, "/*" + body + "*/") && CommentEnd(body + "*/", 0) == |body|
    ensures StepAt(text, i) == Piece(Hidden("/*" + body + "*/"), i + 4 + |body|)
  {
    Assoc("/*", body, "*/");
    AtIs(text, i, "/*" + body + "*/");
    BlockCloses(text, i, body);
  }

  lemma ReadsQuoted(text: string, i: nat, quote: char, body: string)
    requires At(text, i, [quote] + body + [quote]) && Quote(quote)
    requires StringEnd(body + [quote], 0, quote) == |body|
    ensures StepAt(text, i) == Piece([quote] + Hidden(body) + [quote], i + 2 + |body|)
  {
    var printed := [quote] + body + [quote];
    assert printed == [quote] + (body + [quote]);
    AtEach(text, i, printed, 0);
    AtSplit(text, i, [quote], body + [quote]);
    StringEndShift(text, i + 1, body + [quote], 0, quote);
    AtSplit(text, i + 1, body, [quote]);
    AtIs(text, i + 1, body);
  }

  lemma ReadsToken(text: string, i: nat, token: Token, following: string)
    requires At(text, i, PrintToken(token)) && At(text, i + |PrintToken(token)|, following)
    requires i + |PrintToken(token)| + |following| == |text|
    requires Whole(token, following)
    ensures i < |text| && StepAt(text, i) == Piece(KeptToken(token), i + |PrintToken(token)|)
  {
    var next := i + |PrintToken(token)|;
    AtRest(text, i, PrintToken(token));
    if following != "" {
      AtRest(text, next, following);
    }
    match token
    case Ch(c) =>
    case LineComment(body) => ReadsLine(text, i, body);
    case BlockComment(body) =>
      CommentEnds(body);
      ReadsBlock(text, i, body);
    case Quoted(quote, body) =>
      BodyEnds(body, quote);
      ReadsQuoted(text, i, quote, body);
  }

  // From `i` the scan keeps `kept` and goes on at `next`.
  predicate Goes(text: string, i: nat, kept: string, next: nat) {
    i <= |text| && next <= |text| && BlankFrom(text, i) == Behind(kept, BlankFrom(text, next))
  }

  lemma ReadsFirst(text: string, i: nat, token: Token, rest: string, next: nat)
    requires At(text, i, PrintToken(token) + rest) && i + |PrintToken(token) + rest| == |text| && Whole(token, rest)
    requires next == i + |PrintToken(token)|
    ensures At(text, next, rest) && Goes(text, i, KeptToken(token), next)
  {
    AtSplit(text, i, PrintToken(token), rest);
    ReadsToken(text, i, token, rest);
    StepGoes(text, i, KeptToken(token), next);
  }

  lemma StepGoes(text: string, i: nat, kept: string, next: nat)
    requires i < |text| && StepAt(text, i) == Piece(kept, next)
    ensures Goes(text, i, kept, next)
  {
  }

  lemma Joined(text: string, i: nat, kept: string, next: nat, more: string)
    requires Goes(text, i, kept, next) && BlankFrom(text, next) == Blank(more)
    ensures BlankFrom(text, i) == Blank(kept + more)
  {
  }

  lemma {:induction false} ReadsStream(text: string, i: nat, tokens: seq<Token>)
    requires Stream(tokens) && At(text, i, Print(tokens)) && i + |Print(tokens)| == |text|
    ensures BlankFrom(text, i) == Blank(Kept(tokens))
    decreases |tokens|
  {
    if tokens != [] {
      var next := i + |PrintToken(tokens[0])|;
      ReadsFirst(text, i, tokens[0], Print(tokens[1..]), next);
      assert next + |Print(tokens[1..])| == |text|;
      ReadsStream(text, next, tokens[1..]);
      assert Kept(tokens) == KeptToken(tokens[0]) + Kept(tokens[1..]);
      Joined(text, i, KeptToken(tokens[0]), next, Kept(tokens[1..]));
    }
  }

  lemma CommentEndPart(text: string, i: nat, end: nat)
    requires i <= end && CommentEnd(text, i) == end < |text|
    ensures var part := text[i..end]; CommentEnd(part + "*/", 0) == |part|
  {
    var part := text[i..end];
    var closed := part + "*/";
    forall j: nat | j < |part| ensures !PairAt(closed, j, '*', '/') {
      CommentEndIsFirst(text, i, i + j);
    }
    CommentEndFirst(closed, 0, |part|);
  }

  lemma {:induction false} CommentEndFirst(text: string, i: nat, end: nat)
    requires i <= end && PairAt(text, end, '*', '/')
    requires forall j: nat | i <= j < end :: !PairAt(text, j, '*', '/')
    ensures CommentEnd(text, i) == end
    decreases end - i
  {
    if i < end {
      CommentEndFirst(text, i + 1, end);
    }
  }

  lemma StreamFirst(token: Token, rest: seq<Token>)
    ensures Print([token] + rest) == PrintToken(token) + Print(rest)
    ensures Stream([token] + rest) <==> Whole(token, Print(rest)) && Stream(rest)
  {
    assert ([token] + rest)[1..] == rest;
  }

  // Text that is not refused is the print of a token stream.
  lemma {:induction false} Tokenized(text: string, i: nat) returns (tokens: seq<Token>)
    requires i <= |text| && BlankFrom(text, i).Blank?
    ensures Stream(tokens) && Print(tokens) == text[i..]
    decreases |text| - i
  {
    if i == |text| {
      tokens := [];
    } else {
      var token, next := FirstToken(text, i);
      var rest := Tokenized(text, next);
      tokens := [token] + rest;
      StreamFirst(token, rest);
      assert text[i..] == text[i..next] + text[next..];
    }
  }

  lemma FirstToken(text: string, i: nat) returns (token: Token, next: nat)
    requires i < |text| && StepAt(text, i).Piece?
    ensures next == StepAt(text, i).next && Begins(text, i, token, next)
  {
    next := StepAt(text, i).next;
    if PairAt(text, i, '/', '/') {
      FirstLine(text, i, next);
      token := LineComment(text[i + 2..next]);
    } else if PairAt(text, i, '/', '*') {
      FirstBlock(text, i, next - 2);
      token := BlockComment(text[i + 2..next - 2]);
    } else if Quote(text[i]) {
      FirstQuoted(text, i, next - 1);
      token := Quoted(text[i], text[i + 1..next - 1]);
    } else {
      FirstChar(text, i);
      token := Ch(text[i]);
    }
  }

  // `token` stands whole from `i` to `next`.
  predicate Begins(text: string, i: nat, token: Token, next: nat) {
    i <= next <= |text| && PrintToken(token) == text[i..next] && Whole(token, text[next..])
  }

  lemma FirstChar(text: string, i: nat)
    requires i < |text| && !PairAt(text, i, '/', '/') && !PairAt(text, i, '/', '*') && !Quote(text[i])
    ensures Begins(text, i, Ch(text[i]), i + 1)
  {
  }

  lemma FirstLine(text: string, i: nat, next: nat)
    requires PairAt(text, i, '/', '/') && next == LineEnd(text, i)
    ensures i + 2 <= next && Begins(text, i, LineComment(text[i + 2..next]), next)
  {
    assert LineEnd(text, i) == LineEnd(text, i + 1) == LineEnd(text, i + 2);
    LineEndIsFirst(text, i + 2);
    assert text[i..next] == "//" + text[i + 2..next];
  }

  lemma FirstQuoted(text: string, i: nat, stop: nat)
    requires i < |text| && Quote(text[i]) && stop == StringEnd(text, i + 1, text[i]) < |text|
    ensures Begins(text, i, Quoted(text[i], text[i + 1..stop]), stop + 1)
  {
    StringEndIsBody(text, i + 1, stop, text[i]);
    SliceEnds(text, i, stop);
  }

  lemma SliceEnds(text: string, i: nat, stop: nat)
    requires i < stop < |text|
    ensures text[i..stop + 1] == [text[i]] + text[i + 1..stop] + [text[stop]]
  {
  }

  lemma FirstBlock(text: string, i: nat, stop: nat)
    requires PairAt(text, i, '/', '*') && stop == CommentEnd(text, i + 2) < |text|
    ensures i + 2 <= stop && stop + 2 <= |text| && Begins(text, i, BlockComment(text[i + 2..stop]), stop + 2)
  {
    CommentEndPart(text, i + 2, stop);
    CommentEnds(text[i + 2..stop]);
    BlockSlice(text, i, stop);
  }

  lemma BlockSlice(text: string, i: nat, stop: nat)
    requires i + 2 <= stop && PairAt(text, i, '/', '*') && PairAt(text, stop, '*', '/')
    ensures text[i..stop + 2] == "/*" + text[i + 2..stop] + "*/"
  {
    assert text[i..stop + 2] == text[i..i + 2] + text[i + 2..stop] + text[stop..stop + 2];
  }

  // -------------------------------------------------------------------------
  // Main results
  // -------------------------------------------------------------------------

  // The text is refused exactly when it is no stream of whole tokens: when a comment or a string is left open.
  lemma RefusedIffUnterminated(text: string)
    ensures BlankFrom(text, 0).Blank? <==> exists tokens :: Stream(tokens) && Print(tokens) == text
  {
    if BlankFrom(text, 0).Blank? {
      var tokens := Tokenized(text, 0);
      assert text[0..] == text;
    }
    if tokens :| Stream(tokens) && Print(tokens) == text {
      AtWhole(text);
      ReadsStream(text, 0, tokens);
    }
  }

  // At `at` stands what the refusal is for: a string no quote behind its body closes, or a comment no `*/` does.
  ghost predicate LeftOpen(text: string, at: nat, error: Error) {
    at < |text| &&
    match error
    case OpenString(k) =>
      && k == at && (text[at] == '\'' || text[at] == '"' || text[at] == '`')
      && forall end | at < end < |text| && text[end] == text[at] :: !StringBody(text[at + 1..end], text[at])
    case OpenComment =>
      && at + 1 < |text| && text[at] == '/' && text[at + 1] == '*'
      && forall k | at + 2 <= k < |text| - 1 :: !(text[k] == '*' && text[k + 1] == '/')
  }

  lemma OpensHere(text: string, i: nat)
    requires i < |text| && StepAt(text, i).Open?
    ensures LeftOpen(text, i, StepAt(text, i).error)
  {
    if PairAt(text, i, '/', '*') {
      forall k | i + 2 <= k < |text| - 1 ensures !(text[k] == '*' && text[k + 1] == '/') {
        NoneCloses(text, i + 2, k);
      }
    } else {
      forall end | i < end < |text| && text[end] == text[i] ensures !StringBody(text[i + 1..end], text[i]) {
        StringEndIsBody(text, i + 1, end, text[i]);
      }
    }
  }

  // Where it is refused, whole tokens stand up to what is left open.
  lemma {:induction false} RefusalNames(text: string, i: nat) returns (tokens: seq<Token>, at: nat)
    requires i <= |text| && BlankFrom(text, i).Refused?
    ensures i <= at <= |text| && Print(tokens) == text[i..at] && LeftOpen(text, at, BlankFrom(text, i).error)
    decreases |text| - i
  {
    if StepAt(text, i).Open? {
      tokens, at := [], i;
      OpensHere(text, i);
    } else {
      var token, next := FirstToken(text, i);
      var below;
      below, at := RefusalNames(text, next);
      tokens := [token] + below;
      StreamFirst(token, below);
      assert text[i..at] == text[i..next] + text[next..at];
    }
  }

  lemma {:induction false} NoneCloses(text: string, i: nat, k: nat)
    requires i <= k && CommentEnd(text, i) >= |text|
    ensures !PairAt(text, k, '*', '/')
    decreases k - i
  {
    if i < k {
      NoneCloses(text, i + 1, k);
    }
  }

  // Which characters of a token, and of a printed stream, are code rather than the inside of a comment or a string.
  function MaskOf(token: Token): (mask: seq<bool>)
    ensures |mask| == |PrintToken(token)|
  {
    var n := |PrintToken(token)|;
    match token
    case Ch(_) => [true]
    case Quoted(_, _) => seq(n, i => i == 0 || i == n - 1)
    case _ => seq(n, i => false)
  }

  function CodeMask(tokens: seq<Token>): (mask: seq<bool>)
    ensures |mask| == |Print(tokens)|
  {
    if tokens == [] then [] else MaskOf(tokens[0]) + CodeMask(tokens[1..])
  }

  // Every character of code survives at its own offset, every newline stays, and nothing else does.
  predicate Survives(text: string, kept: string, mask: seq<bool>) {
    && |kept| == |mask| == |text|
    && forall i | 0 <= i < |text| :: kept[i] == if mask[i] || text[i] == '\n' then text[i] else ' '
  }

  lemma TokenSurvives(token: Token, following: string)
    requires Whole(token, following)
    ensures Survives(PrintToken(token), KeptToken(token), MaskOf(token))
  {
    match token
    case Ch(c) =>
    case LineComment(text) =>
      var printed := "//" + text;
      forall i | 0 <= i < |printed| ensures printed[i] != '\n' {
        if i >= 2 { assert printed[i] == text[i - 2]; }
      }
    case BlockComment(_) =>
    case Quoted(_, body) =>
      var printed, kept := PrintToken(token), KeptToken(token);
      forall i | 1 <= i <= |body|
        ensures printed[i] == body[i - 1] && kept[i] == if body[i - 1] == '\n' then '\n' else ' '
      {
        assert kept[i] == Hidden(body)[i - 1];
      }
  }

  lemma SurvivesConcat(
    text: string, kept: string, mask: seq<bool>, text': string, kept': string, mask': seq<bool>)
    requires Survives(text, kept, mask) && Survives(text', kept', mask')
    ensures Survives(text + text', kept + kept', mask + mask')
  {
  }

  lemma {:induction false} KeptIsCode(tokens: seq<Token>)
    requires Stream(tokens)
    ensures Survives(Print(tokens), Kept(tokens), CodeMask(tokens))
    decreases |tokens|
  {
    if tokens != [] {
      var rest := tokens[1..];
      KeptIsCode(rest);
      TokenSurvives(tokens[0], Print(rest));
      SurvivesConcat(PrintToken(tokens[0]), KeptToken(tokens[0]), MaskOf(tokens[0]),
                     Print(rest), Kept(rest), CodeMask(rest));
    }
  }

  // The blanked text as a stream of its own: comments become plain characters, strings keep their quotes.
  function Chars(text: string): (r: seq<Token>)
    ensures |r| == |text|
  {
    seq(|text|, i requires 0 <= i < |text| => Ch(text[i]))
  }

  function Calm(token: Token): seq<Token> {
    match token
    case Ch(c) => [token]
    case LineComment(_) => Chars(KeptToken(token))
    case BlockComment(_) => Chars(KeptToken(token))
    case Quoted(quote, body) => [Quoted(quote, Hidden(body))]
  }

  function CalmAll(tokens: seq<Token>): seq<Token> {
    if tokens == [] then [] else Calm(tokens[0]) + CalmAll(tokens[1..])
  }

  predicate Blanks(text: string) {
    forall i | 0 <= i < |text| :: text[i] == ' ' || text[i] == '\n'
  }

  lemma OneCalm(token: Token, rest: seq<Token>)
    requires Stream(rest) && Whole(token, Print(rest))
    ensures var all := [token] + rest;
            Stream(all) && Print(all) == PrintToken(token) + Print(rest) && Kept(all) == KeptToken(token) + Kept(rest)
  {
    assert ([token] + rest)[1..] == rest;
  }

  lemma FirstJoins(text: string, rest: string)
    requires text != ""
    ensures text + rest == [text[0]] + (text[1..] + rest)
  {
  }

  lemma CharsSplit(text: string, rest: seq<Token>)
    requires text != ""
    ensures Chars(text) + rest == [Ch(text[0])] + (Chars(text[1..]) + rest)
  {
  }

  lemma {:induction false} FirstCalm(text: string, rest: seq<Token>)
    requires text != "" && Blanks(text) && Stream(rest)
    requires var below := Chars(text[1..]) + rest;
             Stream(below) && Print(below) == text[1..] + Print(rest) && Kept(below) == text[1..] + Kept(rest)
    ensures var all := Chars(text) + rest;
            Stream(all) && Print(all) == text + Print(rest) && Kept(all) == text + Kept(rest)
  {
    var below := Chars(text[1..]) + rest;
    OneCalm(Ch(text[0]), below);
    CharsSplit(text, rest);
    FirstJoins(text, Print(rest));
    FirstJoins(text, Kept(rest));
  }

  lemma {:induction false} CharsCalm(text: string, rest: seq<Token>)
    requires Blanks(text) && Stream(rest)
    ensures var all := Chars(text) + rest;
            Stream(all) && Print(all) == text + Print(rest) && Kept(all) == text + Kept(rest)
    decreases |text|
  {
    if text == "" {
      assert Chars(text) + rest == rest && text + Print(rest) == Print(rest) && text + Kept(rest) == Kept(rest);
    } else {
      CharsCalm(text[1..], rest);
      FirstCalm(text, rest);
    }
  }

  lemma {:induction false} HiddenIsBody(body: string, quote: char)
    requires quote == '\'' || quote == '"' || quote == '`'
    ensures StringBody(Hidden(body), quote)
    decreases |body|
  {
    if body != "" {
      assert Hidden(body)[1..] == Hidden(body[1..]);
      HiddenIsBody(body[1..], quote);
    }
  }

  lemma HiddenTwice(body: string)
    ensures Hidden(Hidden(body)) == Hidden(body)
  {
  }

  // The first character after a token is a `/` or `*` in the blanked text only if it was one before.
  lemma FirstKept(tokens: seq<Token>)
    requires Stream(tokens) && tokens != []
    ensures Kept(tokens) != "" && Print(tokens) != ""
    ensures Kept(tokens)[0] == Print(tokens)[0] || Kept(tokens)[0] == ' '
  {
    var token := tokens[0];
    assert PrintToken(token) != "";
    assert KeptToken(token)[0] == PrintToken(token)[0] || KeptToken(token)[0] == ' ';
  }

  lemma {:induction false} CalmIsKept(tokens: seq<Token>)
    requires Stream(tokens)
    ensures Stream(CalmAll(tokens)) && Print(CalmAll(tokens)) == Kept(tokens) == Kept(CalmAll(tokens))
    decreases |tokens|
  {
    if tokens != [] {
      var rest := tokens[1..];
      CalmIsKept(rest);
      match tokens[0]
      case Ch(c) =>
        if rest != [] {
          FirstKept(rest);
        }
        OneCalm(tokens[0], CalmAll(rest));
      case LineComment(_) => CharsCalm(KeptToken(tokens[0]), CalmAll(rest));
      case BlockComment(_) => CharsCalm(KeptToken(tokens[0]), CalmAll(rest));
      case Quoted(quote, body) =>
        HiddenIsBody(body, quote);
        HiddenTwice(body);
        OneCalm(Quoted(quote, Hidden(body)), CalmAll(rest));
    }
  }

  // Blanking keeps every offset and every newline, and blanking again changes nothing.
  lemma BlankingKeepsOffsets(text: string)
    requires BlankFrom(text, 0).Blank?
    ensures var out := BlankFrom(text, 0).text;
            && |out| == |text|
            && (forall i | 0 <= i < |text| :: out[i] == text[i] || (out[i] == ' ' && text[i] != '\n'))
            && BlankFrom(out, 0) == Blank(out)
  {
    var tokens := Tokenized(text, 0);
    assert text[0..] == text;
    AtWhole(text);
    ReadsStream(text, 0, tokens);
    KeptIsCode(tokens);
    CalmIsKept(tokens);
    var out := Kept(tokens);
    AtWhole(out);
    ReadsStream(out, 0, CalmAll(tokens));
  }

  // On a printed stream the result is the code of the stream, character by character.
  lemma BlankingKeepsCode(tokens: seq<Token>)
    requires Stream(tokens)
    ensures var text, mask := Print(tokens), CodeMask(tokens);
            var out := BlankFrom(text, 0);
            out.Blank? && Survives(text, out.text, mask)
  {
    var text := Print(tokens);
    AtWhole(text);
    ReadsStream(text, 0, tokens);
    KeptIsCode(tokens);
  }
}
