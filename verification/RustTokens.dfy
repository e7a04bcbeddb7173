// Streams of Rust tokens, how they are written over lines, and what is left of them once literals are blanked.
module RustTokens {
  import opened Windows
  import opened Wrappers
  import opened RustLexer

  // A string's `parts` are the pieces of its body line by line. Anything the lexer treats as itself is a `Ch`.
  datatype Token =
    | Ch(c: char)
    | CharLit(body: string)
    | Str(parts: seq<string>)
    | Raw(hashes: nat, parts: seq<string>)
    | Comment(text: string)
    | NewLine

  function Prepend(text: string, lines: seq<string>): (r: seq<string>)
    requires lines != []
    ensures |r| == |lines|
  {
    [text + lines[0]] + lines[1..]
  }

  // `parts` laid over their lines, opened in front and closed behind.
  function Wrap(open: string, parts: seq<string>, close: string, lines: seq<string>): (r: seq<string>)
    requires parts != [] && lines != []
    ensures |r| == |parts| - 1 + |lines|
    decreases |parts|
  {
    if |parts| == 1 then Prepend(open + parts[0] + close, lines)
    else [open + parts[0]] + Wrap("", parts[1..], close, lines)
  }

  function Print(tokens: seq<Token>): (lines: seq<string>)
    requires WellFormed(tokens)
    ensures lines != []
  {
    if tokens == [] then [""]
    else
      var rest := Print(tokens[1..]);
      match tokens[0]
      case Ch(c) => Prepend([c], rest)
      case CharLit(body) => Prepend("'" + body + "'", rest)
      case Str(parts) => Wrap("\"", parts, "\"", rest)
      case Raw(n, parts) => Wrap("r" + Hashes(n) + "\"", parts, "\"" + Hashes(n), rest)
      case Comment(text) => Prepend("//" + text, rest)
      case NewLine => [""] + rest
  }

  function Empty(parts: seq<string>): (r: seq<string>)
    ensures |r| == |parts|
  {
    seq(|parts|, _ => "")
  }

  // What is left: code as it stands, `""` where a string ends, `''` for a character, comments without braces.
  function Kept(tokens: seq<Token>): (lines: seq<string>)
    requires WellFormed(tokens)
    ensures |lines| == |Print(tokens)|
  {
    if tokens == [] then [""]
    else
      var rest := Kept(tokens[1..]);
      match tokens[0]
      case Ch(c) => Prepend([c], rest)
      case CharLit(body) => Prepend("''", rest)
      case Str(parts) => Wrap("", Empty(parts), "\"\"", rest)
      case Raw(n, parts) => Wrap("", Empty(parts), "\"\"", rest)
      case Comment(text) => Prepend(WithoutBraces("//" + text), rest)
      case NewLine => [""] + rest
  }

  // A piece of a string body: no quote that closes it. A piece ending in a lone `\` goes on to the next line.
  predicate StringPiece(part: string, last: bool) {
    part == "" ||
    if part[0] == '\\' then (if |part| == 1 then !last else StringPiece(part[2..], last))
    else part[0] != '"' && StringPiece(part[1..], last)
  }

  predicate RawPiece(part: string, closer: string) {
    forall i: nat | i < |part| :: !StartsAt(part + closer, i, closer)
  }

  // What stands between the quotes of a character: one character, or a backslash and one.
  predicate CharBody(body: string) {
    (|body| == 1 && body[0] != '\'' && body[0] != '\\') || (|body| == 2 && body[0] == '\\')
  }

  predicate WellFormedToken(token: Token) {
    match token
    case Ch(_) => true
    case CharLit(body) => CharBody(body)
    case Str(parts) => parts != [] && forall i: nat | i < |parts| :: StringPiece(parts[i], i == |parts| - 1)
    case Raw(n, parts) => parts != [] && forall i: nat | i < |parts| :: RawPiece(parts[i], "\"" + Hashes(n))
    case Comment(_) => true
    case NewLine => true
  }

  predicate WellFormed(tokens: seq<Token>) {
    tokens == [] || (WellFormedToken(tokens[0]) && WellFormed(tokens[1..]))
  }

  // A character literal of `n` characters stands whole at `i`.
  predicate CharAt(line: string, i: nat, n: nat) {
    n >= 2 && i + n <= |line| && line[i] == '\'' && line[i + n - 1] == '\'' && CharBody(line[i + 1..i + n - 1])
  }

  // A letter, a digit or an underscore, which makes a following `r` the end of a longer word.
  predicate Wordy(previous: Option<char>) {
    previous.Some? &&
    var c := previous.value;
    'a' <= c <= 'z' || 'A' <= c <= 'Z' || '0' <= c <= '9' || c == '_'
  }

  // An `r`, `n` hashes and a quote stand at `i`.
  predicate RawAt(line: string, i: nat, n: nat) {
    && i + 2 + n <= |line| && line[i] == 'r' && line[i + 1 + n] == '"'
    && forall k | i < k <= i + n :: line[k] == '#'
  }

  // A character that stands for itself, given what its line shows around it: it opens no string, comment, character or
  // raw string.
  ghost predicate Itself(c: char, previous: Option<char>, following: string) {
    var text := [c] + following;
    && c != '"' && !(c == '/' && following != "" && following[0] == '/')
    && (forall n: nat :: !CharAt(text, 0, n))
    && (Wordy(previous) || forall n: nat :: !RawAt(text, 0, n))
  }

  // -------------------------------------------------------------------------
  // Recognition is exact
  // -------------------------------------------------------------------------

  // A character literal is recognised exactly where one stands whole.
  lemma CharIsRecognised(line: string, i: nat, n: nat)
    requires i < |line|
    ensures CharLength(line, i) == Some(n) <==> CharAt(line, i, n)
  {
    if CharAt(line, i, n) {
      var body := line[i + 1..i + n - 1];
      assert body[0] == line[i + 1];
    }
    if CharLength(line, i) == Some(n) {
      assert line[i + 1..i + n - 1][0] == line[i + 1];
    }
  }

  lemma {:induction false} HashRunCounts(line: string, i: nat)
    requires i <= |line|
    ensures var n := HashRun(line, i);
            (forall k | i <= k < i + n :: line[k] == '#') && (i + n < |line| ==> line[i + n] != '#')
    decreases |line| - i
  {
    if i < |line| && line[i] == '#' {
      HashRunCounts(line, i + 1);
    }
  }

  // A raw string is recognised, with its hashes, exactly where it opens and no longer word ends in its `r`.
  lemma RawIsRecognised(line: string, i: nat, n: nat)
    requires i < |line|
    ensures RawOpen(line, i) == Some(n) <==> RawAt(line, i, n) && !Wordy(LastOf(line[..i]))
  {
    HashRunCounts(line, i + 1);
  }

  lemma ItselfIsRead(c: char, previous: Option<char>, following: string)
    requires Itself(c, previous, following)
    ensures !StartsAt([c] + following, 0, "//") && CharLength([c] + following, 0).None?
    ensures (previous.Some? && Word(previous.value)) || RawOpen([c] + following, 0).None?
  {
    var text := [c] + following;
    if CharLength(text, 0).Some? {
      CharIsRecognised(text, 0, CharLength(text, 0).value);
    }
    if RawOpen(text, 0).Some? {
      RawIsRecognised(text, 0, RawOpen(text, 0).value);
    }
    if StartsAt(text, 0, "//") {
      assert text[0..2][0] == text[0] && text[0..2][1] == text[1];
    }
  }

  // No token runs into the next: every character of code reads as itself where it is written, a raw string's `r`
  // is not the end of a word, and a comment runs to the end of its line.
  ghost predicate Separated(tokens: seq<Token>, previous: Option<char>)
    requires WellFormed(tokens)
  {
    tokens != [] ==>
      var following := Print(tokens[1..])[0];
      match tokens[0]
      case Ch(c) => Itself(c, previous, following) && Separated(tokens[1..], Some(c))
      case CharLit(_) => Separated(tokens[1..], Some('\''))
      case Str(_) => Separated(tokens[1..], Some('"'))
      case Raw(n, _) =>
        !Wordy(previous) && Separated(tokens[1..], Some(if n == 0 then '"' else '#'))
      case Comment(_) => (|tokens| > 1 ==> tokens[1].NewLine?) && Separated(tokens[1..], Some('/'))
      case NewLine => Separated(tokens[1..], None)
  }

  // -------------------------------------------------------------------------
  // The lexer reads a printed stream token by token
  // -------------------------------------------------------------------------

  // Lines read on from column `i` of the first, in `state`.
  function Resume(lines: seq<string>, i: nat, state: State): (r: seq<string>)
    requires lines != []
    ensures |r| == |lines|
  {
    var first := BlankFrom(lines[0], i, state);
    [first.text] + BlankAll(lines[1..], first.state)
  }

  lemma ResumeStep(lines: seq<string>, i: nat, state: State, text: string, j: nat, state': State)
    requires lines != []
    requires BlankFrom(lines[0], i, state) == Before(text, BlankFrom(lines[0], j, state'))
    ensures Resume(lines, i, state) == Prepend(text, Resume(lines, j, state'))
  {
  }

  lemma PrependTwice(a: string, b: string, lines: seq<string>)
    requires lines != []
    ensures Prepend(a, Prepend(b, lines)) == Prepend(a + b, lines)
  {
    Assoc(a, b, lines[0]);
  }

  // The end of the line, and what follows on the next.
  lemma ResumeNext(line: string, lines: seq<string>, i: nat, state: State)
    requires i >= |line| && lines != []
    ensures Resume([line] + lines, i, state) == [""] + Resume(lines, 0, state)
  {
    assert ([line] + lines)[1..] == lines;
  }

  lemma {:induction false} StringRun(line: string, i: nat, part: string, last: bool)
    requires At(line, i, part) && StringPiece(part, last)
    requires !last ==> i + |part| == |line|
    ensures BlankFrom(line, i, InString)
         == if last then BlankFrom(line, i + |part|, InString) else Blanked("", InString)
    decreases |part|
  {
    if part != "" {
      AtRest(line, i, part);
      if part[0] == '\\' {
        if |part| > 1 {
          AtRest(line, i + 1, part[1..]);
          assert part[1..][1..] == part[2..];
          StringRun(line, i + 2, part[2..], last);
        }
      } else {
        StringRun(line, i + 1, part[1..], last);
      }
    }
  }

  lemma StartsShift(part: string, closer: string, i: nat)
    requires part != ""
    ensures StartsAt(part[1..] + closer, i, closer) <==> StartsAt(part + closer, i + 1, closer)
  {
    assert (part + closer)[1..] == part[1..] + closer;
    if i + |closer| < |part + closer| {
      assert (part + closer)[i + 1..i + 1 + |closer|] == (part + closer)[1..][i..i + |closer|];
    }
  }

  lemma RawPieceStep(part: string, closer: string)
    requires part != "" && RawPiece(part, closer)
    ensures RawPiece(part[1..], closer) && !StartsAt(part + closer, 0, closer)
  {
    forall i: nat | i < |part[1..]| ensures !StartsAt(part[1..] + closer, i, closer) {
      StartsShift(part, closer, i);
    }
  }

  // Whether a closer begins inside a piece depends on nothing past the closer that follows it.
  lemma CloserHere(line: string, i: nat, part: string, closer: string, last: bool)
    requires part != "" && StartsAt(line, i, closer)
    requires At(line, i, if last then part + closer else part)
    requires !last ==> i + |part| == |line|
    ensures StartsAt(part + closer, 0, closer)
  {
    AtIs(line, i, closer);
    if last {
      AtPrefix(line, i, part + closer, closer);
    } else {
      AtPrefix(line, i, part, closer);
      assert (part + closer)[..|closer|] == part[..|closer|];
    }
    assert (part + closer)[0..0 + |closer|] == (part + closer)[..|closer|];
  }

  lemma AtPrefix(line: string, i: nat, whole: string, part: string)
    requires At(line, i, whole) && At(line, i, part) && |part| <= |whole|
    ensures whole[..|part|] == part
  {
    AtIs(line, i, whole);
    AtIs(line, i, part);
    assert line[i..i + |whole|][..|part|] == line[i..i + |part|];
  }

  lemma RawGoesOn(line: string, i: nat, n: nat)
    requires i < |line| && !StartsAt(line, i, "\"" + Hashes(n))
    ensures BlankFrom(line, i, InRaw(n)) == BlankFrom(line, i + 1, InRaw(n))
  {
  }

  // A piece with its closer behind it is passed over up to the closer.
  lemma {:induction false} RawRun(line: string, i: nat, part: string, n: nat, closer: string)
    requires closer == "\"" + Hashes(n) && RawPiece(part, closer) && At(line, i, part + closer)
    ensures BlankFrom(line, i, InRaw(n)) == BlankFrom(line, i + |part|, InRaw(n))
    decreases |part|
  {
    if part != "" {
      RawPieceStep(part, closer);
      if StartsAt(line, i, closer) {
        CloserHere(line, i, part, closer, true);
      }
      RawGoesOn(line, i, n);
      AtRest(line, i, part + closer);
      assert (part + closer)[1..] == part[1..] + closer;
      RawRun(line, i + 1, part[1..], n, closer);
    }
  }

  // A piece that ends its line is passed over to the end.
  lemma {:induction false} RawRunOut(line: string, i: nat, part: string, n: nat, closer: string)
    requires closer == "\"" + Hashes(n) && RawPiece(part, closer) && At(line, i, part) && i + |part| == |line|
    ensures BlankFrom(line, i, InRaw(n)) == Blanked("", InRaw(n))
    decreases |part|
  {
    if part != "" {
      RawPieceStep(part, closer);
      if StartsAt(line, i, closer) {
        CloserHere(line, i, part, closer, false);
      }
      RawGoesOn(line, i, n);
      AtRest(line, i, part);
      RawRunOut(line, i + 1, part[1..], n, closer);
    }
  }

  lemma {:induction false} HashRunExact(line: string, i: nat, n: nat)
    requires At(line, i, Hashes(n)) && i + n < |line| && line[i + n] != '#'
    ensures HashRun(line, i) == n
    decreases n
  {
    if n > 0 {
      AtRest(line, i, Hashes(n));
      assert Hashes(n)[1..] == Hashes(n - 1);
      HashRunExact(line, i + 1, n - 1);
    }
  }

  // What stands on the line once a string has been closed on it.
  function Behind(pre: string, parts: seq<string>, close: string): string
    requires parts != []
  {
    (if |parts| == 1 then pre else "") + parts[|parts| - 1] + close
  }

  // Code read on behind text already on the line.
  function ResumeBehind(pre: string, lines: seq<string>): seq<string>
    requires lines != []
  {
    Resume(Prepend(pre, lines), |pre|, InCode)
  }

  lemma AtFront(pre: string, part: string, rest: string)
    ensures At(pre + part + rest, |pre|, part)
    ensures rest != "" ==> (pre + part + rest)[|pre| + |part|] == rest[0]
  {
    AtIs(pre + part + rest, |pre|, part);
  }

  lemma ClosesHere(pre: string, part: string, closer: string, lines: seq<string>, state: State)
    requires lines != []
    requires var behind := pre + part + closer;
             BlankFrom(behind + lines[0], |pre|, state) ==
             Before("\"\"", BlankFrom(behind + lines[0], |behind|, InCode))
    ensures Resume(Prepend(pre, Wrap("", [part], closer, lines)), |pre|, state)
         == Wrap("", Empty([part]), "\"\"", ResumeBehind(pre + part + closer, lines))
  {
    var behind := pre + part + closer;
    PrependTwice(pre, "" + part + closer, lines);
    assert pre + ("" + part + closer) == behind;
    ResumeStep(Prepend(behind, lines), |pre|, state, "\"\"", |behind|, InCode);
    assert Empty([part])[0] == "" && "" + "" + "\"\"" == "\"\"";
  }

  lemma GoesOnBelow(pre: string, part: string, below: seq<string>, state: State)
    requires below != [] && BlankFrom(pre + part, |pre|, state) == Blanked("", state)
    ensures Resume(Prepend(pre, ["" + part] + below), |pre|, state) == [""] + Resume(Prepend("", below), 0, state)
  {
    assert "" + part == part && "" + below[0] == below[0];
    assert ([part] + below)[1..] == below == Prepend("", below);
  }

  lemma ReadsStringEnd(pre: string, part: string, lines: seq<string>)
    requires lines != [] && StringPiece(part, true)
    ensures Resume(Prepend(pre, Wrap("", [part], "\"", lines)), |pre|, InString)
         == Wrap("", Empty([part]), "\"\"", ResumeBehind(pre + part + "\"", lines))
  {
    var line := pre + part + "\"" + lines[0];
    Assoc(pre + part, "\"", lines[0]);
    AtFront(pre, part, "\"" + lines[0]);
    StringRun(line, |pre|, part, true);
    ClosesHere(pre, part, "\"", lines, InString);
  }

  // From inside a string: its pieces leave nothing, its end leaves `""`, and code is read on behind it.
  lemma {:induction false} ReadsString(pre: string, parts: seq<string>, lines: seq<string>)
    requires parts != [] && lines != []
    requires forall i: nat | i < |parts| :: StringPiece(parts[i], i == |parts| - 1)
    ensures Resume(Prepend(pre, Wrap("", parts, "\"", lines)), |pre|, InString)
         == Wrap("", Empty(parts), "\"\"", ResumeBehind(Behind(pre, parts, "\""), lines))
    decreases |parts|
  {
    var part := parts[0];
    if |parts| == 1 {
      assert StringPiece(part, true) && parts == [part];
      ReadsStringEnd(pre, part, lines);
    } else {
      assert StringPiece(part, false);
      assert pre + part + "" == pre + part;
      AtFront(pre, part, "");
      StringRun(pre + part, |pre|, part, false);
      GoesOnBelow(pre, part, Wrap("", parts[1..], "\"", lines), InString);
      ReadsString("", parts[1..], lines);
      assert Empty(parts)[1..] == Empty(parts[1..]) && "" + Empty(parts)[0] == "";
    }
  }

  lemma RawBehind(pre: string, part: string, closer: string, rest: string)
    ensures At(pre + part + closer + rest, |pre|, part + closer)
  {
    Assoc(pre, part, closer);
    AtFront(pre, part + closer, rest);
  }

  lemma ReadsRawEnd(pre: string, part: string, n: nat, lines: seq<string>)
    requires lines != [] && RawPiece(part, "\"" + Hashes(n))
    ensures Resume(Prepend(pre, Wrap("", [part], "\"" + Hashes(n), lines)), |pre|, InRaw(n))
         == Wrap("", Empty([part]), "\"\"", ResumeBehind(pre + part + ("\"" + Hashes(n)), lines))
  {
    var closer := "\"" + Hashes(n);
    RawBehind(pre, part, closer, lines[0]);
    RawCloses(pre + part + closer + lines[0], |pre|, part, n);
    ClosesHere(pre, part, closer, lines, InRaw(n));
  }

  lemma {:induction false} ReadsRaw(pre: string, parts: seq<string>, n: nat, lines: seq<string>)
    requires parts != [] && lines != []
    requires forall i: nat | i < |parts| :: RawPiece(parts[i], "\"" + Hashes(n))
    ensures Resume(Prepend(pre, Wrap("", parts, "\"" + Hashes(n), lines)), |pre|, InRaw(n))
         == Wrap("", Empty(parts), "\"\"", ResumeBehind(Behind(pre, parts, "\"" + Hashes(n)), lines))
    decreases |parts|
  {
    var closer := "\"" + Hashes(n);
    var part := parts[0];
    if |parts| == 1 {
      assert parts == [part];
      ReadsRawEnd(pre, part, n, lines);
    } else {
      assert pre + part + "" == pre + part;
      AtFront(pre, part, "");
      RawRunOut(pre + part, |pre|, part, n, closer);
      GoesOnBelow(pre, part, Wrap("", parts[1..], closer, lines), InRaw(n));
      ReadsRaw("", parts[1..], n, lines);
      assert Empty(parts)[1..] == Empty(parts[1..]) && "" + Empty(parts)[0] == "";
    }
  }

  lemma RawEnds(line: string, at: nat, n: nat)
    requires At(line, at, "\"" + Hashes(n))
    ensures BlankFrom(line, at, InRaw(n)) == Before("\"\"", BlankFrom(line, at + 1 + n, InCode))
  {
    AtIs(line, at, "\"" + Hashes(n));
  }

  lemma RawCloses(line: string, at: nat, part: string, n: nat)
    requires RawPiece(part, "\"" + Hashes(n)) && At(line, at, part + ("\"" + Hashes(n)))
    ensures BlankFrom(line, at, InRaw(n)) == Before("\"\"", BlankFrom(line, at + |part| + 1 + n, InCode))
  {
    var end := at + |part|;
    assert BlankFrom(line, at, InRaw(n)) == BlankFrom(line, end, InRaw(n)) by {
      RawRun(line, at, part, n, "\"" + Hashes(n));
    }
    assert BlankFrom(line, end, InRaw(n)) == Before("\"\"", BlankFrom(line, end + 1 + n, InCode)) by {
      AtSplit(line, at, part, "\"" + Hashes(n));
      RawEnds(line, end, n);
    }
  }

  function LastOf(pre: string): Option<char> {
    if pre == "" then None else Some(pre[|pre| - 1])
  }

  lemma WrapOpen(pre: string, open: string, parts: seq<string>, close: string, lines: seq<string>)
    requires parts != [] && lines != []
    ensures Prepend(pre, Wrap(open, parts, close, lines)) == Prepend(pre + open, Wrap("", parts, close, lines))
  {
    assert "" + parts[0] == parts[0];
    if |parts| == 1 {
      PrependTwice(pre, open + parts[0] + close, lines);
      PrependTwice(pre + open, parts[0] + close, lines);
      assert pre + (open + parts[0] + close) == pre + open + (parts[0] + close);
    } else {
      assert pre + (open + parts[0]) == pre + open + parts[0];
      assert Wrap(open, parts, close, lines)[1..] == Wrap("", parts, close, lines)[1..];
    }
  }

  // -------------------------------------------------------------------------
  // One token at a time
  // -------------------------------------------------------------------------

  // Recognition looks no further than the line from `i` on, and one character back for `r`.
  lemma ItselfHere(pre: string, c: char, following: string)
    requires Itself(c, LastOf(pre), following)
    ensures var line := pre + [c] + following;
            BlankFrom(line, |pre|, InCode) == Before([c], BlankFrom(line, |pre| + 1, InCode))
  {
    var line := pre + [c] + following;
    var i := |pre|;
    Assoc(pre, [c], following);
    Shift(pre, [c] + following);
    assert line[i] == c;
    ItselfIsRead(c, LastOf(pre), following);
  }

  // What is recognised at the front of `text` is recognised where `text` stands.
  lemma Shift(pre: string, text: string)
    requires text != ""
    ensures var line := pre + text;
            && (StartsAt(line, |pre|, "//") <==> StartsAt(text, 0, "//"))
            && CharLength(line, |pre|) == CharLength(text, 0)
            && RawOpen(line, |pre|)
               == (if LastOf(pre).Some? && Word(LastOf(pre).value) then None else RawOpen(text, 0))
  {
    var line := pre + text;
    assert line[|pre|..] == text;
    if |text| >= 2 {
      assert line[|pre|..|pre| + 2] == text[0..0 + 2];
    }
    HashRunShift(pre, text, 1);
  }

  lemma {:induction false} HashRunShift(pre: string, text: string, i: nat)
    requires i <= |text|
    ensures HashRun(pre + text, |pre| + i) == HashRun(text, i)
    decreases |text| - i
  {
    if i < |text| {
      assert (pre + text)[|pre| + i] == text[i];
      HashRunShift(pre, text, i + 1);
    }
  }

  lemma RawOpens(n: nat, rest: string)
    ensures var text := "r" + Hashes(n) + "\"" + rest; RawOpen(text, 0) == Some(n) && !StartsAt(text, 0, "//")
  {
    var text := "r" + Hashes(n) + "\"" + rest;
    assert text == "r" + Hashes(n) + ("\"" + rest);
    AtFront("r", Hashes(n), "\"" + rest);
    HashRunExact(text, 1, n);
    assert text[0] == 'r';
  }

  lemma CharReads(body: string, rest: string)
    requires WellFormedToken(CharLit(body))
    ensures var text := "'" + body + "'" + rest;
            CharLength(text, 0) == Some(|body| + 2) && RawOpen(text, 0).None? && !StartsAt(text, 0, "//")
  {
    var text := "'" + body + "'" + rest;
    assert text[0] == '\'' && text[1] == body[0] && text[1 + |body|] == '\'';
  }

  // A token recognised behind `pre` leaves `kept`, and the rest is read on behind it.
  lemma ReadsToken(pre: string, token: string, kept: string, lines: seq<string>)
    requires lines != []
    requires var line := pre + token + lines[0];
             BlankFrom(line, |pre|, InCode) == Before(kept, BlankFrom(line, |pre + token|, InCode))
    ensures ResumeBehind(pre, Prepend(token, lines)) == Prepend(kept, ResumeBehind(pre + token, lines))
  {
    PrependTwice(pre, token, lines);
    ResumeStep(Prepend(pre + token, lines), |pre|, InCode, kept, |pre + token|, InCode);
  }

  lemma ReadsCh(pre: string, c: char, lines: seq<string>)
    requires lines != [] && Itself(c, LastOf(pre), lines[0])
    ensures ResumeBehind(pre, Prepend([c], lines)) == Prepend([c], ResumeBehind(pre + [c], lines))
  {
    ItselfHere(pre, c, lines[0]);
    ReadsToken(pre, [c], [c], lines);
  }

  lemma ReadsCharLit(pre: string, body: string, lines: seq<string>)
    requires lines != [] && WellFormedToken(CharLit(body))
    ensures ResumeBehind(pre, Prepend("'" + body + "'", lines))
         == Prepend("''", ResumeBehind(pre + ("'" + body + "'"), lines))
  {
    var token := "'" + body + "'";
    var line := pre + token + lines[0];
    Assoc(pre, token, lines[0]);
    Shift(pre, token + lines[0]);
    CharReads(body, lines[0]);
    assert line[|pre|] == '\'';
    ReadsToken(pre, token, "''", lines);
  }

  // An opening delimiter leaves nothing and changes the state.
  lemma Enters(pre: string, open: string, inside: seq<string>, state: State)
    requires inside != []
    requires BlankFrom(pre + open + inside[0], |pre|, InCode) == BlankFrom(pre + open + inside[0], |pre + open|, state)
    ensures Resume(Prepend(pre + open, inside), |pre|, InCode)
         == Resume(Prepend(pre + open, inside), |pre + open|, state)
  {
  }

  lemma ReadsStr(pre: string, parts: seq<string>, lines: seq<string>)
    requires lines != [] && WellFormedToken(Str(parts))
    ensures ResumeBehind(pre, Wrap("\"", parts, "\"", lines))
         == Wrap("", Empty(parts), "\"\"", ResumeBehind(Behind(pre + "\"", parts, "\""), lines))
  {
    var inside := Wrap("", parts, "\"", lines);
    WrapOpen(pre, "\"", parts, "\"", lines);
    assert (pre + "\"" + inside[0])[|pre|] == '"';
    Enters(pre, "\"", inside, InString);
    ReadsString(pre + "\"", parts, lines);
  }

  lemma EntersRaw(pre: string, n: nat, rest: string)
    requires LastOf(pre).Some? ==> !Word(LastOf(pre).value)
    ensures var open := "r" + Hashes(n) + "\"";
            BlankFrom(pre + open + rest, |pre|, InCode) == BlankFrom(pre + open + rest, |pre + open|, InRaw(n))
  {
    var open := "r" + Hashes(n) + "\"";
    Assoc(pre, open, rest);
    Shift(pre, open + rest);
    RawOpens(n, rest);
    assert |pre + open| == |pre| + 2 + n;
  }

  lemma ReadsRawStr(pre: string, n: nat, parts: seq<string>, lines: seq<string>)
    requires lines != [] && WellFormedToken(Raw(n, parts))
    requires LastOf(pre).Some? ==> !Word(LastOf(pre).value)
    ensures ResumeBehind(pre, Wrap("r" + Hashes(n) + "\"", parts, "\"" + Hashes(n), lines))
         == Wrap("", Empty(parts), "\"\"",
                 ResumeBehind(Behind(pre + ("r" + Hashes(n) + "\""), parts, "\"" + Hashes(n)), lines))
  {
    var open, closer := "r" + Hashes(n) + "\"", "\"" + Hashes(n);
    var inside := Wrap("", parts, closer, lines);
    WrapOpen(pre, open, parts, closer, lines);
    EntersRaw(pre, n, inside[0]);
    Enters(pre, open, inside, InRaw(n));
    ReadsRaw(pre + open, parts, n, lines);
  }

  lemma ReadsComment(pre: string, text: string, lines: seq<string>)
    requires lines != [] && lines[0] == ""
    ensures ResumeBehind(pre, Prepend("//" + text, lines))
         == Prepend(WithoutBraces("//" + text), ResumeBehind(pre + ("//" + text), lines))
  {
    var token := "//" + text;
    var line := pre + token + "";
    assert line == pre + token && line[|pre|..] == token;
    assert line[|pre|..|pre| + 2] == "//";
    assert WithoutBraces(token) + "" == WithoutBraces(token);
    ReadsToken(pre, token, WithoutBraces(token), lines);
  }

  lemma {:induction false} Reads(tokens: seq<Token>, pre: string)
    requires WellFormed(tokens) && Separated(tokens, LastOf(pre))
    ensures ResumeBehind(pre, Print(tokens)) == Kept(tokens)
    decreases |tokens|
  {
    if tokens == [] {
      assert pre + "" == pre;
    } else {
      var lines := Print(tokens[1..]);
      match tokens[0]
      case Ch(c) =>
        ReadsCh(pre, c, lines);
        Reads(tokens[1..], pre + [c]);
      case CharLit(body) =>
        ReadsCharLit(pre, body, lines);
        Reads(tokens[1..], pre + ("'" + body + "'"));
      case Str(parts) =>
        ReadsStr(pre, parts, lines);
        Reads(tokens[1..], Behind(pre + "\"", parts, "\""));
      case Raw(n, parts) =>
        var behind := Behind(pre + ("r" + Hashes(n) + "\""), parts, "\"" + Hashes(n));
        ReadsRawStr(pre, n, parts, lines);
        BehindRaw(pre, n, parts);
        Reads(tokens[1..], behind);
      case Comment(text) =>
        ReadsComment(pre, text, lines);
        SeparatedAnywhere(tokens[1..], Some('/'), LastOf(pre + ("//" + text)));
        Reads(tokens[1..], pre + ("//" + text));
      case NewLine =>
        ReadsNewLine(pre, lines);
        Reads(tokens[1..], "");
    }
  }

  lemma BehindRaw(pre: string, n: nat, parts: seq<string>)
    requires parts != []
    ensures LastOf(Behind(pre + ("r" + Hashes(n) + "\""), parts, "\"" + Hashes(n))) == Some(if n == 0 then '"' else '#')
  {
  }

  lemma ReadsNewLine(pre: string, lines: seq<string>)
    requires lines != []
    ensures ResumeBehind(pre, [""] + lines) == [""] + ResumeBehind("", lines)
  {
    assert pre + "" == pre;
    ResumeNext(pre, lines, |pre|, InCode);
    assert Prepend(pre, [""] + lines) == [pre] + lines;
    assert "" + lines[0] == lines[0] && Prepend("", lines) == lines;
  }

  lemma SeparatedAnywhere(tokens: seq<Token>, previous: Option<char>, other: Option<char>)
    requires WellFormed(tokens) && Separated(tokens, previous)
    requires tokens == [] || tokens[0].NewLine?
    ensures Separated(tokens, other) && Print(tokens)[0] == ""
  {
  }

  // Blanking a file leaves exactly its code: every token stream, written over any number of lines, comes back with
  // its strings and characters emptied, its comments' braces gone, and each line where it was.
  lemma BlankLiteralsIsFaithful(tokens: seq<Token>)
    requires WellFormed(tokens) && Separated(tokens, None)
    ensures BlankAll(Print(tokens), InCode) == Kept(tokens)
    ensures |BlankAll(Print(tokens), InCode)| == |Print(tokens)|
  {
    Reads(tokens, "");
    var lines := Print(tokens);
    assert "" + lines[0] == lines[0] && Prepend("", lines) == lines;
  }

  // -------------------------------------------------------------------------
  // The braces left are the braces of code
  // -------------------------------------------------------------------------

  function BracesOf(text: string): string {
    if text == "" then ""
    else (if text[0] == '{' || text[0] == '}' then [text[0]] else "") + BracesOf(text[1..])
  }

  function BraceLines(lines: seq<string>): (r: seq<string>)
    ensures |r| == |lines|
  {
    seq(|lines|, i requires 0 <= i < |lines| => BracesOf(lines[i]))
  }

  // The braces that are tokens of code, line by line.
  function CodeBraces(tokens: seq<Token>): (lines: seq<string>)
    requires WellFormed(tokens)
    ensures lines != []
  {
    if tokens == [] then [""]
    else
      var rest := CodeBraces(tokens[1..]);
      match tokens[0]
      case Ch(c) => Prepend(BracesOf([c]), rest)
      case CharLit(_) => rest
      case Str(parts) => Wrap("", Empty(parts), "", rest)
      case Raw(_, parts) => Wrap("", Empty(parts), "", rest)
      case Comment(_) => rest
      case NewLine => [""] + rest
  }

  lemma {:induction false} BracesConcat(a: string, b: string)
    ensures BracesOf(a + b) == BracesOf(a) + BracesOf(b)
    decreases |a|
  {
    if a == "" {
      assert a + b == b;
    } else {
      var first := if a[0] == '{' || a[0] == '}' then [a[0]] else "";
      assert (a + b)[0] == a[0] && (a + b)[1..] == a[1..] + b;
      BracesConcat(a[1..], b);
      Assoc(first, BracesOf(a[1..]), BracesOf(b));
    }
  }

  lemma {:induction false} NoBraces(text: string)
    requires forall i | 0 <= i < |text| :: text[i] != '{' && text[i] != '}'
    ensures BracesOf(text) == ""
    decreases |text|
  {
    if text != "" {
      NoBraces(text[1..]);
    }
  }

  lemma BracesPrepend(text: string, lines: seq<string>)
    requires lines != []
    ensures BraceLines(Prepend(text, lines)) == Prepend(BracesOf(text), BraceLines(lines))
  {
    BracesConcat(text, lines[0]);
  }

  lemma BracesSilent(text: string, lines: seq<string>)
    requires lines != [] && BracesOf(text) == ""
    ensures BraceLines(Prepend(text, lines)) == BraceLines(lines)
  {
    BracesPrepend(text, lines);
    assert "" + BraceLines(lines)[0] == BraceLines(lines)[0];
  }

  lemma {:induction false} BracesWrap(n: seq<string>, close: string, lines: seq<string>)
    requires n != [] && lines != [] && BracesOf(close) == ""
    ensures BraceLines(Wrap("", Empty(n), close, lines)) == Wrap("", Empty(n), "", BraceLines(lines))
    decreases |n|
  {
    assert Empty(n)[0] == "" && "" + "" == "";
    if |n| == 1 {
      assert "" + "" + close == close;
      BracesPrepend(close, lines);
    } else {
      assert Empty(n)[1..] == Empty(n[1..]);
      BracesWrap(n[1..], close, lines);
    }
  }

  lemma {:induction false} KeptBraces(tokens: seq<Token>)
    requires WellFormed(tokens)
    ensures BraceLines(Kept(tokens)) == CodeBraces(tokens)
    decreases |tokens|
  {
    if tokens != [] {
      var rest := Kept(tokens[1..]);
      KeptBraces(tokens[1..]);
      match tokens[0]
      case Ch(c) => BracesPrepend([c], rest);
      case CharLit(_) => NoBraces("''"); BracesSilent("''", rest);
      case Str(parts) => NoBraces("\"\""); BracesWrap(parts, "\"\"", rest);
      case Raw(_, parts) => NoBraces("\"\""); BracesWrap(parts, "\"\"", rest);
      case Comment(text) =>
        NoBraces(WithoutBraces("//" + text));
        BracesSilent(WithoutBraces("//" + text), rest);
      case NewLine =>
    }
  }

  // No brace of a string, a character or a comment is left to move the depth count, and none of code is lost.
  lemma BracesLeftAreCode(tokens: seq<Token>)
    requires WellFormed(tokens) && Separated(tokens, None)
    ensures BraceLines(BlankAll(Print(tokens), InCode)) == CodeBraces(tokens)
  {
    BlankLiteralsIsFaithful(tokens);
    KeptBraces(tokens);
  }

  // The text of a comment is left as it stands, its braces blanked: the markers the analyser looks for are read there.
  lemma CommentsKeepTheirText(text: string)
    ensures var out := BlankAll(["//" + text], InCode)[0];
            && |out| == 2 + |text| && out[..2] == "//"
            && forall i | 0 <= i < |text| ::
                 out[i + 2] == if text[i] == '{' || text[i] == '}' then ' ' else text[i]
  {
    var line := "//" + text;
    assert line[0..2] == "//" && line[0..] == line;
    assert BlankFrom(line, 0, InCode).text == WithoutBraces(line);
    forall i | 0 <= i < |text| ensures line[i + 2] == text[i] {
    }
  }

  // A lifetime is no opening quote: `<'a> {` keeps its brace.
  lemma LifetimesStand(c: char, next: char, pre: string, rest: string)
    requires c != '\'' && c != '\\' && next != '\''
    ensures CharLength(pre + (['\'', c, next] + rest), |pre|).None?
  {
    var line := pre + (['\'', c, next] + rest);
    assert line[|pre|] == '\'' && line[|pre| + 1] == c && line[|pre| + 2] == next;
  }
}
