// `blank_literals` of scripts/validate/validate_test_assertions.py: a lexer that carries its state across lines and
// keeps of each line only what is code, with the text of its comments.
module RustLexer {
  import opened Windows
  import opened Wrappers

  datatype State = InCode | InString | InRaw(hashes: nat)

  function Hashes(n: nat): (s: string)
    ensures |s| == n
  {
    seq(n, _ => '#')
  }

  predicate StartsAt(line: string, i: nat, what: string) {
    i + |what| <= |line| && line[i..i + |what|] == what
  }

  predicate Word(c: char) {
    'a' <= c <= 'z' || 'A' <= c <= 'Z' || '0' <= c <= '9' || c == '_'
  }

  // How many `#` stand in a row from `i`.
  function HashRun(line: string, i: nat): (n: nat)
    requires i <= |line|
    ensures i + n <= |line|
    decreases |line| - i
  {
    if i < |line| && line[i] == '#' then 1 + HashRun(line, i + 1) else 0
  }

  // The hashes of a raw string opening at `i`, unless the `r` ends a longer word.
  function RawOpen(line: string, i: nat): Option<nat>
    requires i < |line|
  {
    if line[i] != 'r' || (i > 0 && Word(line[i - 1])) then None
    else
      var n := HashRun(line, i + 1);
      if i + 1 + n < |line| && line[i + 1 + n] == '"' then Some(n) else None
  }

  // The length of a character literal standing whole at `i`.
  function CharLength(line: string, i: nat): Option<nat>
    requires i < |line|
  {
    if line[i] != '\'' || i + 2 >= |line| then None
    else if line[i + 1] == '\\' then (if i + 3 < |line| && line[i + 3] == '\'' then Some(4) else None)
    else if line[i + 1] != '\'' && line[i + 2] == '\'' then Some(3)
    else None
  }

  function WithoutBraces(text: string): (r: string)
    ensures |r| == |text|
  {
    seq(|text|, i requires 0 <= i < |text| => if text[i] == '{' || text[i] == '}' then ' ' else text[i])
  }

  datatype Blanked = Blanked(text: string, state: State)

  function Before(text: string, b: Blanked): Blanked {
    Blanked(text + b.text, b.state)
  }

  function BlankFrom(line: string, i: nat, state: State): Blanked
    decreases if i < |line| then |line| - i else 0
  {
    if i >= |line| then Blanked("", state)
    else
      match state
      case InRaw(n) =>
        if StartsAt(line, i, "\"" + Hashes(n)) then Before("\"\"", BlankFrom(line, i + 1 + n, InCode))
        else BlankFrom(line, i + 1, state)
      case InString =>
        if line[i] == '\\' then BlankFrom(line, i + 2, state)
        else if line[i] == '"' then Before("\"\"", BlankFrom(line, i + 1, InCode))
        else BlankFrom(line, i + 1, state)
      case InCode =>
        if StartsAt(line, i, "//") then Blanked(WithoutBraces(line[i..]), InCode)
        else if RawOpen(line, i).Some? then
          BlankFrom(line, i + 2 + RawOpen(line, i).value, InRaw(RawOpen(line, i).value))
        else if line[i] == '"' then BlankFrom(line, i + 1, InString)
        else if CharLength(line, i).Some? then Before("''", BlankFrom(line, i + CharLength(line, i).value, InCode))
        else Before([line[i]], BlankFrom(line, i + 1, InCode))
  }

  function BlankAll(lines: seq<string>, state: State): (r: seq<string>)
    ensures |r| == |lines|
  {
    if lines == [] then []
    else
      var first := BlankFrom(lines[0], 0, state);
      [first.text] + BlankAll(lines[1..], first.state)
  }

  function StateOf(normal: bool, rawHashes: Option<nat>): State {
    if rawHashes.Some? then InRaw(rawHashes.value) else if normal then InString else InCode
  }

  // What the whole line blanks to, when `text` has been kept of it and `rest` is still to come.
  predicate Comes(whole: Blanked, text: string, rest: Blanked) {
    whole == Before(text, rest)
  }

  lemma Emits(whole: Blanked, text: string, piece: string, rest: Blanked)
    requires Comes(whole, text, Before(piece, rest))
    ensures Comes(whole, text + piece, rest)
  {
    Assoc(text, piece, rest.text);
  }

  method BlankLine(line: string, normal0: bool, raw0: Option<nat>)
    returns (text: string, normal: bool, rawHashes: Option<nat>)
    requires !(normal0 && raw0.Some?)
    ensures !(normal && rawHashes.Some?)
    ensures Blanked(text, StateOf(normal, rawHashes)) == BlankFrom(line, 0, StateOf(normal0, raw0))
  {
    text, normal, rawHashes := "", normal0, raw0;
    ghost var whole := BlankFrom(line, 0, StateOf(normal0, raw0));
    var index := 0;
    while index < |line|
      invariant !(normal && rawHashes.Some?)
      invariant Comes(whole, text, BlankFrom(line, index, StateOf(normal, rawHashes)))
      decreases |line| - index
    {
      ghost var text0 := text;
      ghost var here := BlankFrom(line, index, StateOf(normal, rawHashes));
      if rawHashes.Some? {
        var closer := "\"" + Hashes(rawHashes.value);
        if StartsAt(line, index, closer) {
          rawHashes := None;
          text := text + "\"\"";
          index := index + |closer|;
          assert here == Before("\"\"", BlankFrom(line, index, InCode));
          Emits(whole, text0, "\"\"", BlankFrom(line, index, InCode));
        } else {
          index := index + 1;
          assert here == BlankFrom(line, index, InRaw(rawHashes.value));
        }
        continue;
      }
      if normal {
        if line[index] == '\\' {
          index := index + 2;
          assert here == BlankFrom(line, index, InString);
          continue;
        }
        if line[index] == '"' {
          normal := false;
          text := text + "\"\"";
          assert here == Before("\"\"", BlankFrom(line, index + 1, InCode));
          Emits(whole, text0, "\"\"", BlankFrom(line, index + 1, InCode));
        }
        index := index + 1;
        continue;
      }
      if StartsAt(line, index, "//") {
        text := text + WithoutBraces(line[index..]);
        assert here == Blanked(WithoutBraces(line[index..]), InCode);
        assert whole == Blanked(text, InCode);
        return;
      }
      var raw := RawOpen(line, index);
      if raw.Some? {
        rawHashes := raw;
        index := index + 2 + raw.value;
        assert here == BlankFrom(line, index, InRaw(raw.value));
        continue;
      }
      if line[index] == '"' {
        normal := true;
        index := index + 1;
        assert here == BlankFrom(line, index, InString);
        continue;
      }
      var character := CharLength(line, index);
      if character.Some? {
        text := text + "''";
        index := index + character.value;
        assert here == Before("''", BlankFrom(line, index, InCode));
        Emits(whole, text0, "''", BlankFrom(line, index, InCode));
        continue;
      }
      text := text + [line[index]];
      assert here == Before([line[index]], BlankFrom(line, index + 1, InCode));
      Emits(whole, text0, [line[index]], BlankFrom(line, index + 1, InCode));
      index := index + 1;
    }
    assert text + "" == text;
  }

  method BlankLiterals(lines: seq<string>) returns (blanked: seq<string>)
    ensures blanked == BlankAll(lines, InCode)
  {
    blanked := [];
    var normal := false;
    var rawHashes: Option<nat> := None;
    var i := 0;
    while i < |lines|
      invariant 0 <= i <= |lines|
      invariant !(normal && rawHashes.Some?)
      invariant blanked + BlankAll(lines[i..], StateOf(normal, rawHashes)) == BlankAll(lines, InCode)
    {
      var text, normal', raw' := BlankLine(lines[i], normal, rawHashes);
      assert lines[i..][1..] == lines[i + 1..];
      Assoc(blanked, [text], BlankAll(lines[i + 1..], StateOf(normal', raw')));
      blanked := blanked + [text];
      normal, rawHashes := normal', raw';
      i := i + 1;
    }
    assert blanked + [] == blanked;
  }
}
