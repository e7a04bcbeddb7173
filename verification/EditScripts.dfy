// Line edit scripts, and what a minimal one between a text and a line-by-line rewrite of it must delete and insert.
module EditScripts {
  datatype Edit<T> = Keep(line: T) | Del(line: T) | Ins(line: T)

  function OldOf<T>(script: seq<Edit<T>>): seq<T> {
    if script == [] then []
    else (if script[0].Ins? then [] else [script[0].line]) + OldOf(script[1..])
  }

  function NewOf<T>(script: seq<Edit<T>>): seq<T> {
    if script == [] then []
    else (if script[0].Del? then [] else [script[0].line]) + NewOf(script[1..])
  }

  function Deleted<T(==)>(script: seq<Edit<T>>): multiset<T> {
    if script == [] then multiset{}
    else (if script[0].Del? then multiset{script[0].line} else multiset{}) + Deleted(script[1..])
  }

  function Inserted<T(==)>(script: seq<Edit<T>>): multiset<T> {
    if script == [] then multiset{}
    else (if script[0].Ins? then multiset{script[0].line} else multiset{}) + Inserted(script[1..])
  }

  function Cost<T(==)>(script: seq<Edit<T>>): nat {
    |Deleted(script)| + |Inserted(script)|
  }

  predicate Turns<T(==)>(script: seq<Edit<T>>, from: seq<T>, to: seq<T>) {
    OldOf(script) == from && NewOf(script) == to
  }

  ghost predicate Minimal<T(!new)>(script: seq<Edit<T>>, from: seq<T>, to: seq<T>) {
    Turns(script, from, to) && forall other | Turns(other, from, to) :: Cost(script) <= Cost(other)
  }

  // The lines of `from` that `to` has something else in place of.
  function Changed<T(==)>(from: seq<T>, to: seq<T>): multiset<T>
    requires |from| == |to|
  {
    if from == [] then multiset{}
    else (if from[0] == to[0] then multiset{} else multiset{from[0]}) + Changed(from[1..], to[1..])
  }

  // The script that replaces each changed line where it stands.
  function Positional<T(==)>(from: seq<T>, to: seq<T>): seq<Edit<T>>
    requires |from| == |to|
  {
    if from == [] then []
    else (if from[0] == to[0] then [Keep(from[0])] else [Del(from[0]), Ins(to[0])]) + Positional(from[1..], to[1..])
  }

  lemma Kept<T>(line: T, rest: seq<Edit<T>>)
    ensures var script := [Keep(line)] + rest;
            && OldOf(script) == [line] + OldOf(rest) && NewOf(script) == [line] + NewOf(rest)
            && Deleted(script) == Deleted(rest) && Inserted(script) == Inserted(rest)
  {
    assert ([Keep(line)] + rest)[1..] == rest;
  }

  lemma Replaced<T>(line: T, replacement: T, rest: seq<Edit<T>>)
    ensures var script := [Del(line), Ins(replacement)] + rest;
            && OldOf(script) == [line] + OldOf(rest) && NewOf(script) == [replacement] + NewOf(rest)
            && Deleted(script) == multiset{line} + Deleted(rest)
            && Inserted(script) == multiset{replacement} + Inserted(rest)
  {
    var script := [Del(line), Ins(replacement)] + rest;
    assert script[0] == Del(line) && script[1..][0] == Ins(replacement) && script[1..][1..] == rest;
    assert OldOf(script) == [line] + OldOf(script[1..]) && OldOf(script[1..]) == OldOf(rest);
    assert NewOf(script) == NewOf(script[1..]) && NewOf(script[1..]) == [replacement] + NewOf(rest);
    assert Deleted(script[1..]) == Deleted(rest);
    assert Inserted(script) == Inserted(script[1..]);
  }

  lemma {:induction false} PositionalTurns<T>(from: seq<T>, to: seq<T>)
    requires |from| == |to|
    ensures Turns(Positional(from, to), from, to)
    ensures Deleted(Positional(from, to)) == Changed(from, to)
    ensures Inserted(Positional(from, to)) == Changed(to, from)
    decreases |from|
  {
    if from != [] {
      PositionalTurns(from[1..], to[1..]);
      if from[0] == to[0] {
        Kept(from[0], Positional(from[1..], to[1..]));
      } else {
        Replaced(from[0], to[0], Positional(from[1..], to[1..]));
      }
    }
  }

  lemma CountFirst<T>(first: T, rest: seq<T>, x: T)
    ensures multiset([first] + rest)[x] == (if first == x then 1 else 0) + multiset(rest)[x]
  {
    assert multiset([first]) == multiset{first};
  }

  // Whatever is kept is kept on both sides.
  lemma {:induction false} Balance<T>(script: seq<Edit<T>>, x: T)
    ensures multiset(OldOf(script))[x] + Inserted(script)[x] == multiset(NewOf(script))[x] + Deleted(script)[x]
    decreases |script|
  {
    if script != [] {
      var line := script[0].line;
      var olds, news := OldOf(script[1..]), NewOf(script[1..]);
      Balance(script[1..], x);
      CountFirst(line, olds, x);
      CountFirst(line, news, x);
      match script[0]
      case Keep(_) =>
      case Del(_) => assert [] + news == news;
      case Ins(_) => assert [] + olds == olds;
    }
  }

  lemma {:induction false} BalancedSizes<T>(script: seq<Edit<T>>)
    ensures |OldOf(script)| + |Inserted(script)| == |NewOf(script)| + |Deleted(script)|
    decreases |script|
  {
    if script != [] {
      BalancedSizes(script[1..]);
    }
  }

  lemma SubsetOfSize<T>(small: multiset<T>, large: multiset<T>)
    requires small <= large && |large| <= |small|
    ensures small == large
  {
    assert large == small + (large - small);
    assert |large - small| == 0;
  }

  // When no line is both replaced and a replacement, a minimal script deletes exactly the replaced lines and
  // inserts exactly their replacements, however many other lines look the same.
  lemma MinimalScriptIsThePositionalOne<T(!new)>(script: seq<Edit<T>>, from: seq<T>, to: seq<T>)
    requires |from| == |to| && Changed(from, to) !! Changed(to, from) && Minimal(script, from, to)
    ensures Deleted(script) == Changed(from, to) && Inserted(script) == Changed(to, from)
  {
    var replaced, replacing := Changed(from, to), Changed(to, from);
    PositionalTurns(from, to);
    var positional := Positional(from, to);
    var d, i := Deleted(script), Inserted(script);
    BalancedSizes(script);
    BalancedSizes(positional);
    forall x ensures replaced[x] <= d[x] && replacing[x] <= i[x] {
      Balance(script, x);
      Balance(positional, x);
    }
    assert Cost(script) <= Cost(Positional(from, to));
    SubsetOfSize(replaced, d);
    SubsetOfSize(replacing, i);
  }
}
