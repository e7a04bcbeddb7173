// Parts of a sequence named by where they stand in it.
module Windows {
  lemma Assoc<T>(a: seq<T>, b: seq<T>, c: seq<T>)
    ensures a + b + c == a + (b + c)
  {
  }

  // `part` stands in `whole` from offset `at` on.
  ghost predicate At<T>(whole: seq<T>, at: nat, part: seq<T>): (r: bool)
    ensures r ==> at + |part| <= |whole|
    decreases |part|
  {
    if part == [] then at <= |whole|
    else at < |whole| && whole[at] == part[0] && At(whole, at + 1, part[1..])
  }

  lemma {:induction false} AtIs<T>(whole: seq<T>, at: nat, part: seq<T>)
    ensures At(whole, at, part) <==> at + |part| <= |whole| && whole[at..at + |part|] == part
    decreases |part|
  {
    if part != [] && at < |whole| {
      AtIs(whole, at + 1, part[1..]);
      if at + |part| <= |whole| {
        assert whole[at..at + |part|] == [whole[at]] + whole[at + 1..at + |part|];
        assert part == [part[0]] + part[1..];
      }
    }
  }

  lemma AtWhole<T>(whole: seq<T>)
    ensures At(whole, 0, whole)
  {
    AtIs(whole, 0, whole);
    assert whole[0..|whole|] == whole;
  }

  // The part's elements are the whole's.
  lemma {:induction false} AtEach<T>(whole: seq<T>, at: nat, part: seq<T>, k: nat)
    requires At(whole, at, part) && k < |part|
    ensures whole[at + k] == part[k]
    decreases k
  {
    if k > 0 { AtEach(whole, at + 1, part[1..], k - 1); }
  }

  lemma {:induction false} AtSplit<T>(whole: seq<T>, at: nat, a: seq<T>, b: seq<T>)
    requires At(whole, at, a + b)
    ensures At(whole, at, a) && At(whole, at + |a|, b)
    decreases |a|
  {
    if a == [] {
      assert [] + b == b;
    } else {
      assert (a + b)[0] == a[0] && (a + b)[1..] == a[1..] + b;
      AtSplit(whole, at + 1, a[1..], b);
    }
  }

  lemma AtSplit3<T>(whole: seq<T>, at: nat, a: seq<T>, b: seq<T>, c: seq<T>)
    requires At(whole, at, a + b + c)
    ensures At(whole, at, a) && At(whole, at + |a|, b) && At(whole, at + |a| + |b|, c)
  {
    AtSplit(whole, at, a + b, c);
    AtSplit(whole, at, a, b);
  }

  lemma AtRest<T>(whole: seq<T>, at: nat, part: seq<T>)
    requires At(whole, at, part) && part != []
    ensures whole[at] == part[0] && At(whole, at + 1, part[1..])
  {
  }

  lemma {:induction false} AtJoin<T>(whole: seq<T>, at: nat, a: seq<T>, b: seq<T>)
    requires At(whole, at, a) && At(whole, at + |a|, b)
    ensures At(whole, at, a + b)
    decreases |a|
  {
    if a == [] {
      assert [] + b == b;
    } else {
      assert (a + b)[0] == a[0] && (a + b)[1..] == a[1..] + b;
      AtJoin(whole, at + 1, a[1..], b);
    }
  }

  lemma AtExtends<T>(whole: seq<T>, at: nat, part: seq<T>)
    requires At(whole, at, part)
    ensures whole[..at + |part|] == whole[..at] + part
  {
    AtIs(whole, at, part);
    assert whole[..at + |part|] == whole[..at] + whole[at..at + |part|];
  }

  lemma AtLast<T>(whole: seq<T>, at: nat, part: seq<T>)
    requires At(whole, at, part) && part != []
    ensures whole[at + |part| - 1] == part[|part| - 1]
  {
    AtEach(whole, at, part, |part| - 1);
  }
}
