// The contrast arithmetic of scripts/validate/validate_contrast.py, over real numbers, with the sRGB curve taken as
// any monotone curve from black at 0 to white at 1.
module Contrast {
  import opened Texts
  import opened Wrappers

  datatype Colour = Colour(r: int, g: int, b: int)

  predicate Bytes(c: Colour) {
    0 <= c.r <= 255 && 0 <= c.g <= 255 && 0 <= c.b <= 255
  }

  type Curve = int -> real

  ghost predicate Gamma(curve: Curve) {
    && curve(0) == 0.0 && curve(255) == 1.0
    && forall c, d | 0 <= c <= d <= 255 :: curve(c) <= curve(d)
  }

  function Luminance(c: Colour, curve: Curve): real {
    0.2126 * curve(c.r) + 0.7152 * curve(c.g) + 0.0722 * curve(c.b)
  }

  function Max(x: real, y: real): real {
    if x >= y then x else y
  }

  function Min(x: real, y: real): real {
    if x <= y then x else y
  }

  lemma LuminanceRange(c: Colour, curve: Curve)
    requires Gamma(curve) && Bytes(c)
    ensures 0.0 <= Luminance(c, curve) <= 1.0
  {
    assert curve(0) <= curve(c.r) <= curve(255);
    assert curve(0) <= curve(c.g) <= curve(255);
    assert curve(0) <= curve(c.b) <= curve(255);
  }

  // Defined for luminances no lower than black's.
  function RatioOf(la: real, lb: real): real
    requires la >= 0.0 && lb >= 0.0
  {
    (Max(la, lb) + 0.05) / (Min(la, lb) + 0.05)
  }

  function Ratio(a: Colour, b: Colour, curve: Curve): real
    requires Luminance(a, curve) >= 0.0 && Luminance(b, curve) >= 0.0
  {
    RatioOf(Luminance(a, curve), Luminance(b, curve))
  }

  lemma Scaled(x: real, y: real, k: real)
    requires x <= y && k >= 0.0
    ensures x * k <= y * k
  {
  }

  lemma ScaledStrictly(x: real, y: real, k: real)
    requires x < y && k > 0.0
    ensures x * k < y * k
  {
  }

  lemma QuotientBounds(q: real, y: real, low: real, high: real)
    requires y > 0.0 && low * y <= q * y <= high * y
    ensures low <= q <= high
  {
    if q < low {
      ScaledStrictly(q, low, y);
    }
    if q > high {
      ScaledStrictly(high, q, y);
    }
  }

  lemma QuotientRange(x: real, y: real)
    requires 0.0 < y <= x <= 21.0 * y
    ensures 1.0 <= x / y <= 21.0 && (x / y == 1.0 <==> x == y)
  {
    var q := x / y;
    assert q * y == x;
    assert 1.0 * y == y;
    QuotientBounds(q, y, 1.0, 21.0);
    if q > 1.0 {
      ScaledStrictly(1.0, q, y);
    }
  }

  lemma RatioOfRange(la: real, lb: real)
    requires 0.0 <= la <= 1.0 && 0.0 <= lb <= 1.0
    ensures RatioOf(la, lb) == RatioOf(lb, la)
    ensures 1.0 <= RatioOf(la, lb) <= 21.0
    ensures RatioOf(la, lb) == 1.0 <==> la == lb
  {
    QuotientRange(Max(la, lb) + 0.05, Min(la, lb) + 0.05);
  }

  // A ratio lies between one, for equal luminances, and twenty-one, for black on white.
  lemma RatioRange(a: Colour, b: Colour, curve: Curve)
    requires Gamma(curve) && Bytes(a) && Bytes(b)
    ensures Luminance(a, curve) >= 0.0 && Luminance(b, curve) >= 0.0
    ensures Ratio(a, b, curve) == Ratio(b, a, curve)
    ensures 1.0 <= Ratio(a, b, curve) <= 21.0
    ensures Ratio(a, b, curve) == 1.0 <==> Luminance(a, curve) == Luminance(b, curve)
  {
    LuminanceRange(a, curve);
    LuminanceRange(b, curve);
    RatioOfRange(Luminance(a, curve), Luminance(b, curve));
  }

  // Red, green and blue weigh 0.2126, 0.7152 and 0.0722 on their own, add up, and make the curve's value of a grey.
  lemma LuminanceWeighs(c: Colour, curve: Curve)
    requires Gamma(curve)
    ensures Luminance(Colour(255, 0, 0), curve) == 0.2126
    ensures Luminance(Colour(0, 255, 0), curve) == 0.7152
    ensures Luminance(Colour(0, 0, 255), curve) == 0.0722
    ensures Luminance(c, curve)
         == Luminance(Colour(c.r, 0, 0), curve) + Luminance(Colour(0, c.g, 0), curve)
            + Luminance(Colour(0, 0, c.b), curve)
    ensures forall n :: Luminance(Colour(n, n, n), curve) == curve(n)
  {
    var black := Colour(0, 0, 0);
    assert Luminance(black, curve) == 0.0;
    forall n ensures Luminance(Colour(n, n, n), curve) == curve(n) {
      assert 0.2126 * curve(n) + 0.7152 * curve(n) + 0.0722 * curve(n) == (0.2126 + 0.7152 + 0.0722) * curve(n);
    }
  }

  lemma QuotientTimes(x: real, y: real)
    requires y > 0.0
    ensures x / y * y == x
  {
  }

  lemma RatioOfEnds()
    ensures RatioOf(0.0, 1.0) == 21.0
  {
  }

  // The lighter luminance is the ratio's multiple of the darker, each raised by 0.05; black on white has the greatest.
  lemma RatioExactly(a: Colour, b: Colour, curve: Curve)
    requires Gamma(curve) && Bytes(a) && Bytes(b) && Luminance(a, curve) <= Luminance(b, curve)
    ensures Luminance(a, curve) >= 0.0
    ensures Ratio(a, b, curve) * (Luminance(a, curve) + 0.05) == Luminance(b, curve) + 0.05
    ensures Luminance(Colour(0, 0, 0), curve) == 0.0 && Luminance(Colour(255, 255, 255), curve) == 1.0
    ensures Ratio(Colour(0, 0, 0), Colour(255, 255, 255), curve) == 21.0
  {
    LuminanceRange(a, curve);
    LuminanceRange(b, curve);
    LuminanceWeighs(a, curve);
    QuotientTimes(Luminance(b, curve) + 0.05, Luminance(a, curve) + 0.05);
    RatioOfEnds();
  }

  // -------------------------------------------------------------------------
  // Compositing
  // -------------------------------------------------------------------------

  // Rounding to the nearest integer, ties to even.
  function Round(x: real): int {
    var low := x.Floor;
    var rest := x - low as real;
    if rest < 0.5 || (rest == 0.5 && low % 2 == 0) then low else low + 1
  }

  lemma RoundMonotone(x: real, y: real)
    requires x <= y
    ensures Round(x) <= Round(y)
  {
  }

  lemma RoundExact(n: int)
    ensures Round(n as real) == n
  {
  }

  lemma RoundBetween(low: int, x: real, high: int)
    requires low as real <= x <= high as real
    ensures low <= Round(x) <= high
  {
  }

  function Blend(c: int, s: int, alpha: real): real {
    c as real * alpha + s as real * (1.0 - alpha)
  }

  function Mix(c: int, s: int, alpha: real): int {
    Round(Blend(c, s, alpha))
  }

  function Over(tint: Colour, alpha: real, backdrop: Colour): Colour {
    Colour(Mix(tint.r, backdrop.r, alpha), Mix(tint.g, backdrop.g, alpha), Mix(tint.b, backdrop.b, alpha))
  }

  // An integer nearest to `x`, the even one of two.
  predicate Nearest(n: int, x: real) {
    -0.5 <= n as real - x <= 0.5 && (n as real - x == 0.5 || n as real - x == -0.5 ==> n % 2 == 0)
  }

  lemma MixIsNearest(c: int, s: int, alpha: real)
    ensures Nearest(Mix(c, s, alpha), alpha * c as real + (1.0 - alpha) * s as real)
  {
    assert Blend(c, s, alpha) == alpha * c as real + (1.0 - alpha) * s as real;
  }

  // A composited channel is the integer nearest to the mean of tint and backdrop in it, weighed by alpha.
  lemma OverIsNearest(tint: Colour, alpha: real, backdrop: Colour)
    ensures var over := Over(tint, alpha, backdrop);
            && Nearest(over.r, alpha * tint.r as real + (1.0 - alpha) * backdrop.r as real)
            && Nearest(over.g, alpha * tint.g as real + (1.0 - alpha) * backdrop.g as real)
            && Nearest(over.b, alpha * tint.b as real + (1.0 - alpha) * backdrop.b as real)
  {
    MixIsNearest(tint.r, backdrop.r, alpha);
    MixIsNearest(tint.g, backdrop.g, alpha);
    MixIsNearest(tint.b, backdrop.b, alpha);
  }

  lemma Distribute(x: real, alpha: real, beta: real)
    requires alpha + beta == 1.0
    ensures x * alpha + x * beta == x
  {
    assert x * alpha + x * beta == x * (alpha + beta);
  }

  lemma SumBetween(a: real, b: real, low: real, low': real, high: real, high': real)
    requires low <= a <= high && low' <= b <= high'
    ensures low + low' <= a + b <= high + high'
  {
  }

  lemma BlendBetween(x: real, y: real, alpha: real, beta: real, low: real, high: real)
    requires 0.0 <= alpha && 0.0 <= beta && alpha + beta == 1.0 && low <= x <= high && low <= y <= high
    ensures low <= x * alpha + y * beta <= high
  {
    assert low * alpha <= x * alpha <= high * alpha by {
      Scaled(low, x, alpha);
      Scaled(x, high, alpha);
    }
    assert low * beta <= y * beta <= high * beta by {
      Scaled(low, y, beta);
      Scaled(y, high, beta);
    }
    SumBetween(x * alpha, y * beta, low * alpha, low * beta, high * alpha, high * beta);
    Distribute(low, alpha, beta);
    Distribute(high, alpha, beta);
  }

  // A composited channel lies between tint and backdrop, rounding included.
  lemma MixBetween(c: int, s: int, alpha: real)
    requires 0.0 <= alpha <= 1.0
    ensures (if c <= s then c else s) <= Mix(c, s, alpha) <= (if c <= s then s else c)
  {
    if c <= s {
      BlendBetween(c as real, s as real, alpha, 1.0 - alpha, c as real, s as real);
      RoundBetween(c, Blend(c, s, alpha), s);
    } else {
      BlendBetween(c as real, s as real, alpha, 1.0 - alpha, s as real, c as real);
      RoundBetween(s, Blend(c, s, alpha), c);
    }
  }

  lemma MixMonotone(c: int, s: int, s': int, alpha: real)
    requires 0.0 <= alpha <= 1.0 && s <= s'
    ensures Mix(c, s, alpha) <= Mix(c, s', alpha)
  {
    Scaled(s as real, s' as real, 1.0 - alpha);
    RoundMonotone(Blend(c, s, alpha), Blend(c, s', alpha));
  }

  predicate Darker(a: Colour, b: Colour) {
    a.r <= b.r && a.g <= b.g && a.b <= b.b
  }

  // Compositing stays in the cube of colours, is the tint at full alpha and the backdrop at none, and over a
  // lighter backdrop is no darker, in channels and in luminance.
  lemma OverIsMonotone(tint: Colour, alpha: real, backdrop: Colour, lighter: Colour, curve: Curve)
    requires Gamma(curve) && 0.0 <= alpha <= 1.0
    requires Bytes(tint) && Bytes(backdrop) && Bytes(lighter) && Darker(backdrop, lighter)
    ensures Bytes(Over(tint, alpha, backdrop)) && Darker(Over(tint, alpha, backdrop), Over(tint, alpha, lighter))
    ensures Luminance(Over(tint, alpha, backdrop), curve) <= Luminance(Over(tint, alpha, lighter), curve)
    ensures Over(tint, 1.0, backdrop) == tint && Over(tint, 0.0, backdrop) == backdrop
  {
    OverIsBytes(tint, alpha, backdrop);
    OverIsBytes(tint, alpha, lighter);
    MixMonotone(tint.r, backdrop.r, lighter.r, alpha);
    MixMonotone(tint.g, backdrop.g, lighter.g, alpha);
    MixMonotone(tint.b, backdrop.b, lighter.b, alpha);
    MixEnds(tint.r, backdrop.r);
    MixEnds(tint.g, backdrop.g);
    MixEnds(tint.b, backdrop.b);
  }

  lemma OverIsBytes(tint: Colour, alpha: real, backdrop: Colour)
    requires 0.0 <= alpha <= 1.0 && Bytes(tint) && Bytes(backdrop)
    ensures Bytes(Over(tint, alpha, backdrop))
  {
    MixBetween(tint.r, backdrop.r, alpha);
    MixBetween(tint.g, backdrop.g, alpha);
    MixBetween(tint.b, backdrop.b, alpha);
  }

  lemma MixEnds(c: int, s: int)
    ensures Mix(c, s, 1.0) == c && Mix(c, s, 0.0) == s
  {
    assert Blend(c, s, 1.0) == c as real && Blend(c, s, 0.0) == s as real;
    RoundExact(c);
    RoundExact(s);
  }

  // -------------------------------------------------------------------------
  // Themes
  // -------------------------------------------------------------------------

  type Tokens = map<string, string>

  datatype Block = Block(name: string, tokens: Tokens)

  function Collected(blocks: seq<Block>): map<string, Tokens> {
    if blocks == [] then map[]
    else
      var last := blocks[|blocks| - 1];
      var before := Collected(blocks[..|blocks| - 1]);
      if last.tokens == map[] then before else before[last.name := last.tokens]
  }

  function BaseOf(themes: map<string, Tokens>): Tokens {
    if "default" in themes then themes["default"] else map[]
  }

  // A theme's own tokens are those of its last block that has any, and a theme without such a block is none.
  lemma {:induction false} CollectedExactly(blocks: seq<Block>, i: nat, name: string)
    ensures i < |blocks| && blocks[i].name == name && blocks[i].tokens != map[]
            && (forall j | i < j < |blocks| && blocks[j].name == name :: blocks[j].tokens == map[]) ==>
              name in Collected(blocks) && Collected(blocks)[name] == blocks[i].tokens
    ensures (forall block | block in blocks && block.name == name :: block.tokens == map[]) ==>
              name !in Collected(blocks)
    decreases |blocks|
  {
    if blocks != [] {
      var last := |blocks| - 1;
      CollectedExactly(blocks[..last], i, name);
      assert blocks[last] in blocks;
    }
  }

  // Every theme's tokens: its own over the default's.
  method ParseThemes(blocks: seq<Block>) returns (themes: map<string, Tokens>)
    ensures var own := Collected(blocks);
            && themes.Keys == own.Keys
            && ("default" in own ==> themes["default"] == own["default"])
            && forall name | name in own && name != "default" ::
                 && themes[name].Keys == BaseOf(own).Keys + own[name].Keys
                 && forall token | token in themes[name] ::
                      themes[name][token] == if token in own[name] then own[name][token] else BaseOf(own)[token]
  {
    themes := map[];
    var i := 0;
    while i < |blocks|
      invariant 0 <= i <= |blocks|
      invariant themes == Collected(blocks[..i])
    {
      assert blocks[..i + 1][..i] == blocks[..i];
      if blocks[i].tokens != map[] {
        themes := themes[blocks[i].name := blocks[i].tokens];
      }
      i := i + 1;
    }
    assert blocks[..i] == blocks;
    var base := BaseOf(themes);
    var own := themes;
    var names := themes.Keys;
    while names != {}
      invariant names <= own.Keys && themes.Keys == own.Keys
      invariant forall name | name in own ::
                  themes[name] == if name in names || name == "default" then own[name] else base + own[name]
      decreases |names|
    {
      var name :| name in names;
      if name != "default" {
        themes := themes[name := base + themes[name]];
      }
      names := names - {name};
    }
  }

  // -------------------------------------------------------------------------
  // Pairs
  // -------------------------------------------------------------------------

  // A declared background: one colour, or a tint over whichever of the theme's surfaces lies behind it.
  datatype Background = Opaque(colour: Colour) | Tinted(tint: Colour, alpha: real, surfaces: seq<Surface>)

  datatype Surface = Surface(name: string, colour: Colour)

  datatype Pair = Pair(selector: string, text: Colour, background: Background, need: real)

  datatype Score = Score(ratio: real, name: string)

  predicate WfPair(p: Pair) {
    Bytes(p.text) &&
    match p.background
    case Opaque(colour) => Bytes(colour)
    case Tinted(tint, alpha, surfaces) =>
      Bytes(tint) && 0.0 <= alpha <= 1.0 && surfaces != [] && forall s | s in surfaces :: Bytes(s.colour)
  }

  // The contrast over one surface.
  function RatioOver(p: Pair, surface: Surface, curve: Curve): real
    requires p.background.Tinted?
    requires Luminance(p.text, curve) >= 0.0
    requires Luminance(Over(p.background.tint, p.background.alpha, surface.colour), curve) >= 0.0
  {
    Ratio(p.text, Over(p.background.tint, p.background.alpha, surface.colour), curve)
  }

  // Whether `a` stands no later than `b` in descending order, the ratio before the name.
  predicate Ahead(a: Score, b: Score) {
    a.ratio > b.ratio || (a.ratio == b.ratio && !Earlier(a.name, b.name))
  }

  lemma AheadIsOrder(a: Score, b: Score, c: Score)
    ensures Ahead(a, a) && (Ahead(a, b) || Ahead(b, a))
    ensures Ahead(a, b) && Ahead(b, c) ==> Ahead(a, c)
    ensures Ahead(a, b) && Ahead(b, a) ==> a == b
  {
    EarlierIrreflexive(a.name);
    EarlierTotal(a.name, b.name);
    EarlierTotal(b.name, c.name);
    EarlierTotal(a.name, c.name);
    if Earlier(a.name, c.name) && Earlier(c.name, b.name) {
      EarlierTransitive(a.name, c.name, b.name);
    }
  }

  function Insert(s: Score, sorted: seq<Score>): seq<Score> {
    if sorted == [] then [s]
    else if Ahead(s, sorted[0]) then [s] + sorted
    else [sorted[0]] + Insert(s, sorted[1..])
  }

  function SortDescending(scores: seq<Score>): seq<Score> {
    if scores == [] then [] else Insert(scores[0], SortDescending(scores[1..]))
  }

  predicate Descending(sorted: seq<Score>) {
    forall i, j | 0 <= i <= j < |sorted| :: Ahead(sorted[i], sorted[j])
  }

  lemma {:induction false} InsertAdds(s: Score, sorted: seq<Score>)
    ensures |Insert(s, sorted)| == |sorted| + 1
    ensures forall x :: x in Insert(s, sorted) <==> x == s || x in sorted
    decreases |sorted|
  {
    if sorted != [] && !Ahead(s, sorted[0]) {
      InsertAdds(s, sorted[1..]);
    }
  }

  lemma {:induction false} InsertKeeps(s: Score, sorted: seq<Score>)
    requires Descending(sorted)
    ensures Descending(Insert(s, sorted))
    decreases |sorted|
  {
    if sorted == [] {
      AheadIsOrder(s, s, s);
    } else if Ahead(s, sorted[0]) {
      AheadOfAll(s, sorted);
    } else {
      InsertKeeps(s, sorted[1..]);
      var rest := Insert(s, sorted[1..]);
      InsertAdds(s, sorted[1..]);
      AheadIsOrder(s, sorted[0], sorted[0]);
      forall i | 0 <= i < |rest| ensures Ahead(sorted[0], rest[i]) {
        assert rest[i] in rest;
      }
    }
  }

  lemma AheadOfAll(s: Score, sorted: seq<Score>)
    requires Descending(sorted) && sorted != [] && Ahead(s, sorted[0])
    ensures Descending([s] + sorted)
  {
    AheadIsOrder(s, s, s);
    forall i | 0 <= i < |sorted| ensures Ahead(s, sorted[i]) {
      AheadIsOrder(s, sorted[0], sorted[i]);
    }
  }

  // Sorting keeps every score and puts them in descending order.
  lemma {:induction false} SortKeeps(scores: seq<Score>)
    ensures var r := SortDescending(scores);
            Descending(r) && |r| == |scores| && forall x :: x in r <==> x in scores
    decreases |scores|
  {
    if scores != [] {
      SortKeeps(scores[1..]);
      InsertKeeps(scores[0], SortDescending(scores[1..]));
      InsertAdds(scores[0], SortDescending(scores[1..]));
    }
  }

  // Over a tint, the surface the figure is taken over and the worst one with its figure.
  datatype Spread = Spread(best: string, worst: Score)

  datatype Measurement = Measurement(ratio: real, need: real, spread: Option<Spread>)

  ghost predicate Weighs(p: Pair, curve: Curve, m: Measurement)
    requires WfPair(p) && Gamma(curve)
  {
    m.need == p.need &&
    match p.background
    case Opaque(colour) =>
      RatioRange(p.text, colour, curve);
      m.spread.None? && m.ratio == Ratio(p.text, colour, curve)
    case Tinted(_, _, _) =>
      m.spread.Some? && Spans(p, curve, Score(m.ratio, m.spread.value.best), m.spread.value.worst)
  }

  // Both are the scores of surfaces, and every surface's score lies between them, ties decided by name.
  ghost predicate Spans(p: Pair, curve: Curve, best: Score, worst: Score)
    requires WfPair(p) && Gamma(curve) && p.background.Tinted?
  {
    && Attained(p, curve, best) && Attained(p, curve, worst)
    && forall s | s in p.background.surfaces :: Ahead(best, ScoreOf(p, s, curve)) && Ahead(ScoreOf(p, s, curve), worst)
  }

  // No surface has more contrast than the best or less than the worst, and of several with the same the best is the
  // last by name and the worst the first.
  lemma SpansExactly(p: Pair, curve: Curve, best: Score, worst: Score, s: Surface)
    requires WfPair(p) && Gamma(curve) && p.background.Tinted? && Spans(p, curve, best, worst)
    requires s in p.background.surfaces
    ensures worst.ratio <= OverRatio(p, s, curve) <= best.ratio
    ensures OverRatio(p, s, curve) == best.ratio ==> !Earlier(best.name, s.name)
    ensures OverRatio(p, s, curve) == worst.ratio ==> !Earlier(s.name, worst.name)
  {
  }

  // The contrast over one surface of a well-formed pair.
  ghost function OverRatio(p: Pair, s: Surface, curve: Curve): real
    requires WfPair(p) && Gamma(curve) && p.background.Tinted? && Bytes(s.colour)
  {
    OverIsBytes(p.background.tint, p.background.alpha, s.colour);
    RatioRange(p.text, Over(p.background.tint, p.background.alpha, s.colour), curve);
    RatioOver(p, s, curve)
  }

  ghost function ScoreOf(p: Pair, s: Surface, curve: Curve): Score
    requires WfPair(p) && Gamma(curve) && p.background.Tinted? && Bytes(s.colour)
  {
    Score(OverRatio(p, s, curve), s.name)
  }

  ghost predicate Attained(p: Pair, curve: Curve, score: Score)
    requires WfPair(p) && Gamma(curve) && p.background.Tinted?
  {
    exists s :: s in p.background.surfaces && ScoreOf(p, s, curve) == score
  }

  ghost predicate ScoresAre(p: Pair, curve: Curve, scored: seq<Score>)
    requires WfPair(p) && Gamma(curve) && p.background.Tinted?
  {
    |scored| <= |p.background.surfaces|
    && forall k | 0 <= k < |scored| :: scored[k] == ScoreOf(p, p.background.surfaces[k], curve)
  }

  // One pair weighed: the figure reported is the best surface's, and the spread names the best and the worst.
  method Measure(p: Pair, curve: Curve) returns (m: Measurement)
    requires WfPair(p) && Gamma(curve)
    ensures Weighs(p, curve, m)
  {
    match p.background
    case Opaque(colour) =>
      RatioRange(p.text, colour, curve);
      m := Measurement(Ratio(p.text, colour, curve), p.need, None);
    case Tinted(tint, alpha, surfaces) =>
      var scored: seq<Score> := [];
      var i := 0;
      while i < |surfaces|
        invariant 0 <= i <= |surfaces| && |scored| == i && ScoresAre(p, curve, scored)
      {
        var s := surfaces[i];
        assert s in surfaces;
        OverIsBytes(tint, alpha, s.colour);
        RatioRange(p.text, Over(tint, alpha, s.colour), curve);
        scored := scored + [Score(RatioOver(p, s, curve), s.name)];
        i := i + 1;
      }
      var sorted := SortDescending(scored);
      SortKeeps(scored);
      ScoresSpan(p, curve, scored, sorted);
      m := Measurement(sorted[0].ratio, p.need, Some(Spread(sorted[0].name, sorted[|sorted| - 1])));
  }

  lemma ScoresSpan(p: Pair, curve: Curve, scored: seq<Score>, sorted: seq<Score>)
    requires WfPair(p) && Gamma(curve) && p.background.Tinted? && ScoresAre(p, curve, scored)
    requires |scored| == |p.background.surfaces| == |sorted|
    requires Descending(sorted) && forall x :: x in sorted <==> x in scored
    ensures Spans(p, curve, sorted[0], sorted[|sorted| - 1])
  {
    var surfaces := p.background.surfaces;
    var best, worst := sorted[0], sorted[|sorted| - 1];
    forall s | s in surfaces ensures Ahead(best, ScoreOf(p, s, curve)) && Ahead(ScoreOf(p, s, curve), worst) {
      var k :| 0 <= k < |surfaces| && surfaces[k] == s;
      assert scored[k] in sorted;
      var j :| 0 <= j < |sorted| && sorted[j] == scored[k];
    }
    ScoreAttained(p, curve, scored, best);
    ScoreAttained(p, curve, scored, worst);
  }

  lemma ScoreAttained(p: Pair, curve: Curve, scored: seq<Score>, score: Score)
    requires WfPair(p) && Gamma(curve) && p.background.Tinted?
    requires |scored| == |p.background.surfaces| && score in scored && ScoresAre(p, curve, scored)
    ensures Attained(p, curve, score)
  {
    var k :| 0 <= k < |scored| && scored[k] == score;
    assert p.background.surfaces[k] in p.background.surfaces;
  }

  predicate Increasing(s: seq<nat>) {
    forall i, j | 0 <= i < j < |s| :: s[i] < s[j]
  }

  // Of the pairs told to have missed their thresholds, those held open by decision or the others.
  function Listed(pairs: seq<Pair>, missed: seq<bool>, held: set<string>, open: bool): (r: seq<nat>)
    requires |missed| <= |pairs|
  {
    if missed == [] then []
    else
      var last := |missed| - 1;
      Listed(pairs, missed[..last], held, open)
      + if missed[last] && (pairs[last].selector in held) == open then [last] else []
  }

  lemma {:induction false} ListedIs(pairs: seq<Pair>, missed: seq<bool>, held: set<string>, open: bool, i: int)
    requires |missed| <= |pairs|
    ensures i in Listed(pairs, missed, held, open) <==>
            0 <= i < |missed| && missed[i] && (pairs[i].selector in held) == open
    decreases |missed|
  {
    if missed != [] {
      ListedIs(pairs, missed[..|missed| - 1], held, open, i);
    }
  }

  lemma {:induction false} ListedIncreases(pairs: seq<Pair>, missed: seq<bool>, held: set<string>, open: bool)
    requires |missed| <= |pairs|
    ensures Increasing(Listed(pairs, missed, held, open))
    decreases |missed|
  {
    if missed != [] {
      var last := |missed| - 1;
      ListedIncreases(pairs, missed[..last], held, open);
      var before := Listed(pairs, missed[..last], held, open);
      forall k | 0 <= k < |before| ensures before[k] < last {
        ListedIs(pairs, missed[..last], held, open, before[k]);
      }
    }
  }

  ghost predicate Missed(pairs: seq<Pair>, missed: seq<bool>, curve: Curve)
    requires Gamma(curve) && |missed| <= |pairs| && forall p | p in pairs :: WfPair(p)
  {
    missed != [] ==>
      var last := |missed| - 1;
      missed[last] == Fails(pairs[last], curve) && Missed(pairs, missed[..last], curve)
  }

  lemma {:induction false} MissedIs(pairs: seq<Pair>, missed: seq<bool>, curve: Curve, i: nat)
    requires Gamma(curve) && |missed| <= |pairs| && forall p | p in pairs :: WfPair(p)
    requires Missed(pairs, missed, curve) && i < |missed|
    ensures missed[i] == Fails(pairs[i], curve)
    decreases |missed|
  {
    if i < |missed| - 1 {
      MissedIs(pairs, missed[..|missed| - 1], curve, i);
    }
  }

  method Misses(p: Pair, curve: Curve) returns (r: bool)
    requires Gamma(curve) && WfPair(p)
    ensures r == Fails(p, curve)
  {
    var m := Measure(p, curve);
    WeighsFails(p, curve, m);
    r := m.ratio < m.need;
  }

  lemma Outcome(pairs: seq<Pair>, missed: seq<bool>, held: set<string>, open: bool, curve: Curve)
    requires Gamma(curve) && |missed| == |pairs| && forall p | p in pairs :: WfPair(p)
    requires Missed(pairs, missed, curve)
    ensures var r := Listed(pairs, missed, held, open);
            && Increasing(r)
            && forall i :: i in r <==> 0 <= i < |pairs| && Fails(pairs[i], curve) && (pairs[i].selector in held) == open
  {
    ListedIncreases(pairs, missed, held, open);
    forall i
      ensures i in Listed(pairs, missed, held, open) <==>
              0 <= i < |pairs| && Fails(pairs[i], curve) && (pairs[i].selector in held) == open
    {
      ListedIs(pairs, missed, held, open, i);
      if 0 <= i < |pairs| {
        MissedIs(pairs, missed, curve, i);
      }
    }
  }

  // The pairs reported, each list in order: those whose reported figure misses its threshold, the ones held open by
  // decision apart from the failures.
  method Check(pairs: seq<Pair>, held: set<string>, curve: Curve) returns (failures: seq<nat>, deferred: seq<nat>)
    requires Gamma(curve) && forall p | p in pairs :: WfPair(p)
    ensures Increasing(failures) && Increasing(deferred)
    ensures forall i :: i in failures <==> 0 <= i < |pairs| && Fails(pairs[i], curve) && pairs[i].selector !in held
    ensures forall i :: i in deferred <==> 0 <= i < |pairs| && Fails(pairs[i], curve) && pairs[i].selector in held
  {
    failures, deferred := [], [];
    ghost var missed := [];
    var i := 0;
    while i < |pairs|
      invariant 0 <= i == |missed| <= |pairs| && Missed(pairs, missed, curve)
      invariant failures == Listed(pairs, missed, held, false) && deferred == Listed(pairs, missed, held, true)
    {
      var misses := Misses(pairs[i], curve);
      assert (missed + [misses])[..i] == missed && failures + [] == failures && deferred + [] == deferred;
      missed := missed + [misses];
      if misses {
        if pairs[i].selector in held {
          deferred := deferred + [i];
        } else {
          failures := failures + [i];
        }
      }
      i := i + 1;
    }
    Outcome(pairs, missed, held, false, curve);
    Outcome(pairs, missed, held, true, curve);
  }

  // A pair really fails when its contrast is below its threshold whatever surface lies behind it.
  ghost predicate Fails(p: Pair, curve: Curve)
    requires WfPair(p) && Gamma(curve)
  {
    match p.background
    case Opaque(colour) =>
      RatioRange(p.text, colour, curve);
      Ratio(p.text, colour, curve) < p.need
    case Tinted(_, _, surfaces) => forall s | s in surfaces :: OverRatio(p, s, curve) < p.need
  }

  lemma WeighsFails(p: Pair, curve: Curve, m: Measurement)
    requires WfPair(p) && Gamma(curve) && Weighs(p, curve, m)
    ensures m.ratio < m.need <==> Fails(p, curve)
  {
    if p.background.Tinted? {
      var s :| s in p.background.surfaces && ScoreOf(p, s, curve) == Score(m.ratio, m.spread.value.best);
    }
  }
}
