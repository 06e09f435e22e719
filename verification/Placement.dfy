// Where the packer puts a rectangle, as a property of the skyline alone: the positions
// it considers, the one it prefers, and how the skyline changes underneath.
module Placement {
  import opened Common
  import opened Skyline

  const COORD_MAX := 0xFFFF

  // The fields of stbrp_context that do not change while packing.
  datatype Config = Config(width: int, height: int, numNodes: int, align: int, bestFit: bool)

  ghost predicate Configured(c: Config) {
    && 1 <= c.width <= COORD_MAX
    && 0 <= c.height <= COORD_MAX
    && 1 <= c.numNodes
    && 1 <= c.align
  }

  // The alignment stbrp_setup_allow_out_of_mem chooses when running out of nodes is not allowed.
  function DefaultAlign(width: int, numNodes: int): int
    requires 1 <= numNodes
  {
    (width + numNodes - 1) / numNodes
  }

  // The width the search works with: the next multiple of the alignment.
  function RoundUp(w: int, align: int): (span: int)
    requires 1 <= align
    ensures w <= span < w + align && span % align == 0
  {
    RemainderOfMultiple(w + align - 1, align);
    w + align - 1 - (w + align - 1) % align
  }

  lemma RemainderOfMultiple(a: int, n: int)
    requires 1 <= n
    ensures (a - a % n) % n == 0
  {
    MultipleHasNoRemainder(a / n, n);
  }

  lemma MultipleHasNoRemainder(k: int, n: int)
    requires 1 <= n
    ensures (n * k) % n == 0
  {
    var q, r := (n * k) / n, (n * k) % n;
    ProductAtLeast(n, k - q);
    ProductAtLeast(n, q - k);
    assert r == n * (k - q);
  }

  lemma ProductAtLeast(n: int, d: int)
    requires 0 <= n
    ensures 1 <= d ==> n <= n * d
  {
  }

  // --- Choosing a position ---------------------------------------------------------

  // A position the search looks at: a corner for bottom-left; for best-fit also the places
  // where the right edge meets a corner, and only where the rectangle fits vertically.
  ghost predicate Candidate(c: Config, s: seq<Seg>, span: int, h: int, x: int)
    requires Valid(s, c.width) && 1 <= span
  {
    && 0 <= x && x + span <= c.width
    && if c.bestFit
       then (exists i :: 0 <= i < |s| && (s[i].x == x || s[i].x == x + span))
            && MaxHeight(s, x, x + span) + h <= c.height
       else exists i :: 0 <= i < |s| && s[i].x == x
  }

  // Bottom-left prefers low, then left; best-fit prefers low, then little waste, then left.
  predicate Preferred(bestFit: bool, p: Probe, x: int, p': Probe, x': int) {
    p.y < p'.y ||
    (p.y == p'.y && if bestFit then p.waste < p'.waste || (p.waste == p'.waste && x < x') else x < x')
  }

  ghost predicate Better(c: Config, s: seq<Seg>, span: int, x: int, x': int)
    requires Valid(s, c.width) && 1 <= span
    requires 0 <= x && x + span <= c.width && 0 <= x' && x' + span <= c.width
  {
    Preferred(c.bestFit, Measure(s, x, span), x, Measure(s, x', span), x')
  }

  ghost predicate Best(c: Config, s: seq<Seg>, span: int, h: int, x: int)
    requires Valid(s, c.width) && 1 <= span
  {
    && Candidate(c, s, span, h, x)
    && forall x' :: Candidate(c, s, span, h, x') && x' != x ==> Better(c, s, span, x, x')
  }

  lemma BestIsUnique(c: Config, s: seq<Seg>, span: int, h: int, x: int, x': int)
    requires Valid(s, c.width) && 1 <= span
    requires Best(c, s, span, h, x) && Best(c, s, span, h, x')
    ensures x == x'
  {
  }

  // Best among the candidates left of n, if there are any.
  ghost predicate BestBefore(c: Config, s: seq<Seg>, span: int, h: int, n: int, best: Option<int>)
    requires Valid(s, c.width) && 1 <= span
  {
    && (best.Some? ==> Candidate(c, s, span, h, best.value) && best.value < n)
    && forall x' :: Candidate(c, s, span, h, x') && x' < n ==>
         best.Some? && (x' == best.value || Better(c, s, span, best.value, x'))
  }

  lemma ExtendBest(c: Config, s: seq<Seg>, span: int, h: int, n: int, best: Option<int>) returns (best': Option<int>)
    requires Valid(s, c.width) && 1 <= span && BestBefore(c, s, span, h, n, best)
    ensures BestBefore(c, s, span, h, n + 1, best')
  {
    hide MaxHeight, Measure;
    best' := best;
    if Candidate(c, s, span, h, n) {
      if best.None? || !Better(c, s, span, best.value, n) {
        best' := Some(n);
      }
    }
  }

  lemma BestExists(c: Config, s: seq<Seg>, span: int, h: int, x0: int)
    requires Valid(s, c.width) && 1 <= span
    requires Candidate(c, s, span, h, x0)
    ensures HasBest(c, s, span, h)
  {
    var best, n := None, 0;
    while n < c.width + 1
      invariant 0 <= n <= c.width + 1
      invariant BestBefore(c, s, span, h, n, best)
    {
      best := ExtendBest(c, s, span, h, n, best);
      n := n + 1;
    }
    assert Best(c, s, span, h, best.value);
  }

  ghost predicate HasBest(c: Config, s: seq<Seg>, span: int, h: int)
    requires Valid(s, c.width) && 1 <= span
  {
    exists x :: Best(c, s, span, h, x)
  }

  ghost function Pick(c: Config, s: seq<Seg>, span: int, h: int): (x: int)
    requires Valid(s, c.width) && 1 <= span && HasBest(c, s, span, h)
    ensures Best(c, s, span, h, x)
  {
    var x :| Best(c, s, span, h, x); x
  }

  // Any position on the target, corner or not, at which the rectangle would fit.
  ghost predicate Fits(c: Config, s: seq<Seg>, span: int, h: int, x: int)
    requires Valid(s, c.width) && 1 <= span
  {
    0 <= x && x + span <= c.width && MaxHeight(s, x, x + span) + h <= c.height
  }

  // The search result: the preferred position, provided the rectangle fits above it.
  ghost function Choose(c: Config, s: seq<Seg>, span: int, h: int): Option<int>
    requires Valid(s, c.width) && 1 <= span
  {
    if span <= c.width && h <= c.height && HasBest(c, s, span, h) && Fits(c, s, span, h, Pick(c, s, span, h))
    then Some(Pick(c, s, span, h)) else None
  }

  // --- What the choice is worth ----------------------------------------------------

  // Sliding a span left to the corner of the segment it starts in never raises it.
  lemma SlideToCorner(s: seq<Seg>, width: int, span: int, x: int)
    requires Valid(s, width) && 1 <= span && 0 <= x && x + span <= width
    ensures var a := s[SegmentOf(s, x)].x;
            0 <= a <= x && MaxHeight(s, a, a + span) <= MaxHeight(s, x, x + span)
  {
    hide MaxHeight, Height;
    var i := SegmentOf(s, x);
    var a := s[i].x;
    assert 0 < i ==> s[0].x < s[i].x;
    var k := HighestColumn(s, a, a + span);
    if k < x {
      HeightAt(s, i, k);
      HeightAt(s, i, x);
      ColumnBelow(s, x, x + span, x);
    } else {
      ColumnBelow(s, x, x + span, k);
    }
  }

  // A preferred position is never higher.
  lemma BetterIsLower(c: Config, s: seq<Seg>, span: int, x: int, x': int)
    requires Valid(s, c.width) && 1 <= span
    requires 0 <= x && x + span <= c.width && 0 <= x' && x' + span <= c.width
    requires x == x' || Better(c, s, span, x, x')
    ensures MaxHeight(s, x, x + span) <= MaxHeight(s, x', x' + span)
  {
    MeasureIsMax(s, x, span);
    MeasureIsMax(s, x', span);
  }

  lemma BestIsLowest(c: Config, s: seq<Seg>, span: int, h: int, best: int, x: int)
    requires Valid(s, c.width) && 1 <= span
    requires Best(c, s, span, h, best)
    requires 0 <= x && x + span <= c.width
    requires c.bestFit ==> Fits(c, s, span, h, x)
    ensures MaxHeight(s, best, best + span) <= MaxHeight(s, x, x + span)
  {
    hide MaxHeight, Better, Measure, Height;
    SlideToCorner(s, c.width, span, x);
    var i := SegmentOf(s, x);
    var a := s[i].x;
    assert Candidate(c, s, span, h, a);
    BetterIsLower(c, s, span, best, a);
  }

  // The chosen y is the lowest over every integer position, under either heuristic, although
  // only corners (and right-aligned corners) are tried.
  lemma ChoiceIsLowest(c: Config, s: seq<Seg>, span: int, h: int, x: int)
    requires Valid(s, c.width) && 1 <= span
    requires Choose(c, s, span, h).Some?
    requires 0 <= x && x + span <= c.width
    ensures var best := Choose(c, s, span, h).value;
            && Fits(c, s, span, h, best)
            && MaxHeight(s, best, best + span) <= MaxHeight(s, x, x + span)
  {
    var best := Choose(c, s, span, h).value;
    assert Best(c, s, span, h, best);
    if !c.bestFit || Fits(c, s, span, h, x) {
      BestIsLowest(c, s, span, h, best, x);
    }
  }

  // Bottom-left keeps its name over every integer position: the chosen one is the leftmost of all
  // that are as low.
  lemma BottomLeftIsLeftmost(c: Config, s: seq<Seg>, span: int, h: int, x: int)
    requires Valid(s, c.width) && 1 <= span && !c.bestFit
    requires Choose(c, s, span, h).Some? && 0 <= x && x + span <= c.width
    ensures var best := Choose(c, s, span, h).value;
            && 0 <= best && best + span <= c.width
            && (MaxHeight(s, x, x + span) <= MaxHeight(s, best, best + span) ==> best <= x)
  {
    hide *;
    StartsAtZero(s, c.width);
    var i := SegmentOf(s, x);
    ChosenIsBest(c, s, span, h);
    SlideToCorner(s, c.width, span, x);
    BestIsLeftOf(c, s, span, h, Choose(c, s, span, h).value, i);
  }

  lemma StartsAtZero(s: seq<Seg>, width: int)
    requires Valid(s, width)
    ensures |s| > 0 && s[0].x == 0
  {
  }

  lemma ChosenIsBest(c: Config, s: seq<Seg>, span: int, h: int)
    requires Valid(s, c.width) && 1 <= span && Choose(c, s, span, h).Some?
    ensures Best(c, s, span, h, Choose(c, s, span, h).value)
  {
  }

  lemma BestIsLeftOf(c: Config, s: seq<Seg>, span: int, h: int, best: int, i: int)
    requires Valid(s, c.width) && 1 <= span && !c.bestFit && Best(c, s, span, h, best)
    requires 0 <= i < |s| && 0 <= s[i].x && s[i].x + span <= c.width
    ensures 0 <= best && best + span <= c.width
    ensures MaxHeight(s, s[i].x, s[i].x + span) <= MaxHeight(s, best, best + span) ==> best <= s[i].x
  {
    hide MaxHeight, Measure, Increasing;
    assert Candidate(c, s, span, h, s[i].x);
    MeasureIsMax(s, best, span);
    MeasureIsMax(s, s[i].x, span);
  }

  lemma FittingIsFound(c: Config, s: seq<Seg>, span: int, h: int, x: int)
    requires Valid(s, c.width) && 1 <= span
    requires Fits(c, s, span, h, x)
    ensures Choose(c, s, span, h).Some?
  {
    hide MaxHeight, Better, Measure, Height;
    var a := CornerCandidate(c, s, span, h, x);
    BestExists(c, s, span, h, a);
    var best := Pick(c, s, span, h);
    BestIsLowest(c, s, span, h, best, x);
    assert Fits(c, s, span, h, best);
  }

  lemma CornerCandidate(c: Config, s: seq<Seg>, span: int, h: int, x: int) returns (a: int)
    requires Valid(s, c.width) && 1 <= span && Fits(c, s, span, h, x)
    ensures Candidate(c, s, span, h, a) && h <= c.height
  {
    hide MaxHeight;
    SlideToCorner(s, c.width, span, x);
    a := s[SegmentOf(s, x)].x;
    ColumnBelow(s, x, x + span, x);
    assert 0 <= Height(s, x);
  }

  // A position is found exactly when some integer position fits.
  lemma ChooseIffFits(c: Config, s: seq<Seg>, span: int, h: int)
    requires Valid(s, c.width) && 1 <= span
    ensures Choose(c, s, span, h).Some? <==> exists x :: Fits(c, s, span, h, x)
  {
    if x :| Fits(c, s, span, h, x) {
      FittingIsFound(c, s, span, h, x);
    }
  }

  lemma ChosenNotHigher(c1: Config, c2: Config, s: seq<Seg>, span: int, h: int, x1: int, x2: int)
    requires c1 == c2.(bestFit := c1.bestFit)
    requires Valid(s, c1.width) && 1 <= span
    requires Choose(c1, s, span, h) == Some(x1) && Choose(c2, s, span, h) == Some(x2)
    ensures 0 <= x1 && 0 <= x2
    ensures MaxHeight(s, x1, x1 + span) <= MaxHeight(s, x2, x2 + span)
  {
    hide MaxHeight;
    ChoiceIsLowest(c2, s, span, h, x2);
    ChoiceIsLowest(c1, s, span, h, x2);
  }

  // The two heuristics differ in x only: they fit the same rectangles, at the same height.
  lemma HeuristicsAgree(c1: Config, c2: Config, s: seq<Seg>, span: int, h: int)
    requires c1 == c2.(bestFit := c1.bestFit)
    requires Valid(s, c1.width) && 1 <= span
    ensures Choose(c1, s, span, h).Some? <==> Choose(c2, s, span, h).Some?
    ensures Choose(c1, s, span, h).Some? ==> SameLevel(s, span, Choose(c1, s, span, h), Choose(c2, s, span, h))
  {
    hide MaxHeight;
    if Choose(c1, s, span, h).Some? {
      FittingIsFound(c2, s, span, h, Choose(c1, s, span, h).value);
    }
    if Choose(c2, s, span, h).Some? {
      FittingIsFound(c1, s, span, h, Choose(c2, s, span, h).value);
      hide Choose;
      var x1, x2 := Choose(c1, s, span, h).value, Choose(c2, s, span, h).value;
      ChosenNotHigher(c1, c2, s, span, h, x1, x2);
      ChosenNotHigher(c2, c1, s, span, h, x2, x1);
    }
  }

  ghost predicate SameLevel(s: seq<Seg>, span: int, p: Option<int>, q: Option<int>)
    requires |s| > 0 && s[0].x == 0 && 1 <= span
  {
    p.Some? && q.Some? && 0 <= p.value && 0 <= q.value &&
    MaxHeight(s, p.value, p.value + span) == MaxHeight(s, q.value, q.value + span)
  }

  // --- Searching for it ------------------------------------------------------------

  // The positions a search has met after the first k1 corners (left edges) and the first k2
  // corners (right edges).
  ghost predicate Met(s: seq<Seg>, span: int, k1: int, k2: int, x: int) {
    || (exists i :: 0 <= i < k1 && i < |s| && s[i].x == x)
    || (exists i :: 0 <= i < k2 && i < |s| && s[i].x == x + span)
  }

  // The best of the candidates met so far.
  ghost predicate Champion(c: Config, s: seq<Seg>, span: int, h: int, k1: int, k2: int, best: Option<int>)
    requires Valid(s, c.width) && 1 <= span
  {
    && (best.Some? ==> Candidate(c, s, span, h, best.value))
    && forall x :: Candidate(c, s, span, h, x) && Met(s, span, k1, k2, x) ==>
         best.Some? && (x == best.value || Better(c, s, span, best.value, x))
  }

  // What the search does with one more position.
  ghost predicate Challenged(c: Config, s: seq<Seg>, span: int, h: int, best: Option<int>, x: int, best': Option<int>)
    requires Valid(s, c.width) && 1 <= span
    requires best.Some? ==> Candidate(c, s, span, h, best.value)
  {
    if Candidate(c, s, span, h, x) && (best.Some? ==> Better(c, s, span, x, best.value)) then best' == Some(x)
    else best' == best
  }

  lemma ChallengeKeepsChampion(c: Config, s: seq<Seg>, span: int, h: int, k1: int, k2: int, best: Option<int>,
                               k1': int, k2': int, x: int, best': Option<int>)
    requires Valid(s, c.width) && 1 <= span && 0 <= k1 && 0 <= k2
    requires Champion(c, s, span, h, k1, k2, best)
    requires || (k1' == k1 + 1 && k2' == k2 && k1 < |s| && x == s[k1].x)
             || (k1' == k1 && k2' == k2 + 1 && k2 < |s| && x == s[k2].x - span)
    requires Challenged(c, s, span, h, best, x, best')
    ensures Champion(c, s, span, h, k1', k2', best')
  {
    hide MaxHeight, Measure, Increasing;
    forall x' | Candidate(c, s, span, h, x') && Met(s, span, k1', k2', x')
      ensures best'.Some? && (x' == best'.value || Better(c, s, span, best'.value, x'))
    {
      assert x' == x || Met(s, span, k1, k2, x');
    }
  }

  // A search that has met every candidate has found the best one.
  lemma ChampionIsBest(c: Config, s: seq<Seg>, span: int, h: int, k1: int, k2: int, best: Option<int>)
    requires Valid(s, c.width) && 1 <= span
    requires 0 <= k1 < |s| && c.width < s[k1].x + span
    requires c.bestFit ==> k2 == |s|
    requires Champion(c, s, span, h, k1, k2, best)
    ensures best.Some? ==> Best(c, s, span, h, best.value)
    ensures best.None? ==> !HasBest(c, s, span, h)
  {
    hide MaxHeight, Better;
    forall x | Candidate(c, s, span, h, x) ensures Met(s, span, k1, k2, x) {
      if i :| 0 <= i < |s| && s[i].x == x {
        assert i < k1;
      }
    }
  }

  // --- The floor -------------------------------------------------------------------

  // Only the last segment before the sentinel may lie on the floor.
  ghost predicate FloorLast(s: seq<Seg>) {
    forall i :: 0 <= i < |s| - 2 ==> 0 < s[i].y
  }

  // On the floor nothing is high and nothing is wasted, wherever the span starts.
  lemma FloorProbe(s: seq<Seg>, width: int, x: int, span: int)
    requires Valid(s, width) && 1 <= span && s[|s| - 2].y == 0 && s[|s| - 2].x <= x && x + span <= width
    ensures Measure(s, x, span) == Probe(0, 0) && MaxHeight(s, x, x + span) == 0
    ensures Deficit(s, x, x + span, 0) == 0
  {
    var f := |s| - 2;
    hide MaxHeight, Deficit;
    HeightAt(s, f, x);
    FlatOn(s, f, x, x + span);
    DeficitOfFlat(s, x, x + span);
    assert Measure(s, x, span) == Scan(s, f, x, span, Acc(0, 0, 0));
    MeasureIsMax(s, x, span);
    assert Scan(s, f, x, span, Acc(0, 0, 0)) == Scan(s, f + 1, x, span, Visit(s[f], width, x, span, Acc(0, 0, 0)));
  }

  lemma DeficitOfFlat(s: seq<Seg>, a: int, b: int)
    requires |s| > 0 && s[0].x <= a <= b && forall c :: a <= c < b ==> Height(s, c) == 0
    ensures Deficit(s, a, b, 0) == 0
  {
    DeficitFlat(s, a, a, b, 0, 0);
  }

  lemma OffTheFloor(s: seq<Seg>, width: int, x: int, span: int)
    requires Valid(s, width) && FloorLast(s) && 1 <= span && 0 <= x < s[|s| - 2].x && x + span <= width
    ensures 1 <= MaxHeight(s, x, x + span)
  {
    hide MaxHeight;
    ColumnBelow(s, x, x + span, x);
    assert SegmentOf(s, x) < |s| - 2;
  }

  // As long as there is room on the floor both heuristics put a rectangle at its left end.
  lemma FloorCornerIsChosen(c: Config, s: seq<Seg>, span: int, h: int)
    requires Valid(s, c.width) && FloorLast(s) && 1 <= span
    requires s[|s| - 2].y == 0 && s[|s| - 2].x + span <= c.width && h <= c.height
    ensures 0 <= s[|s| - 2].x && Choose(c, s, span, h) == Some(s[|s| - 2].x)
    ensures MaxHeight(s, s[|s| - 2].x, s[|s| - 2].x + span) == 0
  {
    var x := s[|s| - 2].x;
    assert 0 <= x;
    hide MaxHeight, Measure;
    FloorProbe(s, c.width, x, span);
    assert Candidate(c, s, span, h, x);
    forall x' | Candidate(c, s, span, h, x') && x' != x ensures Better(c, s, span, x, x') {
      if x' < x {
        OffTheFloor(s, c.width, x', span);
        MeasureIsMax(s, x', span);
      } else {
        FloorProbe(s, c.width, x', span);
      }
    }
    assert Best(c, s, span, h, x);
    BestIsUnique(c, s, span, h, x, Pick(c, s, span, h));
  }

  // So nothing is ever put strictly inside the floor ...
  lemma NeverInsideTheFloor(c: Config, s: seq<Seg>, span: int, h: int, x: int)
    requires Valid(s, c.width) && FloorLast(s) && 1 <= span && Choose(c, s, span, h) == Some(x)
    ensures s[|s| - 2].y == 0 ==> x <= s[|s| - 2].x
  {
    hide MaxHeight, Best, Measure;
    if s[|s| - 2].y == 0 && s[|s| - 2].x < x {
      FloorCornerIsChosen(c, s, span, h);
    }
  }

  // ... and the floor stays last.
  lemma InsertKeepsFloorLast(s: seq<Seg>, width: int, x: int, w: int, top: int)
    requires Valid(s, width) && FloorLast(s) && 0 <= x && 1 <= w && x + w <= width && 0 < top
    requires s[|s| - 2].y == 0 ==> x <= s[|s| - 2].x
    ensures FloorLast(Insert(s, width, x, w, top))
  {
    hide SegmentOf, FirstFrom, Successor, Increasing;
    SuccessorIsNext(s, width, x, w);
    var a, j := FirstFrom(s, x), Successor(s, width, x, w);
    assert forall i :: 0 <= i < a ==> s[i].x < x;
    var s' := Insert(s, width, x, w, top);
    forall i | 0 <= i < |s'| - 2 ensures 0 < s'[i].y {
      if i < a {
        assert s'[i] == s[i];
      } else if i > a + 1 {
        assert s'[i] == s[i - a - 1 + j];
      }
    }
  }

  // On such a skyline the probe is exact at every position: a span that starts inside the floor
  // lies wholly on it.
  lemma FloorLastIsExact(s: seq<Seg>, width: int, x: int, span: int)
    requires Valid(s, width) && FloorLast(s) && 0 <= x && 1 <= span && x + span <= width
    ensures var p := Measure(s, x, span);
            p == Probe(MaxHeight(s, x, x + span), Deficit(s, x, x + span, MaxHeight(s, x, x + span)))
  {
    hide MaxHeight, Deficit, Measure;
    var i := SegmentOf(s, x);
    if s[i].x == x || s[i].y > 0 {
      MeasureIsMax(s, x, span);
      MeasureIsExact(s, x, span);
    } else {
      FloorProbe(s, width, x, span);
    }
  }

  // --- Raising the skyline ---------------------------------------------------------

  // The first segment that starts at or after x.
  function FirstFrom(s: seq<Seg>, x: int): (a: nat)
    requires |s| > 0 && Increasing(s)
    ensures a <= |s|
    ensures forall i :: 0 <= i < |s| ==> (s[i].x < x <==> i < a)
  {
    if x <= s[0].x then 0 else SegmentOf(s, x - 1) + 1
  }

  // The segment that will carry the skyline on to the right of [x, x + w).
  function Successor(s: seq<Seg>, width: int, x: int, w: int): (j: nat)
    requires Valid(s, width) && 0 <= x && 1 <= w && x + w <= width
    ensures FirstFrom(s, x) <= j < |s|
  {
    var a := FirstFrom(s, x);
    if s[a].x > x + w then a else SegmentOf(s, x + w)
  }

  // The corners after stbrp__skyline_pack_rectangle has linked in a node at (x, top), freed the
  // nodes it covers, and moved the last covered corner to the right edge.
  function Insert(s: seq<Seg>, width: int, x: int, w: int, top: int): seq<Seg>
    requires Valid(s, width) && 0 <= x && 1 <= w && x + w <= width
  {
    var a, j := FirstFrom(s, x), Successor(s, width, x, w);
    s[..a] + [Seg(x, top), Seg(Max(s[j].x, x + w), s[j].y)] + s[j + 1..]
  }

  // Where the raised stretch ends: the right edge, or the next corner if that is farther.
  function RaisedEnd(s: seq<Seg>, width: int, x: int, w: int): int
    requires Valid(s, width) && 0 <= x && 1 <= w && x + w <= width
  {
    Max(x + w, s[FirstFrom(s, x)].x)
  }

  lemma InsertIsValid(s: seq<Seg>, width: int, x: int, w: int, top: int)
    requires Valid(s, width) && 0 <= x && 1 <= w && x + w <= width && 0 <= top
    ensures Valid(Insert(s, width, x, w, top), width)
  {
    hide SegmentOf, FirstFrom, Successor, Increasing;
    SuccessorIsNext(s, width, x, w);
    var a, j := FirstFrom(s, x), Successor(s, width, x, w);
    var p, q := Seg(x, top), Seg(Max(s[j].x, x + w), s[j].y);
    ReplacedIsIncreasing(s, a, j, p, q);
    ReplacedIsValid(s, width, a, j, p, q);
  }

  lemma ReplacedIsValid(s: seq<Seg>, width: int, a: int, j: int, p: Seg, q: Seg)
    requires Valid(s, width) && 0 <= a <= j < |s| && 0 <= p.y && 0 <= q.y
    requires (a == 0 ==> p.x == 0) && (j + 1 == |s| ==> q.x == width)
    requires Increasing(s[..a] + [p, q] + s[j + 1..])
    ensures Valid(s[..a] + [p, q] + s[j + 1..], width)
  {
    hide Increasing;
    var s' := s[..a] + [p, q] + s[j + 1..];
    assert forall i :: 0 <= i < |s'| ==>
             s'[i] == if i < a then s[i] else if i == a then p else if i == a + 1 then q else s[i - a - 1 + j];
  }

  lemma SuccessorIsNext(s: seq<Seg>, width: int, x: int, w: int)
    requires Valid(s, width) && 0 <= x && 1 <= w && x + w <= width
    ensures var (a, j) := (FirstFrom(s, x), Successor(s, width, x, w));
            && (x == 0 <==> a == 0) && (a > 0 ==> s[a - 1].x < x) && (s[j].x <= x + w || j == a)
            && (j + 1 < |s| ==> x + w < s[j + 1].x && s[j].x < s[j + 1].x) && (j + 1 == |s| ==> s[j].x == width)
  {
  }

  // Two corners in place of a stretch of them.
  lemma ReplacedIsIncreasing(s: seq<Seg>, a: int, j: int, p: Seg, q: Seg)
    requires Increasing(s) && 0 <= a <= j < |s|
    requires (a > 0 ==> s[a - 1].x < p.x) && p.x < q.x && (j + 1 < |s| ==> q.x < s[j + 1].x)
    ensures var s' := s[..a] + [p, q] + s[j + 1..];
            && Increasing(s') && |s'| == a + 1 + |s| - j
            && (forall i :: 0 <= i < a ==> s'[i] == s[i]) && s'[a] == p && s'[a + 1] == q
            && (forall i :: a + 2 <= i < |s'| ==> s'[i] == s[i - a - 1 + j])
  {
    var s' := s[..a] + [p, q] + s[j + 1..];
    assert forall i :: 0 <= i < a ==> s'[i] == s[i] && s'[i].x <= s[a - 1].x;
    assert forall i :: a + 2 <= i < |s'| ==> s'[i] == s[i - a - 1 + j] && s[j + 1].x <= s'[i].x;
  }

  // Inserting a rectangle is an update of the height function: the stretch is raised to the
  // rectangle's top and every other column keeps its height.
  lemma InsertRaises(s: seq<Seg>, width: int, x: int, w: int, top: int, c: int)
    requires Valid(s, width) && 0 <= x && 1 <= w && x + w <= width && 0 <= top
    requires 0 <= c < width
    ensures Valid(Insert(s, width, x, w, top), width)
    ensures Height(Insert(s, width, x, w, top), c)
         == if x <= c < RaisedEnd(s, width, x, w) then top else Height(s, c)
  {
    InsertIsValid(s, width, x, w, top);
    InsertRaisesAt(s, width, x, w, top, c, Insert(s, width, x, w, top));
  }

  lemma InsertRaisesAt(s: seq<Seg>, width: int, x: int, w: int, top: int, c: int, s': seq<Seg>)
    requires Valid(s, width) && 0 <= x && 1 <= w && x + w <= width && 0 <= top
    requires 0 <= c < width
    requires s' == Insert(s, width, x, w, top) && Valid(s', width)
    ensures Height(s', c) == if x <= c < RaisedEnd(s, width, x, w) then top else Height(s, c)
  {
    hide SegmentOf;
    var a, j := FirstFrom(s, x), Successor(s, width, x, w);
    var i := SegmentOf(s, c);
    if c < x {
      HeightAt(s', i, c);
    } else if c < RaisedEnd(s, width, x, w) {
      HeightAt(s', a, c);
    } else {
      HeightAt(s', i - j + a + 1, c);
    }
  }

  // The update is exactly the rectangle's own columns just when some corner lies in
  // [x, x + w]; otherwise the columns up to the next corner are raised with it.
  lemma InsertIsExactIff(s: seq<Seg>, width: int, x: int, w: int, top: int)
    requires Valid(s, width) && 0 <= x && 1 <= w && x + w <= width
    requires MaxHeight(s, x, x + w) < top
    ensures Valid(Insert(s, width, x, w, top), width)
    ensures (forall c :: 0 <= c < width ==>
               Height(Insert(s, width, x, w, top), c) == if x <= c < x + w then top else Height(s, c))
       <==> (exists i :: 0 <= i < |s| && x <= s[i].x <= x + w)
  {
    hide MaxHeight, SegmentOf, Insert, Successor;
    ColumnBelow(s, x, x + w, x);
    assert 0 <= Height(s, x);
    InsertIsValid(s, width, x, w, top);
    var s' := Insert(s, width, x, w, top);
    var a := FirstFrom(s, x);
    forall c | 0 <= c < width
      ensures Height(s', c) == if x <= c < RaisedEnd(s, width, x, w) then top else Height(s, c)
    {
      InsertRaises(s, width, x, w, top, c);
    }
    if s[a].x <= x + w {
      assert x <= s[a].x <= x + w;
    } else {
      hide FirstFrom;
      var i := SegmentOf(s, x);
      HeightAt(s, i, x + w);
      assert Height(s', x + w) == top;
      assert Height(s, x + w) == Height(s, x) < top;
    }
  }

  // The positions the search returns meet that condition under bottom-left, and under best-fit
  // whenever the rounding left the width alone.
  lemma ChosenInsertIsExact(c: Config, s: seq<Seg>, w: int, span: int, h: int, x: int)
    requires Valid(s, c.width) && 1 <= w <= span
    requires Choose(c, s, span, h) == Some(x)
    requires !c.bestFit || span == w
    ensures exists i :: 0 <= i < |s| && x <= s[i].x <= x + w
  {
    hide MaxHeight, SegmentOf, Better;
    assert Candidate(c, s, span, h, x);
  }

  // Otherwise best-fit can right-align the rounded width inside a segment: here a rectangle one
  // column wide, rounded to four, goes to column 1 and raises column 2 with it.
  const STAIRS := [Seg(0, 1), Seg(3, 2), Seg(5, 9), Seg(13, 65535)]
  const QUANTISED := Config(13, 100, 4, 4, true)

  ghost predicate Stairs(c: Config, s: seq<Seg>) {
    c == QUANTISED && s == STAIRS
  }

  lemma StairsProbe(c: Config, s: seq<Seg>, x: int, p: Probe)
    requires Stairs(c, s)
    requires (x == 0 && p == Probe(2, 3)) || (x == 1 && p == Probe(2, 2))
    ensures Valid(s, 13) && Measure(s, x, 4) == p
  {
    HeightAt(s, 0, x);
  }

  lemma StairsHigh(c: Config, s: seq<Seg>, x: int)
    requires Stairs(c, s) && 3 <= x <= 9
    ensures Valid(s, 13) && Measure(s, x, 4).y == 9
  {
    HeightAt(s, if x < 5 then 1 else 2, x);
  }

  lemma StairsCandidate(c: Config, s: seq<Seg>, x: int)
    requires Stairs(c, s) && Valid(s, 13) && Candidate(c, s, 4, 1, x)
    ensures x == 0 || x == 1 || 3 <= x <= 9
  {
    hide MaxHeight;
  }

  lemma StairsBest(c: Config, s: seq<Seg>)
    requires Stairs(c, s)
    ensures Valid(s, 13) && Best(c, s, 4, 1, 1) && MaxHeight(s, 1, 5) == 2
  {
    StairsProbe(c, s, 1, Probe(2, 2));
    MeasureIsMax(s, 1, 4);
    hide MaxHeight, Measure;
    assert Candidate(c, s, 4, 1, 1) by {
      assert s[2].x == 5;
    }
    forall x | Candidate(c, s, 4, 1, x) && x != 1 ensures Better(c, s, 4, 1, x) {
      StairsCandidate(c, s, x);
      if x == 0 {
        StairsProbe(c, s, 0, Probe(2, 3));
      } else {
        StairsHigh(c, s, x);
      }
    }
  }

  lemma StairsRaised(c: Config, s: seq<Seg>)
    requires Stairs(c, s)
    ensures Valid(s, 13)
    ensures Height(s, 2) == 1 && Height(Insert(s, 13, 1, 1, 3), 2) == 3
  {
    HeightAt(s, 0, 2);
    HeightAt(s, 0, 1);
    assert FirstFrom(s, 1) == 1 by {
      assert s[0].x < 1 && !(s[1].x < 1);
    }
    HeightAt(Insert(s, 13, 1, 1, 3), 1, 2);
  }

  lemma BestFitRaisesBeyondTheRectangle(c: Config, s: seq<Seg>)
    requires Stairs(c, s)
    ensures Valid(s, 13) && RoundUp(1, c.align) == 4 && Choose(c, s, 4, 1) == Some(1)
    ensures Height(s, 2) == 1 && Height(Insert(s, 13, 1, 1, MaxHeight(s, 1, 5) + 1), 2) == 3
  {
    StairsBest(c, s);
    StairsRaised(c, s);
    hide MaxHeight, Best, Measure, Height, Insert;
    BestIsUnique(c, s, 4, 1, 1, Pick(c, s, 4, 1));
  }
}
