// What best-fit's positions are worth: although only corners are tried, as left and as right edges,
// no position at all on the chosen level wastes less.
module BestFit {
  import opened Common
  import opened Skyline
  import opened Placement
  import opened Packing

  ghost predicate IsCorner(s: seq<Seg>, x: int) {
    exists i :: 0 <= i < |s| && s[i].x == x
  }

  lemma SameHeightBefore(s: seq<Seg>, width: int, x: int)
    requires Valid(s, width) && 0 < x < width && !IsCorner(s, x)
    ensures Height(s, x - 1) == Height(s, x)
  {
    var i := SegmentOf(s, x);
    assert s[i].x != x;
    HeightAt(s, i, x);
    HeightAt(s, i, x - 1);
  }

  lemma {:induction false} DeficitFirst(s: seq<Seg>, a: int, b: int, m: int)
    requires |s| > 0 && s[0].x <= a < b
    ensures Deficit(s, a, b, m) == (m - Height(s, a)) + Deficit(s, a + 1, b, m)
    decreases b - a
  {
    if a + 1 < b {
      DeficitFirst(s, a, b - 1, m);
    }
  }

  // One column further right: one column less on the left, one more on the right.
  lemma DeficitShift(s: seq<Seg>, x: int, span: int, m: int)
    requires |s| > 0 && s[0].x <= x && 1 <= span
    ensures Deficit(s, x + 1, x + 1 + span, m) == Deficit(s, x, x + span, m) + Height(s, x) - Height(s, x + span)
  {
    hide Height;
    DeficitFirst(s, x, x + 1 + span, m);
    assert Deficit(s, x, x + span + 1, m) == Deficit(s, x, x + span, m) + (m - Height(s, x + span));
  }

  // A span shifted by one is no higher if the column it gains is as high as its neighbour.
  lemma ShiftedNotHigher(s: seq<Seg>, x: int, x': int, span: int)
    requires |s| > 0 && s[0].x <= x && s[0].x <= x' && 1 <= span
    requires (x' == x + 1 && Height(s, x + span) == Height(s, x + span - 1))
          || (x' == x - 1 && Height(s, x') == Height(s, x))
    ensures MaxHeight(s, x', x' + span) <= MaxHeight(s, x, x + span)
  {
    hide MaxHeight, Height;
    var k := HighestColumn(s, x', x' + span);
    ColumnBelow(s, x, x + span, if k == x + span then k - 1 else if k < x then x else k);
  }

  // While neither edge is at a corner, the waste changes by the same amount with every column.
  lemma {:induction false} SlideRight(s: seq<Seg>, width: int, span: int, x: int, m: int) returns (x': int)
    requires Valid(s, width) && 1 <= span && 0 <= x && x + span <= width
    requires x + span < width ==> Height(s, x) <= Height(s, x + span)
    ensures 0 <= x' && x' + span <= width && (IsCorner(s, x') || IsCorner(s, x' + span))
    ensures MaxHeight(s, x', x' + span) <= MaxHeight(s, x, x + span)
    ensures Deficit(s, x', x' + span, m) <= Deficit(s, x, x + span, m)
    decreases width - x
  {
    hide MaxHeight, Height, Deficit;
    if IsCorner(s, x) || IsCorner(s, x + span) {
      x' := x;
    } else {
      EndIsCorner(s, width);
      SameHeightBefore(s, width, x + span);
      ShiftedNotHigher(s, x, x + 1, span);
      DeficitShift(s, x, span, m);
      if IsCorner(s, x + 1) || IsCorner(s, x + 1 + span) {
        x' := x + 1;
      } else {
        SameHeightBefore(s, width, x + 1);
        SameHeightBefore(s, width, x + 1 + span);
        x' := SlideRight(s, width, span, x + 1, m);
      }
    }
  }

  lemma {:induction false} SlideLeft(s: seq<Seg>, width: int, span: int, x: int, m: int) returns (x': int)
    requires Valid(s, width) && 1 <= span && 0 <= x && x + span <= width
    requires x + span < width ==> Height(s, x + span) <= Height(s, x)
    ensures 0 <= x' <= x && x' + span <= width && (IsCorner(s, x') || IsCorner(s, x' + span))
    ensures MaxHeight(s, x', x' + span) <= MaxHeight(s, x, x + span)
    ensures Deficit(s, x', x' + span, m) <= Deficit(s, x, x + span, m)
    decreases x
  {
    hide MaxHeight, Height, Deficit;
    if IsCorner(s, x) || IsCorner(s, x + span) {
      x' := x;
    } else {
      EndIsCorner(s, width);
      SameHeightBefore(s, width, x);
      SameHeightBefore(s, width, x + span);
      ShiftedNotHigher(s, x, x - 1, span);
      DeficitShift(s, x - 1, span, m);
      x' := SlideLeft(s, width, span, x - 1, m);
    }
  }

  lemma EndIsCorner(s: seq<Seg>, width: int)
    requires Valid(s, width)
    ensures IsCorner(s, 0) && IsCorner(s, width) && |s| > 0 && s[0].x == 0
  {
    assert s[|s| - 1].x == width;
  }

  // From any position there is one with an edge at a corner that is no higher and wastes no more.
  lemma SlideToEdge(s: seq<Seg>, width: int, span: int, x: int, m: int) returns (x': int)
    requires Valid(s, width) && 1 <= span && 0 <= x && x + span <= width
    ensures 0 <= x' && x' + span <= width && (IsCorner(s, x') || IsCorner(s, x' + span))
    ensures MaxHeight(s, x', x' + span) <= MaxHeight(s, x, x + span)
    ensures Deficit(s, x', x' + span, m) <= Deficit(s, x, x + span, m)
  {
    hide MaxHeight, Height, Deficit;
    if Height(s, x) <= Height(s, x + span) {
      x' := SlideRight(s, width, span, x, m);
    } else {
      x' := SlideLeft(s, width, span, x, m);
    }
  }

  lemma EdgeIsCandidate(c: Config, s: seq<Seg>, span: int, h: int, best: int, x: int)
    requires Valid(s, c.width) && 1 <= span && c.bestFit && Best(c, s, span, h, best)
    requires 0 <= x && x + span <= c.width && (IsCorner(s, x) || IsCorner(s, x + span))
    requires 0 <= best && best + span <= c.width
    requires MaxHeight(s, x, x + span) <= MaxHeight(s, best, best + span)
    ensures best == x || Better(c, s, span, best, x)
  {
    hide MaxHeight, Better;
    assert Candidate(c, s, span, h, x);
  }

  // Where it is strictly cheaper one column further on, it is so without going up.
  lemma OneFurther(s: seq<Seg>, width: int, span: int, x: int, m: int)
    requires Valid(s, width) && 1 <= span && 0 <= x && x + span <= width
    requires !IsCorner(s, x) && !IsCorner(s, x + span) && Height(s, x) < Height(s, x + span)
    ensures x + 1 + span <= width && MaxHeight(s, x + 1, x + 1 + span) <= MaxHeight(s, x, x + span)
    ensures Deficit(s, x + 1, x + 1 + span, m) < Deficit(s, x, x + span, m)
  {
    hide MaxHeight, Height, Deficit;
    EndIsCorner(s, width);
    SameHeightBefore(s, width, x + span);
    ShiftedNotHigher(s, x, x + 1, span);
    DeficitShift(s, x, span, m);
  }

  lemma NoLessWaste(c: Config, s: seq<Seg>, span: int, best: int, x: int)
    requires Valid(s, c.width) && FloorLast(s) && 1 <= span && c.bestFit
    requires 0 <= x && x + span <= c.width && 0 <= best && best + span <= c.width
    requires MaxHeight(s, x, x + span) <= MaxHeight(s, best, best + span)
    requires best == x || Better(c, s, span, best, x)
    ensures var y := MaxHeight(s, best, best + span);
            && Deficit(s, best, best + span, y) <= Deficit(s, x, x + span, y)
            && (Deficit(s, best, best + span, y) == Deficit(s, x, x + span, y) ==> best <= x)
  {
    FloorLastIsExact(s, c.width, best, span);
    FloorLastIsExact(s, c.width, x, span);
    hide MaxHeight, Deficit, Measure;
  }

  lemma LeastOnSkyline(c: Config, s: seq<Seg>, span: int, h: int, best: int, x: int)
    requires Valid(s, c.width) && FloorLast(s) && |s| > 0 && s[0].x == 0 && 1 <= span && c.bestFit
    requires Best(c, s, span, h, best) && 0 <= best && best + span <= c.width
    requires 0 <= x && x + span <= c.width && MaxHeight(s, x, x + span) <= MaxHeight(s, best, best + span)
    ensures var y := MaxHeight(s, best, best + span);
            Deficit(s, best, best + span, y) <= Deficit(s, x, x + span, y)
  {
    hide *;
    var x' := SlideToEdge(s, c.width, span, x, MaxHeight(s, best, best + span));
    EdgeIsCandidate(c, s, span, h, best, x');
    NoLessWaste(c, s, span, best, x');
  }

  lemma LeftmostOnSkyline(c: Config, s: seq<Seg>, span: int, h: int, best: int, x: int)
    requires Valid(s, c.width) && FloorLast(s) && |s| > 0 && s[0].x == 0 && 1 <= span && c.bestFit
    requires Best(c, s, span, h, best) && 0 <= best && best + span <= c.width
    requires 0 <= x && x + span <= c.width && MaxHeight(s, x, x + span) <= MaxHeight(s, best, best + span)
    requires var y := MaxHeight(s, best, best + span);
             Deficit(s, x, x + span, y) <= Deficit(s, best, best + span, y)
    ensures best <= x
  {
    hide *;
    var y := MaxHeight(s, best, best + span);
    if !IsCorner(s, x) && !IsCorner(s, x + span) && Height(s, x) < Height(s, x + span) {
      OneFurther(s, c.width, span, x, y);
      LeastOnSkyline(c, s, span, h, best, x + 1);
      assert false;
    } else if IsCorner(s, x) || IsCorner(s, x + span) {
      EdgeIsCandidate(c, s, span, h, best, x);
      NoLessWaste(c, s, span, best, x);
    } else {
      var x' := SlideLeft(s, c.width, span, x, y);
      EdgeIsCandidate(c, s, span, h, best, x');
      NoLessWaste(c, s, span, best, x');
    }
  }

  // On every skyline a run builds, best-fit's position leaves the least area unused of all integer
  // positions that are as low, and is the leftmost of those that leave as little.
  lemma BestFitWastesLeast(c: Config, st: State, rects: seq<Size>, span: int, h: int, best: int, x: int)
    requires Inv(c, st) && c.bestFit && 1 <= span && 0 <= x && x + span <= c.width
    requires Choose(c, RunFrom(c, st, rects).sky, span, h) == Some(best)
    ensures var s := RunFrom(c, st, rects).sky;
            && 0 <= best && best + span <= c.width
            && var y := MaxHeight(s, best, best + span);
               MaxHeight(s, x, x + span) <= y ==>
                 && Deficit(s, best, best + span, y) <= Deficit(s, x, x + span, y)
                 && (Deficit(s, best, best + span, y) == Deficit(s, x, x + span, y) ==> best <= x)
  {
    hide *;
    var s := RunFrom(c, st, rects).sky;
    SkyShape(c, RunFrom(c, st, rects));
    ChosenIsBest(c, s, span, h);
    BestInRange(c, s, span, h, best);
    if MaxHeight(s, x, x + span) <= MaxHeight(s, best, best + span) {
      var y := MaxHeight(s, best, best + span);
      LeastOnSkyline(c, s, span, h, best, x);
      if Deficit(s, best, best + span, y) == Deficit(s, x, x + span, y) {
        LeftmostOnSkyline(c, s, span, h, best, x);
      }
    }
  }

  lemma SkyShape(c: Config, st: State)
    requires Inv(c, st)
    ensures Valid(st.sky, c.width) && FloorLast(st.sky) && |st.sky| > 0 && st.sky[0].x == 0
  {
  }

  lemma BestInRange(c: Config, s: seq<Seg>, span: int, h: int, best: int)
    requires Valid(s, c.width) && 1 <= span && Best(c, s, span, h, best)
    ensures 0 <= best && best + span <= c.width
  {
  }
}
