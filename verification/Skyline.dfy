// The skyline of a rectangle packer as a pure value: the list of (x, y) corners
// that stbrp_node objects spell out, the height function it denotes, and the two
// measurements the packer takes of it (the resting height of a span and the area
// wasted under it).
module Skyline {

  datatype Seg = Seg(x: int, y: int)

  ghost predicate Increasing(s: seq<Seg>) {
    forall i, j :: 0 <= i < j < |s| ==> s[i].x < s[j].x
  }

  // A skyline over the columns [0, width): starts at 0, ends in the sentinel at width.
  ghost predicate Valid(s: seq<Seg>, width: int) {
    && |s| >= 2
    && s[0].x == 0
    && s[|s| - 1].x == width
    && Increasing(s)
    && forall i :: 0 <= i < |s| ==> 0 <= s[i].y
  }

  // The last segment that starts at or before column c.
  function SegmentOf(s: seq<Seg>, c: int): (i: nat)
    requires |s| > 0 && s[0].x <= c
    ensures i < |s| && s[i].x <= c
    ensures forall j :: i < j < |s| ==> c < s[j].x
  {
    if s[|s| - 1].x <= c then |s| - 1 else SegmentOf(s[..|s| - 1], c)
  }

  function Height(s: seq<Seg>, c: int): int
    requires |s| > 0 && s[0].x <= c
  {
    s[SegmentOf(s, c)].y
  }

  lemma HeightAt(s: seq<Seg>, i: int, c: int)
    requires Increasing(s) && 0 <= i < |s| && s[i].x <= c
    requires i + 1 < |s| ==> c < s[i + 1].x
    ensures s[0].x <= c
    ensures SegmentOf(s, c) == i && Height(s, c) == s[i].y
  {
    assert 0 < i ==> s[0].x < s[i].x;
  }

  function Max(a: int, b: int): int {
    if a < b then b else a
  }

  // The height at which something spanning the columns [a, b) comes to rest.
  function MaxHeight(s: seq<Seg>, a: int, b: int): int
    requires |s| > 0 && s[0].x <= a < b
    decreases b - a
  {
    if b == a + 1 then Height(s, a) else Max(MaxHeight(s, a, b - 1), Height(s, b - 1))
  }

  // A column that is as high as the maximum.
  lemma HighestColumn(s: seq<Seg>, a: int, b: int) returns (c: int)
    requires |s| > 0 && s[0].x <= a < b
    ensures a <= c < b && Height(s, c) == MaxHeight(s, a, b)
  {
    MaxHeightBounds(s, a, b);
    hide MaxHeight, Height;
    c :| a <= c < b && Height(s, c) == MaxHeight(s, a, b);
  }

  lemma ColumnBelow(s: seq<Seg>, a: int, b: int, c: int)
    requires |s| > 0 && s[0].x <= a <= c < b
    ensures Height(s, c) <= MaxHeight(s, a, b)
  {
    MaxHeightBounds(s, a, b);
  }

  lemma {:induction false} MaxHeightBounds(s: seq<Seg>, a: int, b: int)
    requires |s| > 0 && s[0].x <= a < b
    ensures forall c :: a <= c < b ==> Height(s, c) <= MaxHeight(s, a, b)
    ensures exists c :: a <= c < b && Height(s, c) == MaxHeight(s, a, b)
    decreases b - a
  {
    if a + 1 < b {
      MaxHeightBounds(s, a, b - 1);
      var c :| a <= c < b - 1 && Height(s, c) == MaxHeight(s, a, b - 1);
      assert Height(s, c) == MaxHeight(s, a, b) || Height(s, b - 1) == MaxHeight(s, a, b);
    } else {
      assert Height(s, a) == MaxHeight(s, a, b);
    }
  }

  // The only value that bounds a span and is attained in it is its maximum.
  lemma MaxHeightIs(s: seq<Seg>, a: int, b: int, m: int)
    requires |s| > 0 && s[0].x <= a < b
    requires forall c :: a <= c < b ==> Height(s, c) <= m
    requires exists c :: a <= c < b && Height(s, c) == m
    ensures MaxHeight(s, a, b) == m
  {
    MaxHeightBounds(s, a, b);
  }

  // The area between the level m and the skyline over the columns [a, b).
  function Deficit(s: seq<Seg>, a: int, b: int, m: int): int
    requires |s| > 0 && s[0].x <= a
    decreases b - a
  {
    if b <= a then 0 else Deficit(s, a, b - 1, m) + (m - Height(s, b - 1))
  }

  lemma DeficitRaise(s: seq<Seg>, a: int, b: int, m: int, d: int)
    requires |s| > 0 && s[0].x <= a <= b
    ensures Deficit(s, a, b, m + d) == Deficit(s, a, b, m) + (b - a) * d
    decreases b - a
  {
    if a < b {
      DeficitRaise(s, a, b - 1, m, d);
      assert (b - a) * d == (b - 1 - a) * d + d;
    }
  }

  lemma DeficitFlat(s: seq<Seg>, a: int, b: int, e: int, m: int, y: int)
    requires |s| > 0 && s[0].x <= a <= b <= e
    requires forall c :: b <= c < e ==> Height(s, c) == y
    ensures Deficit(s, a, e, m) == Deficit(s, a, b, m) + (e - b) * (m - y)
    decreases e - b
  {
    if b < e {
      DeficitFlat(s, a, b, e - 1, m, y);
      assert (e - b) * (m - y) == (e - 1 - b) * (m - y) + (m - y);
    }
  }

  lemma DeficitNonNegative(s: seq<Seg>, a: int, b: int, m: int)
    requires |s| > 0 && s[0].x <= a <= b
    requires forall c :: a <= c < b ==> Height(s, c) <= m
    ensures 0 <= Deficit(s, a, b, m)
    decreases b - a
  {
    if a < b {
      DeficitNonNegative(s, a, b - 1, m);
    }
  }

  // What stbrp__skyline_find_min_y reports, and the three accumulators of its loop.
  datatype Probe = Probe(y: int, waste: int)
  datatype Acc = Acc(minY: int, waste: int, visited: int)

  // One turn of the loop, at the segment seg whose successor starts at next.
  function Visit(seg: Seg, next: int, x0: int, width: int, acc: Acc): Acc {
    if seg.y > acc.minY then
      Acc(seg.y,
          acc.waste + acc.visited * (seg.y - acc.minY),
          acc.visited + (if seg.x < x0 then next - x0 else next - seg.x))
    else
      var gap := next - seg.x;
      var under := if gap + acc.visited > width then width - acc.visited else gap;
      Acc(acc.minY, acc.waste + under * (acc.minY - seg.y), acc.visited + under)
  }

  // The loop from segment i on.
  function Scan(s: seq<Seg>, i: int, x0: int, width: int, acc: Acc): Probe
    requires Increasing(s) && 0 <= i < |s| && x0 + width <= s[|s| - 1].x
    decreases |s| - i
  {
    if s[i].x >= x0 + width then Probe(acc.minY, acc.waste)
    else Scan(s, i + 1, x0, width, Visit(s[i], s[i + 1].x, x0, width, acc))
  }

  // The measurement of the span [x, x + width), started at the segment x lies in.
  function Measure(s: seq<Seg>, x: int, width: int): Probe
    requires Increasing(s) && |s| > 0 && s[0].x <= x && x + width <= s[|s| - 1].x
  {
    Scan(s, SegmentOf(s, x), x, width, Acc(0, 0, 0))
  }

  lemma FlatOn(s: seq<Seg>, i: int, a: int, b: int)
    requires Increasing(s) && 0 <= i < |s| - 1 && s[i].x <= a && b <= s[i + 1].x
    ensures s[0].x <= s[i].x
    ensures forall c :: a <= c < b ==> Height(s, c) == s[i].y
  {
    assert 0 < i ==> s[0].x < s[i].x;
    forall c | a <= c < b ensures Height(s, c) == s[i].y {
      HeightAt(s, i, c);
    }
  }

  lemma MaxHeightSplit(s: seq<Seg>, a: int, m: int, b: int, y: int)
    requires |s| > 0 && s[0].x <= a < m < b
    requires forall c :: a <= c < m ==> Height(s, c) == y
    ensures MaxHeight(s, a, b) == Max(y, MaxHeight(s, m, b))
  {
    var rest := MaxHeight(s, m, b);
    MaxHeightBounds(s, m, b);
    var c2 :| m <= c2 < b && Height(s, c2) == rest;
    assert Height(s, a) == y;
    MaxHeightIs(s, a, b, Max(y, rest));
  }

  // The maximum of a span that starts in segment i, in terms of the rest of the span.
  lemma SpanFrom(s: seq<Seg>, i: int, a: int, b: int)
    requires Increasing(s) && 0 <= i < |s| - 1 && s[i].x <= a < s[i + 1].x && a < b
    ensures s[0].x <= s[i].x
    ensures MaxHeight(s, a, b) == if s[i + 1].x < b then Max(s[i].y, MaxHeight(s, s[i + 1].x, b)) else s[i].y
  {
    var next := s[i + 1].x;
    if next < b {
      FlatOn(s, i, a, next);
      MaxHeightSplit(s, a, next, b, s[i].y);
    } else {
      FlatOn(s, i, a, b);
      assert Height(s, a) == s[i].y;
      MaxHeightIs(s, a, b, s[i].y);
    }
  }

  // From a segment boundary on, the scan ends at the larger of its level and the span's maximum.
  lemma {:induction false} ScanFindsMax(s: seq<Seg>, i: int, x0: int, width: int, acc: Acc)
    requires Increasing(s) && 0 <= i < |s| && x0 + width <= s[|s| - 1].x
    requires s[0].x <= x0 < x0 + width
    requires i + 1 < |s| ==> x0 < s[i + 1].x
    ensures Scan(s, i, x0, width, acc).y
         == if s[i].x < x0 + width then Max(acc.minY, MaxHeight(s, Max(s[i].x, x0), x0 + width)) else acc.minY
    decreases |s| - i
  {
    var x1 := x0 + width;
    if s[i].x < x1 {
      var a := Max(s[i].x, x0);
      var next := s[i + 1].x;
      assert s[i].x < next;
      assert i + 2 < |s| ==> s[i + 1].x < s[i + 2].x;
      var acc' := Visit(s[i], next, x0, width, acc);
      assert acc'.minY == Max(acc.minY, s[i].y);
      ScanFindsMax(s, i + 1, x0, width, acc');
      assert Scan(s, i, x0, width, acc) == Scan(s, i + 1, x0, width, acc');
      SpanFrom(s, i, a, x1);
    }
  }

  // The columns the loop has passed when it stands at x.
  function Passed(x: int, x0: int, width: int): int {
    if x <= x0 then 0 else if x < x0 + width then x - x0 else width
  }

  // The loop has passed the columns before segment i, counted them, and accumulated their deficit.
  ghost predicate InStep(s: seq<Seg>, i: int, x0: int, width: int, acc: Acc)
    requires 0 <= i < |s| && s[0].x <= x0
  {
    && (s[i].x < x0 ==> s[i].y > acc.minY)
    && (s[i].x < x0 + width ==> acc.visited == Passed(s[i].x, x0, width))
    && acc.waste == Deficit(s, x0, x0 + Passed(s[i].x, x0, width), acc.minY)
  }

  // Raising the level to y charges the columns passed so far, and those at y nothing.
  lemma RaisedDeficit(s: seq<Seg>, x0: int, a: int, b: int, m: int, y: int)
    requires |s| > 0 && s[0].x <= x0 <= a <= b && forall c :: a <= c < b ==> Height(s, c) == y
    ensures Deficit(s, x0, b, y) == Deficit(s, x0, a, m) + (a - x0) * (y - m)
  {
    hide Height, Deficit;
    DeficitRaise(s, x0, a, m, y - m);
    DeficitFlat(s, x0, a, b, y, y);
    NothingTimes(b - a, y - y);
  }

  lemma NothingTimes(n: int, z: int)
    requires z == 0
    ensures n * z == 0
  {
  }

  lemma VisitKeepsStep(s: seq<Seg>, i: int, x0: int, width: int, acc: Acc)
    requires Increasing(s) && 0 <= i < |s| - 1 && x0 + width <= s[|s| - 1].x
    requires s[0].x <= x0 < s[i + 1].x && s[i].x < x0 + width && 0 < width
    requires InStep(s, i, x0, width, acc)
    ensures InStep(s, i + 1, x0, width, Visit(s[i], s[i + 1].x, x0, width, acc))
  {
    var y, next := s[i].y, s[i + 1].x;
    assert s[i].x < next;
    var a, b := x0 + Passed(s[i].x, x0, width), x0 + Passed(next, x0, width);
    hide Height, SegmentOf, Deficit, Increasing;
    FlatOn(s, i, a, b);
    var acc' := Visit(s[i], next, x0, width, acc);
    if y > acc.minY {
      RaisedDeficit(s, x0, a, b, acc.minY, y);
    } else {
      DeficitFlat(s, x0, a, b, acc.minY, y);
      UnderIsPassed(s[i].x, next, x0, width);
    }
    assert acc'.waste == Deficit(s, x0, b, acc'.minY);
  }

  // The width counted under the level is that of the columns passed.
  lemma UnderIsPassed(x: int, next: int, x0: int, width: int)
    requires x < next && x0 <= x < x0 + width
    ensures var (gap, visited) := (next - x, Passed(x, x0, width));
            (if gap + visited > width then width - visited else gap) == Passed(next, x0, width) - visited
  {
  }

  lemma {:induction false} ScanCountsWaste(s: seq<Seg>, i: int, x0: int, width: int, acc: Acc)
    requires Increasing(s) && 0 <= i < |s| && x0 + width <= s[|s| - 1].x
    requires s[0].x <= x0 < x0 + width
    requires i + 1 < |s| ==> x0 < s[i + 1].x
    requires InStep(s, i, x0, width, acc)
    ensures var r := Scan(s, i, x0, width, acc);
            r.waste == Deficit(s, x0, x0 + width, r.y)
    decreases |s| - i
  {
    if s[i].x < x0 + width {
      VisitKeepsStep(s, i, x0, width, acc);
      assert i + 2 < |s| ==> s[i + 1].x < s[i + 2].x;
      ScanCountsWaste(s, i + 1, x0, width, Visit(s[i], s[i + 1].x, x0, width, acc));
    }
  }

  // The probe reports the resting height of the span.
  lemma MeasureIsMax(s: seq<Seg>, x: int, width: int)
    requires Increasing(s) && |s| > 0 && s[0].x <= x && width > 0 && x + width <= s[|s| - 1].x
    requires forall i :: 0 <= i < |s| ==> 0 <= s[i].y
    ensures Measure(s, x, width).y == MaxHeight(s, x, x + width)
  {
    ScanFindsMax(s, SegmentOf(s, x), x, width, Acc(0, 0, 0));
  }

  // The probe reports the exact wasted area when it starts at a corner, or inside a
  // segment that is not on the floor.
  lemma MeasureIsExact(s: seq<Seg>, x: int, width: int)
    requires Increasing(s) && |s| > 0 && s[0].x <= x && width > 0 && x + width <= s[|s| - 1].x
    requires var first := s[SegmentOf(s, x)]; first.x == x || first.y > 0
    ensures var p := Measure(s, x, width); p.waste == Deficit(s, x, x + width, p.y)
  {
    ScanCountsWaste(s, SegmentOf(s, x), x, width, Acc(0, 0, 0));
  }

  // Inside a floor segment the loop counts the whole segment as visited, the part to the
  // left of x included; whatever the segment, a skyline exists on which the report is wrong. It is
  // not one that packing builds: there the floor is the last segment.
  ghost predicate ReportsExactly(first: Seg, x: int) {
    forall s: seq<Seg>, width: int, end: int ::
      && Valid(s, end) && width > 0 && 0 <= x && x + width <= end
      && s[SegmentOf(s, x)] == first
      ==> (var p := Measure(s, x, width); p.waste == Deficit(s, x, x + width, p.y))
  }

  lemma WasteExactIff(first: Seg, x: int)
    requires 0 <= first.x <= x && 0 <= first.y
    ensures ReportsExactly(first, x) <==> first.x == x || first.y > 0
  {
    if first.x == x || first.y > 0 {
      forall s: seq<Seg>, width: int, end: int |
        && Valid(s, end) && width > 0 && 0 <= x && x + width <= end
        && s[SegmentOf(s, x)] == first
        ensures (var p := Measure(s, x, width); p.waste == Deficit(s, x, x + width, p.y))
      {
        MeasureIsExact(s, x, width);
      }
    } else {
      var s := FloorMiscounts(first, x);
      assert Valid(s, x + 2) && s[SegmentOf(s, x)] == first;
    }
  }

  // One floor column and one column of height 1: the true waste is 1, but the loop has visited
  // min(2, x + 1 - first.x) = 2 columns when it reaches the corner.
  lemma FloorMiscounts(first: Seg, x: int) returns (s: seq<Seg>)
    requires 0 <= first.x < x && first.y == 0
    ensures Valid(s, x + 2) && s[SegmentOf(s, x)] == first
    ensures Measure(s, x, 2) == Probe(1, 2) && Deficit(s, x, x + 2, 1) == 1
  {
    var lead: seq<Seg> := if first.x == 0 then [] else [Seg(0, 0)];
    s := lead + [first, Seg(x + 1, 1), Seg(x + 2, 0)];
    var k := |lead|;
    HeightAt(s, k, x);
    HeightAt(s, k + 1, x + 1);
    hide Height, SegmentOf;
    assert Deficit(s, x, x + 1, 1) == Deficit(s, x, x, 1) + 1;
    assert Deficit(s, x, x + 2, 1) == Deficit(s, x, x + 1, 1) + 0;
    hide Deficit;
    assert Scan(s, k, x, 2, Acc(0, 0, 0)) == Scan(s, k + 1, x, 2, Acc(0, 0, 2));
    assert Scan(s, k + 1, x, 2, Acc(0, 0, 2)) == Scan(s, k + 2, x, 2, Acc(1, 2, 3));
  }
}
