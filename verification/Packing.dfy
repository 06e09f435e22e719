// Whole packing runs: the packer as a state machine over rectangles, the invariant every
// step keeps, and what that says about any run.
module Packing {
  import opened Common
  import opened Skyline
  import opened Placement

  // STB_RECT_PACK's sentinel node sits at the right edge with this height (16-bit coordinates).
  const SENTINEL_Y := 65535

  datatype Box = Box(x: int, y: int, w: int, h: int)

  predicate Disjoint(b: Box, b': Box) {
    b.x + b.w <= b'.x || b'.x + b'.w <= b.x || b.y + b.h <= b'.y || b'.y + b'.h <= b.y
  }

  predicate Inside(c: Config, b: Box) {
    0 <= b.x && 0 <= b.y && 1 <= b.w && 1 <= b.h && b.x + b.w <= c.width && b.y + b.h <= c.height
  }

  datatype State = State(sky: seq<Seg>, free: int, placed: set<Box>)

  ghost predicate Covered(s: seq<Seg>, b: Box)
    requires |s| > 0 && s[0].x <= b.x
  {
    forall col :: b.x <= col < b.x + b.w ==> b.y + b.h <= Height(s, col)
  }

  lemma RestIsNonNegative(s: seq<Seg>, width: int, x: int, span: int)
    requires Valid(s, width) && 0 <= x && 1 <= span && x + span <= width
    ensures 0 <= MaxHeight(s, x, x + span)
  {
    MaxHeightBounds(s, x, x + span);
    assert 0 <= Height(s, x);
  }

  // The placed rectangles lie inside the target, under the skyline, and apart.
  ghost predicate Settled(c: Config, s: seq<Seg>, placed: set<Box>)
    requires |s| > 0 && s[0].x == 0
  {
    && (forall b :: b in placed ==> Inside(c, b) && Covered(s, b))
    && (forall b, b' :: b in placed && b' in placed && b != b' ==> Disjoint(b, b'))
  }

  // What every step keeps: a well-formed skyline no higher than the target, on the floor at most
  // at its right end, the placed rectangles settled under it, and every node in one of two lists.
  ghost predicate Inv(c: Config, st: State) {
    && Configured(c)
    && Valid(st.sky, c.width)
    && (forall i :: 0 <= i < |st.sky| - 1 ==> st.sky[i].y <= c.height)
    && FloorLast(st.sky)
    && 0 <= st.free && |st.sky| + st.free == c.numNodes + 2
    && Settled(c, st.sky, st.placed)
  }

  function Init(c: Config): State {
    State([Seg(0, 0), Seg(c.width, SENTINEL_Y)], c.numNodes, {})
  }

  // stbrp__skyline_pack_rectangle on a nonempty rectangle: where it goes, if anywhere.
  ghost function Place(c: Config, st: State, w: int, h: int): Option<int>
    requires Inv(c, st) && 1 <= w
  {
    if st.free == 0 then None else Choose(c, st.sky, RoundUp(w, c.align), h)
  }

  ghost function PlacedAt(c: Config, st: State, span: int, w: int, h: int, x: int): State
    requires Inv(c, st) && 1 <= w <= span && 0 <= x && x + span <= c.width
  {
    var y := MaxHeight(st.sky, x, x + span);
    var sky' := Insert(st.sky, c.width, x, w, y + h);
    State(sky', c.numNodes + 2 - |sky'|, st.placed + {Box(x, y, w, h)})
  }

  // One rectangle of stbrp_pack_rects; an empty one needs no space.
  ghost function Pack(c: Config, st: State, w: int, h: int): State
    requires Inv(c, st) && 0 <= w && 0 <= h
  {
    if w == 0 || h == 0 then st
    else match Place(c, st, w, h)
      case None => st
      case Some(x) => ChosenInRange(c, st, w, h); PlacedAt(c, st, RoundUp(w, c.align), w, h, x)
  }

  lemma ChosenInRange(c: Config, st: State, w: int, h: int)
    requires Inv(c, st) && 1 <= w
    ensures Place(c, st, w, h).Some? ==>
              var x := Place(c, st, w, h).value;
              && 0 <= x && x + RoundUp(w, c.align) <= c.width
              && 0 <= MaxHeight(st.sky, x, x + RoundUp(w, c.align)) <= c.height - h
  {
    hide MaxHeight, RoundUp;
    if Place(c, st, w, h).Some? {
      var x := Place(c, st, w, h).value;
      MaxHeightBounds(st.sky, x, x + RoundUp(w, c.align));
    }
  }

  lemma InitKeepsInv(c: Config)
    requires Configured(c)
    ensures Inv(c, Init(c))
  {
  }

  // Raising a stretch above its highest column never lowers a column.
  lemma InsertNeverLowers(s: seq<Seg>, width: int, x: int, span: int, w: int, top: int, col: int)
    requires Valid(s, width) && 0 <= x && 1 <= w <= span && x + span <= width
    requires MaxHeight(s, x, x + span) <= top
    requires 0 <= col < width
    ensures 0 <= top && Valid(Insert(s, width, x, w, top), width)
    ensures Height(s, col) <= Height(Insert(s, width, x, w, top), col)
  {
    hide MaxHeight, SegmentOf, Insert;
    ColumnBelow(s, x, x + span, x);
    assert 0 <= Height(s, x);
    if x <= col < x + span {
      ColumnBelow(s, x, x + span, col);
    }
    InsertRaises(s, width, x, w, top, col);
    var a := FirstFrom(s, x);
    if x + w <= col < RaisedEnd(s, width, x, w) {
      // col lies in the segment that already carried x
      assert a > 0;
      HeightAt(s, a - 1, col);
      HeightAt(s, a - 1, x);
    }
  }

  lemma StillCovered(s: seq<Seg>, width: int, x: int, span: int, w: int, top: int, b: Box)
    requires Valid(s, width) && 0 <= x && 1 <= w <= span && x + span <= width
    requires 0 <= top && MaxHeight(s, x, x + span) <= top
    requires 0 <= b.x && b.x + b.w <= width && Covered(s, b)
    ensures Valid(Insert(s, width, x, w, top), width) && Covered(Insert(s, width, x, w, top), b)
  {
    hide MaxHeight, SegmentOf, Insert;
    InsertIsValid(s, width, x, w, top);
    var s' := Insert(s, width, x, w, top);
    forall col | b.x <= col < b.x + b.w ensures b.y + b.h <= Height(s', col) {
      InsertNeverLowers(s, width, x, span, w, top, col);
    }
  }

  lemma NowCovered(s: seq<Seg>, width: int, x: int, w: int, top: int, b: Box)
    requires Valid(s, width) && 0 <= x && 1 <= w && x + w <= width && 0 <= top
    requires b.x == x && b.w == w && b.y + b.h == top
    ensures Valid(Insert(s, width, x, w, top), width) && Covered(Insert(s, width, x, w, top), b)
  {
    hide SegmentOf, Insert;
    InsertIsValid(s, width, x, w, top);
    var s' := Insert(s, width, x, w, top);
    forall col | b.x <= col < b.x + b.w ensures b.y + b.h <= Height(s', col) {
      InsertRaises(s, width, x, w, top, col);
    }
  }

  // What rests on a span is clear of everything the skyline covers.
  lemma RestsClear(s: seq<Seg>, x: int, span: int, w: int, h: int, b: Box)
    requires |s| > 0 && s[0].x <= x && 1 <= w <= span && s[0].x <= b.x && 1 <= b.w && Covered(s, b)
    ensures Disjoint(Box(x, MaxHeight(s, x, x + span), w, h), b)
  {
    MaxHeightBounds(s, x, x + span);
    hide MaxHeight, Height;
    if x < b.x + b.w && b.x < x + w {
      var col := Max(x, b.x);
      assert b.y + b.h <= Height(s, col) <= MaxHeight(s, x, x + span);
    }
  }

  // One node is taken from the free list; the covered ones go back to it.
  lemma InsertKeepsLow(s: seq<Seg>, width: int, x: int, w: int, top: int, height: int)
    requires Valid(s, width) && 0 <= x && 1 <= w && x + w <= width && 0 <= top <= height
    requires forall i :: 0 <= i < |s| - 1 ==> s[i].y <= height
    ensures var s' := Insert(s, width, x, w, top);
            Valid(s', width) && |s'| <= |s| + 1 && forall i :: 0 <= i < |s'| - 1 ==> s'[i].y <= height
  {
    InsertIsValid(s, width, x, w, top);
    hide SegmentOf, Valid;
  }

  lemma InsertKeepsSettled(c: Config, s: seq<Seg>, placed: set<Box>, span: int, w: int, h: int, x: int, y: int)
    requires Valid(s, c.width) && Settled(c, s, placed)
    requires 1 <= w <= span && 1 <= h && 0 <= x && x + span <= c.width
    requires y == MaxHeight(s, x, x + span) && 0 <= y <= c.height - h
    ensures Valid(Insert(s, c.width, x, w, y + h), c.width)
    ensures Settled(c, Insert(s, c.width, x, w, y + h), placed + {Box(x, y, w, h)})
  {
    hide MaxHeight, SegmentOf, Insert, Covered, Disjoint;
    var box := Box(x, y, w, h);
    NowCovered(s, c.width, x, w, y + h, box);
    var s' := Insert(s, c.width, x, w, y + h);
    forall b | b in placed ensures Covered(s', b) && Disjoint(box, b) && Disjoint(b, box) {
      StillCovered(s, c.width, x, span, w, y + h, b);
      RestsClear(s, x, span, w, h, b);
      DisjointSymmetric(box, b);
    }
  }

  lemma PlacedAtKeepsInv(c: Config, st: State, span: int, w: int, h: int, x: int)
    requires Inv(c, st) && 1 <= w <= span && 1 <= h && st.free > 0
    requires 0 <= x && x + span <= c.width
    requires MaxHeight(st.sky, x, x + span) + h <= c.height
    requires st.sky[|st.sky| - 2].y == 0 ==> x <= st.sky[|st.sky| - 2].x
    ensures Inv(c, PlacedAt(c, st, span, w, h, x))
  {
    hide MaxHeight, Insert, Settled, Increasing, FloorLast;
    RestIsNonNegative(st.sky, c.width, x, span);
    var y := MaxHeight(st.sky, x, x + span);
    InsertKeepsLow(st.sky, c.width, x, w, y + h, c.height);
    InsertKeepsSettled(c, st.sky, st.placed, span, w, h, x, y);
    InsertKeepsFloorLast(st.sky, c.width, x, w, y + h);
  }

  lemma DisjointSymmetric(b: Box, b': Box)
    ensures Disjoint(b, b') <==> Disjoint(b', b)
  {
  }

  lemma PackKeepsInv(c: Config, st: State, w: int, h: int)
    requires Inv(c, st) && 0 <= w && 0 <= h
    ensures Inv(c, Pack(c, st, w, h))
  {
    hide RoundUp, MaxHeight, PlacedAt, Choose, Settled, FloorLast;
    if w != 0 && h != 0 && Place(c, st, w, h).Some? {
      var span, x := RoundUp(w, c.align), Place(c, st, w, h).value;
      ChosenInRange(c, st, w, h);
      NeverInsideTheFloor(c, st.sky, span, h, x);
      PlacedAtKeepsInv(c, st, span, w, h, x);
    }
  }

  // --- Runs ------------------------------------------------------------------------

  datatype Size = Size(w: nat, h: nat)

  // A run over any sequence of rectangles, in the order they are packed.
  ghost function RunFrom(c: Config, st: State, rects: seq<Size>): (st': State)
    requires Inv(c, st)
    ensures Inv(c, st')
  {
    if rects == [] then st
    else
      var before := RunFrom(c, st, rects[..|rects| - 1]);
      var last := rects[|rects| - 1];
      PackKeepsInv(c, before, last.w, last.h);
      Pack(c, before, last.w, last.h)
  }

  ghost function Run(c: Config, rects: seq<Size>): (st: State)
    requires Configured(c)
    ensures Inv(c, st)
  {
    InitKeepsInv(c);
    RunFrom(c, Init(c), rects)
  }

  // The box the k-th rectangle of a run is given, if it needs and gets one.
  ghost function BoxAt(c: Config, st: State, rects: seq<Size>, k: nat): Option<Box>
    requires Inv(c, st) && k < |rects|
  {
    var before, r := RunFrom(c, st, rects[..k]), rects[k];
    if r.w == 0 || r.h == 0 then None
    else match Place(c, before, r.w, r.h)
      case None => None
      case Some(x) =>
        ChosenInRange(c, before, r.w, r.h);
        Some(Box(x, MaxHeight(before.sky, x, x + RoundUp(r.w, c.align)), r.w, r.h))
  }

  lemma StepPlaces(c: Config, st: State, rects: seq<Size>, k: nat)
    requires Inv(c, st) && k < |rects|
    ensures RunFrom(c, st, rects[..k + 1]).placed
         == RunFrom(c, st, rects[..k]).placed
            + (if BoxAt(c, st, rects, k).Some? then {BoxAt(c, st, rects, k).value} else {})
  {
    hide Inv, Place, MaxHeight, RoundUp, Insert;
    assert rects[..k + 1][..k] == rects[..k];
  }

  // A box, once placed, stays placed, and nothing that is there when another comes is touched by it.
  lemma {:induction false} BoxesStay(c: Config, st: State, rects: seq<Size>, k: nat, l: nat)
    requires Inv(c, st) && k <= l <= |rects|
    ensures RunFrom(c, st, rects[..k]).placed <= RunFrom(c, st, rects[..l]).placed
    decreases l - k
  {
    if k < l {
      StepPlaces(c, st, rects, k);
      BoxesStay(c, st, rects, k + 1, l);
    }
  }

  lemma NewBoxIsClear(c: Config, st: State, span: int, w: int, h: int, x: int, b: Box)
    requires Inv(c, st) && b in st.placed && 1 <= w <= span && 0 <= x
    ensures Disjoint(Box(x, MaxHeight(st.sky, x, x + span), w, h), b)
  {
    hide MaxHeight, Covered, Disjoint;
    assert Inside(c, b);
    RestsClear(st.sky, x, span, w, h, b);
  }

  lemma BoxIsClear(c: Config, st: State, rects: seq<Size>, k: nat, b: Box)
    requires Inv(c, st) && k < |rects| && BoxAt(c, st, rects, k).Some?
    requires b in RunFrom(c, st, rects[..k]).placed
    ensures Disjoint(BoxAt(c, st, rects, k).value, b)
  {
    hide Inv, MaxHeight, Disjoint, Place, RunFrom, RoundUp;
    var before, r := RunFrom(c, st, rects[..k]), rects[k];
    ChosenInRange(c, before, r.w, r.h);
    NewBoxIsClear(c, before, RoundUp(r.w, c.align), r.w, r.h, Place(c, before, r.w, r.h).value, b);
  }

  // Any two rectangles placed in one run are apart, and both are clear of what was there before.
  lemma RunPlacesApart(c: Config, st: State, rects: seq<Size>, k: nat, l: nat)
    requires Inv(c, st) && k < l < |rects|
    ensures BoxAt(c, st, rects, k).Some? && BoxAt(c, st, rects, l).Some? ==>
              Disjoint(BoxAt(c, st, rects, l).value, BoxAt(c, st, rects, k).value)
  {
    hide Inv, Disjoint, RunFrom, BoxAt;
    if BoxAt(c, st, rects, k).Some? && BoxAt(c, st, rects, l).Some? {
      StepPlaces(c, st, rects, k);
      BoxesStay(c, st, rects, k + 1, l);
      BoxIsClear(c, st, rects, l, BoxAt(c, st, rects, k).value);
    }
  }

  lemma RunKeepsClear(c: Config, st: State, rects: seq<Size>, k: nat, b: Box)
    requires Inv(c, st) && k < |rects| && b in st.placed
    ensures BoxAt(c, st, rects, k).Some? ==> Disjoint(BoxAt(c, st, rects, k).value, b)
  {
    hide Inv, Disjoint, BoxAt;
    if BoxAt(c, st, rects, k).Some? {
      BoxesStay(c, st, rects, 0, k);
      BoxIsClear(c, st, rects, k, b);
    }
  }

  // On every skyline a run builds, from whatever state and under whatever configuration, the probe
  // is exact at every position: the resting height, and the area between it and the skyline.
  lemma ReachableWasteIsExact(c: Config, st: State, rects: seq<Size>, x: int, span: int)
    requires Inv(c, st) && 0 <= x && 1 <= span && x + span <= c.width
    ensures var s := RunFrom(c, st, rects).sky;
            var y := MaxHeight(s, x, x + span);
            Measure(s, x, span) == Probe(y, Deficit(s, x, x + span, y))
  {
    hide MaxHeight, Deficit, Measure, Settled;
    FloorLastIsExact(RunFrom(c, st, rects).sky, c.width, x, span);
  }

  // Corners are distinct columns, so there are never more than width + 1 of them.
  lemma {:induction false} CornersAreColumns(s: seq<Seg>, i: int)
    requires Increasing(s) && 0 <= i < |s|
    ensures s[0].x + i <= s[i].x
  {
    if i > 0 {
      CornersAreColumns(s, i - 1);
      assert s[i - 1].x < s[i].x;
    }
  }

  // With at least as many nodes as columns the free list is never empty, so a rectangle is
  // packed exactly when it fits at some integer position.
  lemma EnoughNodesNeverRunOut(c: Config, st: State, w: int, h: int)
    requires Inv(c, st) && 1 <= w && c.width <= c.numNodes
    ensures 1 <= st.free
    ensures Place(c, st, w, h).Some? <==> exists x :: Fits(c, st.sky, RoundUp(w, c.align), h, x)
  {
    CornersAreColumns(st.sky, |st.sky| - 1);
    ChooseIffFits(c, st.sky, RoundUp(w, c.align), h);
  }

  // --- The quantised widths --------------------------------------------------------

  // The promise of stbrp_init_target's documentation: without allow_out_of_mem, no rectangle
  // that fits is refused for want of a node.
  ghost predicate NeverRefusesWhatFits(c: Config)
    requires Configured(c)
  {
    forall rects: seq<Size>, w: int, h: int :: 1 <= w && 1 <= h ==>
      (var st := Run(c, rects);
       (exists x :: Fits(c, st.sky, RoundUp(w, c.align), h, x)) ==> Place(c, st, w, h).Some?)
  }

  // The skyline after k one-by-one rectangles.
  function Steps(k: nat, width: int): seq<Seg> {
    seq(k + 2, i => if i < k then Seg(i, 1) else if i == k then Seg(k, 0) else Seg(width, SENTINEL_Y))
  }

  function Units(k: nat): seq<Size> {
    seq(k, i => Size(1, 1))
  }

  lemma QuotientBounds(x: int, n: int)
    requires 1 <= n
    ensures n * (x / n) <= x < n * (x / n) + n
  {
  }

  lemma ScaleMonotone(n: int, a: int, b: int)
    requires 0 <= n
    ensures a <= b ==> n * a <= n * b
  {
  }

  lemma DefaultAlignLeavesRoom(width: int, n: int)
    requires 1 <= n < width
    ensures 2 <= DefaultAlign(width, n) && n - 1 + DefaultAlign(width, n) <= width
  {
    var a, d := DefaultAlign(width, n), width - n;
    QuotientBounds(width + n - 1, n);
    ScaleMonotone(n, a, 1);
    ScaleMonotone(n, d + 2, a);
    ScaleMonotone(d, 0, n - 1);
    assert n * (d + 2) == d * (n - 1) + d + 2 * n;
  }

  // A rectangle that fits on the floor goes to its left end and adds a corner.
  lemma PackOnFloor(c: Config, st: State, w: int, h: int, span: int)
    requires Inv(c, st) && 1 <= w && 1 <= h <= c.height && 1 <= st.free && span == RoundUp(w, c.align)
    requires var f := |st.sky| - 2; st.sky[f].y == 0 && st.sky[f].x + span <= c.width
    ensures Pack(c, st, w, h).sky == WithStair(st.sky, w, h, c.width)
    ensures Pack(c, st, w, h).free == c.numNodes + 2 - |WithStair(st.sky, w, h, c.width)|
  {
    hide RoundUp, MaxHeight, Insert, Choose, Settled, FloorLast;
    FloorCornerIsChosen(c, st.sky, span, h);
    InsertOnFloor(st.sky, c.width, w, h);
  }

  function WithStair(s: seq<Seg>, w: int, h: int, width: int): seq<Seg>
    requires |s| >= 2
  {
    var (x, y) := (s[|s| - 2].x, s[|s| - 2].y);
    s[..|s| - 2] + [Seg(x, h)] + (if x + w == width then [] else [Seg(x + w, y)]) + [s[|s| - 1]]
  }

  lemma InsertOnFloor(s: seq<Seg>, width: int, w: int, h: int)
    requires Valid(s, width) && 1 <= w && s[|s| - 2].x + w <= width
    ensures 0 <= s[|s| - 2].x && Insert(s, width, s[|s| - 2].x, w, h) == WithStair(s, w, h, width)
  {
    var f := |s| - 2;
    var x := s[f].x;
    assert f > 0 ==> s[f - 1].x < x;
    assert FirstFrom(s, x) == f;
    HeightAt(s, if x + w == width then f + 1 else f, x + w);
  }

  lemma StepsGrow(k: nat, width: int)
    requires k + 1 < width
    ensures WithStair(Steps(k, width), 1, 1, width) == Steps(k + 1, width)
  {
  }

  // The k-th unit rectangle goes beside the ones before it, at the bottom.
  lemma PackUnit(c: Config, st: State, k: nat)
    requires Inv(c, st) && 1 <= c.height
    requires 2 <= c.align && k + c.align <= c.width && st.sky == Steps(k, c.width) && k < c.numNodes
    ensures Pack(c, st, 1, 1).sky == Steps(k + 1, c.width)
  {
    UnitSpan(c.align);
    assert |st.sky| == k + 2 && st.sky[k] == Seg(k, 0);
    StepsGrow(k, c.width);
    hide Steps, RoundUp, Pack, Settled, FloorLast;
    PackOnFloor(c, st, 1, 1, c.align);
  }

  lemma {:induction false} UnitRun(c: Config, k: nat)
    requires Configured(c) && 1 <= c.height
    requires c.align == DefaultAlign(c.width, c.numNodes) && k <= c.numNodes < c.width
    ensures Run(c, Units(k)).sky == Steps(k, c.width)
  {
    hide RoundUp, DefaultAlign, Choose, Insert, MaxHeight, Steps;
    if k == 0 {
      StepsFromInit(c);
    } else {
      UnitRun(c, k - 1);
      DefaultAlignLeavesRoom(c.width, c.numNodes);
      assert Units(k)[..k - 1] == Units(k - 1);
      PackUnit(c, Run(c, Units(k - 1)), k - 1);
    }
  }

  lemma StepsFromInit(c: Config)
    ensures Init(c).sky == Steps(0, c.width)
  {
  }

  lemma UnitSpan(align: int)
    requires 2 <= align
    ensures RoundUp(1, align) == align
  {
  }

  lemma AlignIsLeastSpan(w: int, align: int)
    requires 1 <= w && 1 <= align
    ensures align <= RoundUp(w, align)
  {
  }

  // After numNodes unit rectangles the free list is empty, yet another one would fit: on top of
  // them, or, in a target one high, beside them.
  lemma UnitsExhaust(c: Config)
    requires Configured(c) && c.align == DefaultAlign(c.width, c.numNodes) && c.numNodes < c.width
    requires 2 <= c.height || (c.height == 1 && c.numNodes + c.align <= c.width)
    ensures !NeverRefusesWhatFits(c)
  {
    hide RoundUp, DefaultAlign, Choose, MaxHeight, Run, Settled, FloorLast;
    var rects, k := Units(c.numNodes), c.numNodes;
    var st := Run(c, rects);
    UnitRun(c, k);
    DefaultAlignLeavesRoom(c.width, k);
    UnitSpan(c.align);
    assert |st.sky| == k + 2 && st.sky[k] == Seg(k, 0);
    var x := if 2 <= c.height then 0 else k;
    if 2 <= c.height {
      StepsAreLow(k, c.width, c.align);
    } else {
      FloorProbe(st.sky, c.width, k, c.align);
    }
    hide Steps;
    assert Fits(c, st.sky, RoundUp(1, c.align), 1, x);
    assert Place(c, st, 1, 1).None?;
  }

  lemma StepsAreLow(k: nat, width: int, span: int)
    requires 1 <= k < width && 1 <= span <= width
    ensures Valid(Steps(k, width), width)
    ensures MaxHeight(Steps(k, width), 0, span) <= 1
  {
    var s := Steps(k, width);
    hide MaxHeight;
    var c := HighestColumn(s, 0, span);
    HeightAt(s, if c < k then c else k, c);
  }

  // In a target one high only the floor is left to fit on, and every corner takes up a column.
  lemma LowTargetHasNodes(c: Config, st: State, w: int, h: int, x: int)
    requires Inv(c, st) && 1 <= w && 1 <= h && c.height == 1 && c.width < c.numNodes + c.align
    requires Fits(c, st.sky, RoundUp(w, c.align), h, x)
    ensures 1 <= st.free
  {
    hide MaxHeight, RoundUp, Settled;
    AlignIsLeastSpan(w, c.align);
    CornersAreColumns(st.sky, |st.sky| - 2);
    if x < st.sky[|st.sky| - 2].x {
      OffTheFloor(st.sky, c.width, x, RoundUp(w, c.align));
    }
  }

  // The quantised widths keep the promise when they are not needed, and in targets so low that
  // nothing fits, or nothing beside numNodes columns. Otherwise, under both heuristics, the raw
  // width that is linked in puts corners between the multiples of the alignment.
  lemma QuantisingNeverRefusesIff(c: Config)
    requires Configured(c) && c.align == DefaultAlign(c.width, c.numNodes)
    ensures NeverRefusesWhatFits(c) <==>
              c.width <= c.numNodes || c.height == 0 || (c.height == 1 && c.width < c.numNodes + c.align)
  {
    hide DefaultAlign, RoundUp, MaxHeight, Choose, Run, Settled, FloorLast;
    if c.width <= c.numNodes || c.height == 0 || (c.height == 1 && c.width < c.numNodes + c.align) {
      forall rects: seq<Size>, w: int, h: int | 1 <= w && 1 <= h
        ensures var st := Run(c, rects);
                (exists x :: Fits(c, st.sky, RoundUp(w, c.align), h, x)) ==> Place(c, st, w, h).Some?
      {
        WhatFitsIsPlaced(c, Run(c, rects), w, h);
      }
    } else {
      UnitsExhaust(c);
    }
  }

  lemma WhatFitsIsPlaced(c: Config, st: State, w: int, h: int)
    requires Inv(c, st) && 1 <= w && 1 <= h
    requires c.width <= c.numNodes || c.height == 0 || (c.height == 1 && c.width < c.numNodes + c.align)
    ensures (exists x :: Fits(c, st.sky, RoundUp(w, c.align), h, x)) ==> Place(c, st, w, h).Some?
  {
    hide RoundUp, MaxHeight, Choose, Settled;
    if x :| Fits(c, st.sky, RoundUp(w, c.align), h, x) {
      if c.width <= c.numNodes {
        EnoughNodesNeverRunOut(c, st, w, h);
      } else if c.height == 0 {
        RestIsNonNegative(st.sky, c.width, x, RoundUp(w, c.align));
        assert false;
      } else {
        LowTargetHasNodes(c, st, w, h, x);
        ChooseIffFits(c, st.sky, RoundUp(w, c.align), h);
      }
    }
  }

  // --- Best-fit beyond the rectangle -------------------------------------------------

  lemma RunMore(c: Config, rects: seq<Size>, r: Size)
    requires Configured(c)
    ensures Run(c, rects + [r]) == Pack(c, Run(c, rects), r.w, r.h)
  {
    assert (rects + [r])[..|rects|] == rects;
  }

  lemma QuantisedSpans()
    ensures RoundUp(3, 4) == 4 && RoundUp(2, 4) == 4 && RoundUp(8, 4) == 8 && RoundUp(1, 4) == 4
  {
    hide RoundUp;
  }

  // The skyline on which best-fit raises a column beside the rectangle is reached from an empty
  // target with the default alignment, with a node to spare.
  lemma StairsAreReached()
    ensures QUANTISED.align == DefaultAlign(QUANTISED.width, QUANTISED.numNodes)
    ensures var st := Run(QUANTISED, [Size(3, 1), Size(2, 2), Size(8, 9)]); st.sky == STAIRS && 1 <= st.free
  {
    var c := QUANTISED;
    QuantisedSpans();
    hide Inv, Pack, RoundUp, RunFrom;
    var none: seq<Size> := [];
    assert Run(c, none) == Init(c) by {
      NothingRuns(c);
    }
    var r1, r2, r3 := Size(3, 1), Size(2, 2), Size(8, 9);
    RunMore(c, none, r1);
    PackOnFloor(c, Run(c, none), 3, 1, 4);
    assert none + [r1] == [r1];
    assert Run(c, [r1]).sky == [Seg(0, 1), Seg(3, 0), Seg(13, SENTINEL_Y)];
    RunMore(c, [r1], r2);
    PackOnFloor(c, Run(c, [r1]), 2, 2, 4);
    assert [r1] + [r2] == [r1, r2];
    assert Run(c, [r1, r2]).sky == [Seg(0, 1), Seg(3, 2), Seg(5, 0), Seg(13, SENTINEL_Y)];
    RunMore(c, [r1, r2], r3);
    PackOnFloor(c, Run(c, [r1, r2]), 8, 9, 8);
    assert [r1, r2] + [r3] == [r1, r2, r3];
  }

  lemma NothingRuns(c: Config)
    requires Configured(c)
    ensures Run(c, []) == Init(c)
  {
  }

  // From there a rectangle one column wide raises the column beside it.
  lemma NextIsRaisedBeyond(st: State)
    requires Inv(QUANTISED, st) && st.sky == STAIRS && 1 <= st.free
    ensures var st' := Pack(QUANTISED, st, 1, 1);
            && st'.placed == st.placed + {Box(1, 2, 1, 1)}
            && Height(st.sky, 2) == 1 && Height(st'.sky, 2) == 3
  {
    QuantisedSpans();
    hide RoundUp, MaxHeight, Insert, Height, Choose, Pack, Settled, FloorLast;
    StairsBest(QUANTISED, STAIRS);
    BestFitRaisesBeyondTheRectangle(QUANTISED, STAIRS);
    PackWherePlaced(QUANTISED, st, 1, 1, 4, 1);
  }

  lemma PackWherePlaced(c: Config, st: State, w: int, h: int, span: int, x: int)
    requires Inv(c, st) && 1 <= w && 1 <= h && 1 <= st.free && span == RoundUp(w, c.align)
    requires Choose(c, st.sky, span, h) == Some(x)
    ensures 0 <= x && x + span <= c.width
    ensures var y := MaxHeight(st.sky, x, x + span);
            && Pack(c, st, w, h).sky == Insert(st.sky, c.width, x, w, y + h)
            && Pack(c, st, w, h).placed == st.placed + {Box(x, y, w, h)}
  {
    hide RoundUp, MaxHeight, Insert, Settled, FloorLast;
  }
}
