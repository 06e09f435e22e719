// The packer itself: nodes relinked in place between an active and a free list, measured
// and chosen by pointer walks, and proved against the skyline model.
module Packer {
  import opened Common
  import opened Skyline
  import opened Placement
  import opened Packing

  // A conversion to stbrp_coord, which has 16 bits.
  function Coord(v: int): int {
    v % 0x10000
  }

  // Larger than any height and any reported waste the search compares it with.
  const UNREACHED := 0x4000_0000

  class Node {
    var x: int
    var y: int
    var next: Node?

    constructor (x: int, y: int, next: Node?)
      ensures this.x == x && this.y == y && this.next == next
    {
      this.x, this.y, this.next := x, y, next;
    }
  }

  // The address of a next pointer: the list head's, or the one inside a node.
  datatype Link = NullLink | HeadLink | NextOf(prev: Node)

  datatype FindResult = FindResult(x: int, y: int, prevLink: Link)

  // The locals of the search: the best position so far, its level, its waste and its link.
  datatype Leader = Leader(link: Link, x: int, y: int, waste: int)

  ghost predicate Chained(list: seq<Node>, head: Node?)
    reads list
  {
    && head == (if list == [] then null else list[0])
    && (forall i :: 0 <= i < |list| - 1 ==> list[i].next == list[i + 1])
    && (list != [] ==> list[|list| - 1].next == null)
  }

  // The skyline a chain of nodes spells out.
  ghost function Corners(list: seq<Node>): (s: seq<Seg>)
    reads list
    ensures |s| == |list|
    ensures forall i :: 0 <= i < |list| ==> s[i] == Seg(list[i].x, list[i].y)
  {
    seq(|list|, i requires 0 <= i < |list| reads list => Seg(list[i].x, list[i].y))
  }

  // The part of a chain from the a-th node on.
  ghost predicate ChainedFrom(list: seq<Node>, a: int)
    requires 0 <= a <= |list|
    reads list
  {
    && (forall i :: a <= i < |list| - 1 ==> list[i].next == list[i + 1])
    && (a < |list| ==> list[|list| - 1].next == null)
  }

  // A chain that runs into the node last instead of ending.
  ghost predicate LeadsTo(list: seq<Node>, head: Node?, last: Node)
    reads list
  {
    && head == (if list == [] then last else list[0])
    && (forall i :: 0 <= i < |list| - 1 ==> list[i].next == list[i + 1])
    && (list != [] ==> list[|list| - 1].next == last)
  }

  ghost predicate Apart(list: seq<Node>, list': seq<Node>) {
    forall n :: n in list ==> n !in list'
  }

  ghost predicate Distinct(list: seq<Node>) {
    forall i, j :: 0 <= i < j < |list| ==> list[i] != list[j]
  }

  // The default alignment is the least with which the nodes span the width.
  lemma DefaultAlignIsLeast(width: int, numNodes: int)
    requires 1 <= width && 1 <= numNodes
    ensures var a := DefaultAlign(width, numNodes); 1 <= a && numNodes * (a - 1) < width <= numNodes * a
    ensures forall a :: width <= numNodes * a ==> DefaultAlign(width, numNodes) <= a
  {
    QuotientBounds(width + numNodes - 1, numNodes);
    var least := DefaultAlign(width, numNodes);
    assert numNodes * (least - 1) == numNodes * least - numNodes;
    forall a | width <= numNodes * a ensures least <= a {
      ScaleMonotone(numNodes, a, least - 1);
    }
    ScaleMonotone(numNodes, least, 0);
  }

  lemma SpanIsLow(s: seq<Seg>, width: int, height: int, x: int, span: int)
    requires Skyline.Valid(s, width) && forall i :: 0 <= i < |s| - 1 ==> s[i].y <= height
    requires 0 <= x && 1 <= span && x + span <= width
    ensures 0 <= MaxHeight(s, x, x + span) <= height
  {
    RestIsNonNegative(s, width, x, span);
    MaxHeightBounds(s, x, x + span);
    hide MaxHeight;
    var c :| x <= c < x + span && Height(s, c) == MaxHeight(s, x, x + span);
    assert SegmentOf(s, c) < |s| - 1;
  }

  // The link that points at the k-th node of a list.
  ghost predicate LinksTo(list: seq<Node>, link: Link, k: int) {
    0 <= k < |list| && link == (if k == 0 then HeadLink else NextOf(list[k - 1]))
  }

  // What the search loops know about the best position met so far.
  ghost predicate Tracks(c: Config, s: seq<Seg>, list: seq<Node>, best: Option<int>, l: Leader, span: int)
    requires Skyline.Valid(s, c.width) && 1 <= span
  {
    match best
    case None => l.link == NullLink && l.y == UNREACHED
    case Some(b) =>
      && l.x == b && 0 <= b && b + span <= c.width
      && LinksTo(list, l.link, SegmentOf(s, b))
      && l.y == Measure(s, b, span).y
      && (c.bestFit ==> l.waste == Measure(s, b, span).waste)
  }

  // The tests of the two search loops.
  predicate LeftWins(c: Config, h: int, p: Probe, l: Leader) {
    if !c.bestFit then p.y < l.y
    else p.y + h <= c.height && (p.y < l.y || (p.y == l.y && p.waste < l.waste))
  }

  predicate RightWins(c: Config, h: int, x: int, p: Probe, l: Leader) {
    && p.y + h <= c.height
    && p.y <= l.y
    && (p.y < l.y || p.waste < l.waste || (p.waste == l.waste && x < l.x))
  }

  ghost predicate LowSkyline(c: Config, s: seq<Seg>) {
    Configured(c) && Skyline.Valid(s, c.width) && forall i :: 0 <= i < |s| - 1 ==> s[i].y <= c.height
  }

  lemma ProbeIsLow(c: Config, s: seq<Seg>, x: int, span: int)
    requires LowSkyline(c, s) && 0 <= x && 1 <= span && x + span <= c.width
    ensures 0 <= Measure(s, x, span).y < UNREACHED
    ensures Measure(s, x, span).y == MaxHeight(s, x, x + span)
  {
    hide MaxHeight, Measure;
    MeasureIsMax(s, x, span);
    SpanIsLow(s, c.width, c.height, x, span);
  }

  lemma CornerStep(c: Config, s: seq<Seg>, k: int, span: int)
    requires LowSkyline(c, s) && 0 <= k < |s| && 1 <= span && s[k].x + span <= c.width
    ensures 0 <= s[k].x && k < |s| - 1 && s[k].x < s[k + 1].x && SegmentOf(s, s[k].x) == k
  {
    assert 0 < k ==> s[0].x < s[k].x;
    assert k + 1 < |s| ==> s[k].x < s[k + 1].x;
    HeightAt(s, k, s[k].x);
  }

  lemma LeftStep(c: Config, s: seq<Seg>, list: seq<Node>, span: int, h: int, k: int,
                 best: Option<int>, l: Leader, p: Probe, best': Option<int>)
    requires LowSkyline(c, s) && 0 <= k < |s| && 1 <= span && 0 <= s[k].x && s[k].x + span <= c.width
    requires p == Measure(s, s[k].x, span)
    requires Champion(c, s, span, h, k, 0, best)
    requires Tracks(c, s, list, best, l, span)
    requires best.Some? ==> best.value < s[k].x
    requires best' == if LeftWins(c, h, p, l) then Some(s[k].x) else best
    ensures Champion(c, s, span, h, k + 1, 0, best')
  {
    hide MaxHeight, Measure, Increasing, LinksTo;
    var x := s[k].x;
    ProbeIsLow(c, s, x, span);
    assert Challenged(c, s, span, h, best, x, best');
    ChallengeKeepsChampion(c, s, span, h, k, 0, best, k + 1, 0, x, best');
  }

  // A corner too far left to be a right edge.
  lemma RightSkip(c: Config, s: seq<Seg>, span: int, h: int, k: int, tk: int, best: Option<int>)
    requires LowSkyline(c, s) && 0 <= k && 0 <= tk < |s| && 1 <= span <= c.width && s[tk].x < span
    requires Champion(c, s, span, h, k, tk, best)
    ensures Champion(c, s, span, h, k, tk + 1, best)
    ensures tk + 1 < |s|
  {
    hide MaxHeight, Increasing, Better;
    assert Challenged(c, s, span, h, best, s[tk].x - span, best);
    ChallengeKeepsChampion(c, s, span, h, k, tk, best, k, tk + 1, s[tk].x - span, best);
  }

  lemma RightRoom(c: Config, s: seq<Seg>, tk: int, span: int)
    requires LowSkyline(c, s) && 0 <= tk < |s| && 1 <= span
    ensures s[tk].x <= c.width
  {
    assert tk < |s| - 1 ==> s[tk].x < s[|s| - 1].x;
  }

  lemma RightNext(c: Config, s: seq<Seg>, nk: int, x: int)
    requires LowSkyline(c, s) && 0 <= nk < |s| && s[nk].x <= x < c.width
    ensures nk < |s| - 1
  {
  }

  lemma RightNextTail(c: Config, s: seq<Seg>, tk: int)
    requires LowSkyline(c, s) && 0 <= tk < |s|
    ensures tk + 1 < |s| ==> s[tk].x < s[tk + 1].x
  {
  }

  lemma RightStep(c: Config, s: seq<Seg>, list: seq<Node>, span: int, h: int, k: int, tk: int, nk: int,
                  best: Option<int>, l: Leader, prev: Link, p: Probe, best': Option<int>)
    requires LowSkyline(c, s) && c.bestFit && 0 <= k && 0 <= tk < |s| && 1 <= span <= s[tk].x <= c.width
    requires p == Measure(s, s[tk].x - span, span)
    requires LinksTo(list, prev, nk) && 0 <= nk < |s| - 1 && s[nk].x <= s[tk].x - span < s[nk + 1].x
    requires Champion(c, s, span, h, k, tk, best)
    requires Tracks(c, s, list, best, l, span)
    requires best' == if RightWins(c, h, s[tk].x - span, p, l) then Some(s[tk].x - span) else best
    ensures Champion(c, s, span, h, k, tk + 1, best')
    ensures Tracks(c, s, list, best', if RightWins(c, h, s[tk].x - span, p, l)
                                      then Leader(prev, s[tk].x - span, p.y, p.waste) else l, span)
  {
    hide MaxHeight, Measure, Increasing, LinksTo;
    var x := s[tk].x - span;
    ProbeIsLow(c, s, x, span);
    SegmentAt(c, s, nk, x);
    assert Challenged(c, s, span, h, best, x, best');
    ChallengeKeepsChampion(c, s, span, h, k, tk, best, k, tk + 1, x, best');
  }

  lemma SegmentAt(c: Config, s: seq<Seg>, k: int, x: int)
    requires LowSkyline(c, s) && 0 <= k < |s| - 1 && s[k].x <= x < s[k + 1].x
    ensures 0 <= x && SegmentOf(s, x) == k
  {
    HeightAt(s, k, x);
  }

  // What the search promises: no link, or the preferred position with the link to its segment.
  ghost predicate Found(c: Config, s: seq<Seg>, list: seq<Node>, span: int, h: int, r: FindResult)
    requires Skyline.Valid(s, c.width) && 1 <= span
  {
    if span > c.width || h > c.height || !HasBest(c, s, span, h) then r.prevLink == NullLink
    else
      && Best(c, s, span, h, r.x)
      && LinksTo(list, r.prevLink, SegmentOf(s, r.x))
      && r.y == MaxHeight(s, r.x, r.x + span)
  }

  lemma SearchIsDone(c: Config, s: seq<Seg>, list: seq<Node>, span: int, h: int, k1: int, k2: int, best: Option<int>,
                     l: Leader, r: FindResult)
    requires LowSkyline(c, s) && 1 <= span <= c.width && h <= c.height
    requires 0 <= k1 < |s| && c.width < s[k1].x + span && (c.bestFit ==> k2 == |s|)
    requires Champion(c, s, span, h, k1, k2, best)
    requires Tracks(c, s, list, best, l, span) && r == FindResult(l.x, l.y, l.link)
    ensures Found(c, s, list, span, h, r)
  {
    ChampionIsBest(c, s, span, h, k1, k2, best);
    hide MaxHeight, Measure, Better, Increasing, Champion;
    if best.Some? {
      ProbeIsLow(c, s, best.value, span);
      BestOnly(c, s, span, h, best.value);
    }
  }

  lemma BestOnly(c: Config, s: seq<Seg>, span: int, h: int, x: int)
    requires Skyline.Valid(s, c.width) && 1 <= span && Best(c, s, span, h, x)
    ensures HasBest(c, s, span, h)
  {
  }

  lemma SegmentBeforeFirst(c: Config, s: seq<Seg>, x: int)
    requires LowSkyline(c, s) && 0 <= x < c.width
    ensures var (k, a) := (SegmentOf(s, x), FirstFrom(s, x));
            k < |s| && a < |s| && if s[k].x < x then a == k + 1 else a == k
  {
    hide SegmentOf, FirstFrom;
    var k, a := SegmentOf(s, x), FirstFrom(s, x);
    assert k < |s| - 1 && x < s[k + 1].x;
    assert 0 < k ==> s[k - 1].x < s[k].x;
  }

  // list with its a-th to j-th elements replaced by node.
  function Replaced(list: seq<Node>, a: int, node: Node, j: int): seq<Node>
    requires 0 <= a <= j <= |list|
  {
    list[..a] + [node] + list[j..]
  }

  lemma ReplacedIsDistinct(list: seq<Node>, a: int, node: Node, j: int)
    requires 0 <= a <= j < |list| && Distinct(list) && node !in list
    ensures Distinct(Replaced(list, a, node, j))
    ensures forall n :: n in Replaced(list, a, node, j) ==> n == node || n in list
  {
  }

  lemma FreedApart(list: seq<Node>, a: int, node: Node, j: int, free0: seq<Node>, free': seq<Node>)
    requires 0 <= a <= j < |list| && Distinct(list) && node !in list && node !in free0 && Apart(list, free0)
    requires forall n :: n in free' ==> n in free0 || n in list[a..j]
    ensures Apart(Replaced(list, a, node, j), free') && node !in free'
  {
    assert forall n :: n in list[a..j] ==> n in list && n !in list[..a] && n !in list[j..];
  }

  lemma ReplacedSize(list: seq<Node>, a: int, node: Node, j: int)
    requires 0 <= a <= j < |list|
    ensures |Replaced(list, a, node, j)| == a + 1 + |list| - j
  {
  }

  lemma ChainOneMore(list: seq<Node>, node: Node)
    requires Chained(list, node.next) && Distinct(list) && node !in list
    ensures Chained([node] + list, node) && Distinct([node] + list)
  {
  }

  lemma FreedOneMore(list: seq<Node>, a: int, j: int, free0: seq<Node>, free': seq<Node>)
    requires 0 <= a <= j < |list|
    requires forall n :: n in free' ==> n in free0 || n in list[a..j]
    ensures forall n :: n in [list[j]] + free' ==> n in free0 || n in list[a..j + 1]
  {
    assert list[a..j + 1] == list[a..j] + [list[j]];
  }

  lemma ReplacedAt(list: seq<Node>, a: int, node: Node, j: int, list': seq<Node>)
    requires 0 <= a <= j < |list| && list' == Replaced(list, a, node, j)
    ensures |list'| == a + 1 + |list| - j && list'[a] == node && list'[a + 1] == list[j]
    ensures forall i :: 0 <= i < a ==> list'[i] == list[i]
    ensures forall i :: a < i < |list'| ==> list'[i] == list[i - a - 1 + j]
  {
  }

  // A prefix that leads to node, node pointing at list[j], and the rest of the list are one chain.
  lemma ChainReplaced(list: seq<Node>, a: int, node: Node, j: int, head: Node?, list': seq<Node>)
    requires 0 <= a <= j < |list| && list' == Replaced(list, a, node, j)
    requires LeadsTo(list[..a], head, node) && node.next == list[j] && ChainedFrom(list, j)
    ensures Chained(list', head)
  {
    ReplacedAt(list, a, node, j, list');
    assert forall i :: 0 <= i < a ==> list[..a][i] == list[i];
  }

  lemma SuccessorAt(c: Config, s: seq<Seg>, x: int, w: int, a: int, j: int)
    requires LowSkyline(c, s) && 0 <= x && 1 <= w && x + w <= c.width
    requires a == FirstFrom(s, x) && a <= j < |s|
    requires j == |s| - 1 || x + w < s[j + 1].x
    requires forall i :: a < i <= j ==> s[i].x <= x + w
    ensures j == Successor(s, c.width, x, w)
  {
    assert a < j ==> s[a].x < s[j].x;
    if s[a].x <= x + w {
      HeightAt(s, j, x + w);
    }
  }

  lemma InsertSpelledOut(c: Config, s: seq<Seg>, x: int, w: int, top: int, a: int, j: int)
    requires LowSkyline(c, s) && 0 <= x && 1 <= w && x + w <= c.width
    requires a == FirstFrom(s, x) && j == Successor(s, c.width, x, w)
    ensures s[..a] + [Seg(x, top)] + s[j := Seg(Max(s[j].x, x + w), s[j].y)][j..] == Insert(s, c.width, x, w, top)
  {
    hide SegmentOf, FirstFrom, Successor, Increasing;
    var s' := s[j := Seg(Max(s[j].x, x + w), s[j].y)];
    assert s'[j..] == [s'[j]] + s[j + 1..];
  }

  lemma CornersReplaced(list: seq<Node>, a: int, node: Node, j: int)
    requires 0 <= a <= j < |list|
    ensures Corners(Replaced(list, a, node, j)) == Corners(list)[..a] + [Seg(node.x, node.y)] + Corners(list)[j..]
  {
    ReplacedAt(list, a, node, j, Replaced(list, a, node, j));
  }

  lemma EmptyChampion(c: Config, s: seq<Seg>, span: int, h: int)
    requires Skyline.Valid(s, c.width) && 1 <= span
    ensures Champion(c, s, span, h, 0, 0, None)
  {
  }

  // The loop of stbrp_init_target that strings the caller's nodes together.
  method ChainUp(buffer: seq<Node>)
    requires 1 <= |buffer| && Distinct(buffer)
    modifies buffer
    ensures Chained(buffer, buffer[0])
  {
    for i := 0 to |buffer| - 1
      invariant forall k :: 0 <= k < i ==> buffer[k].next == buffer[k + 1]
    {
      buffer[i].next := buffer[i + 1];
    }
    buffer[|buffer| - 1].next := null;
  }

  // What the caller of stbrp__skyline_pack_rectangle learns about the step.
  ghost predicate Reports(c: Config, st: State, w: int, h: int, r: FindResult)
    requires Inv(c, st) && 1 <= w && 1 <= h
  {
    var p := Place(c, st, w, h);
    && (r.prevLink == NullLink <==> p.None?)
    && (p.Some? ==> (ChosenInRange(c, st, w, h);
         r.x == p.value && r.y == MaxHeight(st.sky, r.x, r.x + RoundUp(w, c.align))))
  }

  lemma InvShape(c: Config, st: State)
    requires Inv(c, st)
    ensures LowSkyline(c, st.sky) && |st.sky| + st.free == c.numNodes + 2 && c.height <= COORD_MAX
  {
  }

  lemma RefusedIsUnchanged(c: Config, st: State, w: int, h: int)
    requires Inv(c, st) && 1 <= w && 1 <= h && Place(c, st, w, h).None?
    ensures Pack(c, st, w, h) == st
  {
  }

  // The conditions under which stbrp__skyline_pack_rectangle bails out.
  predicate Bails(c: Config, st: State, h: int, r: FindResult) {
    r.prevLink == NullLink || r.y + h > c.height || st.free == 0
  }

  lemma BailedIsRefused(c: Config, st: State, list: seq<Node>, w: int, h: int, r: FindResult)
    requires Inv(c, st) && 1 <= w && 1 <= h && Bails(c, st, h, r)
    requires Found(c, st.sky, list, RoundUp(w, c.align), h, r)
    ensures Place(c, st, w, h).None?
  {
    hide MaxHeight, RoundUp, Choose, Found, Settled, FloorLast;
    if r.prevLink == NullLink || r.y + h > c.height {
      NotFoundIsNone(c, st.sky, list, RoundUp(w, c.align), h, r);
    }
  }

  lemma NotFoundIsNone(c: Config, s: seq<Seg>, list: seq<Node>, span: int, h: int, r: FindResult)
    requires Skyline.Valid(s, c.width) && 1 <= span && Found(c, s, list, span, h, r)
    requires r.prevLink == NullLink || r.y + h > c.height
    ensures Choose(c, s, span, h) == None
  {
    hide MaxHeight, Better, SegmentOf;
    if HasBest(c, s, span, h) && r.prevLink != NullLink {
      BestIsUnique(c, s, span, h, r.x, Pick(c, s, span, h));
    }
  }

  lemma FoundIsChosen(c: Config, s: seq<Seg>, list: seq<Node>, span: int, h: int, r: FindResult)
    requires Skyline.Valid(s, c.width) && 1 <= span && Found(c, s, list, span, h, r)
    requires r.prevLink != NullLink && r.y + h <= c.height
    ensures Choose(c, s, span, h) == Some(r.x)
    ensures r.y == MaxHeight(s, r.x, r.x + span) && LinksTo(list, r.prevLink, SegmentOf(s, r.x))
  {
    hide MaxHeight, Better, SegmentOf, LinksTo;
    BestIsUnique(c, s, span, h, r.x, Pick(c, s, span, h));
  }

  lemma FoundIsPlaced(c: Config, st: State, list: seq<Node>, w: int, h: int, r: FindResult)
    requires Inv(c, st) && 1 <= w && 1 <= h && !Bails(c, st, h, r)
    requires Found(c, st.sky, list, RoundUp(w, c.align), h, r)
    ensures Reports(c, st, w, h, r) && Place(c, st, w, h) == Some(r.x)
    ensures 0 <= r.x && r.x + w <= r.x + RoundUp(w, c.align) <= c.width && 0 <= r.y
    ensures LinksTo(list, r.prevLink, SegmentOf(st.sky, r.x))
  {
    hide MaxHeight, RoundUp, Choose, SegmentOf, Settled, FloorLast, Found, LinksTo;
    FoundIsChosen(c, st.sky, list, RoundUp(w, c.align), h, r);
    ChosenInRange(c, st, w, h);
  }

  lemma PlacedIs(c: Config, st: State, w: int, h: int, r: FindResult, st': State)
    requires Inv(c, st) && 1 <= w && 1 <= h && Reports(c, st, w, h, r)
    requires 0 <= r.x && r.x + RoundUp(w, c.align) <= c.width && Place(c, st, w, h) == Some(r.x)
    requires st'.sky == Insert(st.sky, c.width, r.x, w, r.y + h)
    requires |st'.sky| + st'.free == c.numNodes + 2
    requires st'.placed == st.placed + {Box(r.x, r.y, w, h)}
    ensures st' == Pack(c, st, w, h)
  {
    hide MaxHeight, RoundUp, Insert, Place;
  }

  class Context {
    var width: int
    var height: int
    var align: int
    var bestFit: bool
    var numNodes: int
    var activeHead: Node
    var freeHead: Node?

    ghost var active: seq<Node>
    ghost var free: seq<Node>
    ghost var placed: set<Box>
    ghost var nodes: set<Node>

    ghost function Cfg(): Config
      reads this
    {
      Config(width, height, numNodes, align, bestFit)
    }

    ghost function Sky(): seq<Seg>
      reads this`active, active
    {
      Corners(active)
    }

    ghost function Current(): State
      reads this`active, this`free, this`placed, active
    {
      State(Sky(), |free|, placed)
    }

    ghost predicate Structured()
      reads this, nodes, active, free
    {
      && (forall n :: n in active ==> n in nodes)
      && (forall n :: n in free ==> n in nodes)
      && Chained(active, activeHead)
      && Chained(free, freeHead)
      && Distinct(active) && Distinct(free) && Apart(active, free)
    }

    ghost predicate Valid()
      reads this, nodes, active, free
    {
      Structured() && Inv(Cfg(), Current())
    }

    ghost predicate At(c: Config, st: State)
      reads this, nodes, active, free
    {
      Valid() && c == Cfg() && st == Current()
    }

    function Deref(link: Link): Node?
      reads this, if link.NextOf? then {link.prev} else {}
    {
      match link
      case NullLink => null
      case HeadLink => activeHead
      case NextOf(n) => n.next
    }

    // stbrp_init_target: buffer is the caller's array of nodes; the two extra ones are the
    // full-width segment and the sentinel.
    constructor (width: int, height: int, buffer: seq<Node>)
      requires 1 <= width <= COORD_MAX && 0 <= height <= COORD_MAX
      requires 1 <= |buffer| && Distinct(buffer)
      modifies buffer
      ensures Valid() && Current() == Init(Cfg())
      ensures Cfg() == Config(width, height, |buffer|, DefaultAlign(width, |buffer|), false)
      ensures 1 <= align && |buffer| * (align - 1) < width <= |buffer| * align
      ensures forall n :: n in nodes ==> n in buffer || fresh(n)
    {
      ChainUp(buffer);
      assert Coord(width) == width;
      hide Coord;
      var extra1 := new Node(Coord(width), SENTINEL_Y, null);
      var extra0 := new Node(0, 0, extra1);
      this.width, this.height, this.numNodes := width, height, |buffer|;
      bestFit := false;
      align := DefaultAlign(width, |buffer|);
      freeHead := buffer[0];
      activeHead := extra0;
      active, free := [extra0, extra1], buffer;
      placed := {};
      nodes := (set n | n in buffer) + {extra0, extra1};
      new;
      hide *;
      InitIsStructured(buffer, extra0, extra1);
      InitIsValid();
      DefaultAlignIsLeast(width, |buffer|);
    }

    lemma InitIsStructured(buffer: seq<Node>, extra0: Node, extra1: Node)
      requires Distinct(buffer) && free == buffer && active == [extra0, extra1] && extra0 != extra1
      requires extra0 !in buffer && extra1 !in buffer && nodes == (set n | n in buffer) + {extra0, extra1}
      requires Chained(buffer, freeHead) && activeHead == extra0 && extra0.next == extra1 && extra1.next == null
      requires extra0.x == 0 && extra0.y == 0 && extra1.x == width && extra1.y == SENTINEL_Y
      ensures Structured() && Sky() == [Seg(0, 0), Seg(width, SENTINEL_Y)]
    {
      assert Chained(active, activeHead);
      assert Distinct(active) && Apart(active, free);
      hide Chained, Distinct, Apart;
      assert Sky() == [Sky()[0], Sky()[1]];
    }

    lemma InitIsValid()
      requires Structured() && Sky() == [Seg(0, 0), Seg(width, SENTINEL_Y)] && placed == {}
      requires 1 <= width <= COORD_MAX && 0 <= height <= COORD_MAX && 1 <= numNodes == |free|
      requires align == DefaultAlign(width, numNodes)
      ensures Valid() && Current() == Init(Cfg())
    {
      hide Structured, Sky, DefaultAlign, Inv;
      DefaultAlignIsLeast(width, numNodes);
      InitKeepsInv(Cfg());
    }

    lemma AnySettings(c: Config, st: State, align: int, bestFit: bool)
      requires Inv(c, st) && 1 <= align
      ensures Inv(c.(align := align, bestFit := bestFit), st)
    {
    }

    // stbrp_setup_allow_out_of_mem: any alignment keeps the invariant, so it may be called at any time.
    method SetupAllowOutOfMem(allowOutOfMem: bool)
      requires Valid()
      modifies this`align
      ensures Valid() && Current() == old(Current())
      ensures align == if allowOutOfMem then 1 else DefaultAlign(width, numNodes)
      ensures !allowOutOfMem ==> 1 <= align && numNodes * (align - 1) < width <= numNodes * align
    {
      ghost var c, st := Cfg(), Current();
      AlignmentsArePositive(c, st);
      hide Structured, Corners, Inv, DefaultAlign;
      align := if allowOutOfMem then 1 else DefaultAlign(width, numNodes);
      AnySettings(c, st, align, bestFit);
    }

    lemma AlignmentsArePositive(c: Config, st: State)
      requires Inv(c, st)
      ensures var a := DefaultAlign(c.width, c.numNodes);
              1 <= c.align && 1 <= c.numNodes && 1 <= a && c.numNodes * (a - 1) < c.width <= c.numNodes * a
    {
      DefaultAlignIsLeast(c.width, c.numNodes);
    }

    // stbrp_setup_heuristic
    method SetupHeuristic(bestFit: bool)
      requires Valid()
      modifies this`bestFit
      ensures Valid() && Current() == old(Current()) && this.bestFit == bestFit
    {
      ghost var c, st := Cfg(), Current();
      AlignmentsArePositive(c, st);
      hide Structured, Corners, Inv;
      AnySettings(c, st, align, bestFit);
      this.bestFit := bestFit;
    }

    // The configuration and the skyline the fields spell out.
    ghost predicate Shows(c: Config, s: seq<Seg>)
      reads this, nodes, active, free
    {
      Structured() && c == Cfg() && s == Sky() && LowSkyline(c, s)
    }

    lemma ScanStep(s: seq<Seg>, k: int, x0: int, width: int, acc: Acc)
      requires Increasing(s) && 0 <= k < |s| - 1 && s[k].x < x0 + width <= s[|s| - 1].x
      ensures Scan(s, k, x0, width, acc) == Scan(s, k + 1, x0, width, Visit(s[k], s[k + 1].x, x0, width, acc))
    {
    }

    method FindMinY(ghost c: Config, ghost s: seq<Seg>, first: Node, x0: int, width: int, ghost i: int)
      returns (minY: int, waste: int)
      requires Shows(c, s)
      requires 0 <= i < |active| - 1 && first == active[i]
      requires 0 <= x0 && 0 < width && x0 + width <= this.width
      requires active[i].x <= x0 < active[i + 1].x
      ensures Probe(minY, waste) == Measure(s, x0, width)
    {
      hide *;
      var node := first;
      var x1 := x0 + width;
      minY, waste := 0, 0;
      var visited := 0;
      ghost var k := i;
      ScanStarts(c, s, x0, width, i);
      while node.x < x1
        invariant i <= k < |active| == |s| && node == active[k] && x1 <= s[|s| - 1].x && Increasing(s)
        invariant Scan(s, k, x0, width, Acc(minY, waste, visited)) == Measure(s, x0, width)
        decreases |active| - k
      {
        NodeAt(c, s, k, x1);
        var next := node.next;
        ScanStep(s, k, x0, width, Acc(minY, waste, visited));
        minY, waste, visited := VisitNode(node, next.x, x0, width, minY, waste, visited);
        node, k := next, k + 1;
      }
      LastNodeAt(c, s, k);
      ScanStops(s, k, x0, width, Acc(minY, waste, visited));
    }

    lemma ScanStarts(c: Config, s: seq<Seg>, x0: int, width: int, i: int)
      requires Shows(c, s) && 0 <= i < |active| - 1 && 0 <= x0 && 0 < width && x0 + width <= this.width
      requires active[i].x <= x0 < active[i + 1].x
      ensures |active| == |s| && x0 + width <= s[|s| - 1].x && s[0].x <= x0 && Increasing(s)
      ensures Scan(s, i, x0, width, Acc(0, 0, 0)) == Measure(s, x0, width)
    {
      HeightAt(s, i, x0);
    }

    lemma NodeAt(c: Config, s: seq<Seg>, k: int, x1: int)
      requires Shows(c, s) && 0 <= k < |active| == |s| && active[k].x < x1 <= s[|s| - 1].x
      ensures k < |s| - 1 && active[k].next == active[k + 1]
      ensures s[k] == Seg(active[k].x, active[k].y) && s[k + 1].x == active[k + 1].x
    {
    }

    lemma LastNodeAt(c: Config, s: seq<Seg>, k: int)
      requires Shows(c, s) && 0 <= k < |active| == |s|
      ensures s[k].x == active[k].x
    {
    }

    lemma ScanStops(s: seq<Seg>, k: int, x0: int, width: int, acc: Acc)
      requires Increasing(s) && 0 <= k < |s| && x0 + width <= s[|s| - 1].x && x0 + width <= s[k].x
      ensures Scan(s, k, x0, width, acc) == Probe(acc.minY, acc.waste)
    {
    }

    // What the loop does at one node.
    method VisitNode(node: Node, nextX: int, x0: int, width: int, minY: int, waste: int, visited: int)
      returns (minY': int, waste': int, visited': int)
      ensures Acc(minY', waste', visited') == Visit(Seg(node.x, node.y), nextX, x0, width, Acc(minY, waste, visited))
    {
      minY', waste', visited' := minY, waste, visited;
      if node.y > minY' {
        waste' := waste' + visited' * (node.y - minY');
        minY' := node.y;
        if node.x < x0 {
          visited' := visited' + (nextX - x0);
        } else {
          visited' := visited' + (nextX - node.x);
        }
      } else {
        var under := nextX - node.x;
        if under + visited' > width {
          under := width - visited';
        }
        waste' := waste' + under * (minY' - node.y);
        visited' := visited' + under;
      }
    }

    // First loop of stbrp__skyline_find_best_pos: every corner as a left edge.
    method ScanLeftEdges(ghost c: Config, ghost s: seq<Seg>, span: int, h: int)
      returns (l: Leader, ghost best: Option<int>, ghost k: int)
      requires Shows(c, s) && 1 <= span <= width && 0 <= h <= height
      ensures 0 <= k < |s| && width < s[k].x + span
      ensures Champion(c, s, span, h, k, 0, best)
      ensures Tracks(c, s, active, best, l, span)
    {
      var node, prev := activeHead, HeadLink;
      l := Leader(NullLink, 0, UNREACHED, UNREACHED);
      best, k := None, 0;
      EmptyChampion(c, s, span, h);
      hide Inv, Measure, Champion, Increasing, Corners, SegmentOf;
      while node.x + span <= width
        invariant 0 <= k < |active| && LinksTo(active, prev, k) && node == active[k]
        invariant Champion(c, s, span, h, k, 0, best)
        invariant Tracks(c, s, active, best, l, span)
        invariant best.Some? ==> best.value < s[k].x
        decreases |active| - k
      {
        var x := node.x;
        assert x == s[k].x;
        CornerStep(c, s, k, span);
        var y, waste := FindMinY(c, s, node, x, span, k);
        ghost var best' := if LeftWins(c, h, Probe(y, waste), l) then Some(x) else best;
        LeftStep(c, s, active, span, h, k, best, l, Probe(y, waste), best');
        if !bestFit {
          if y < l.y {
            l := Leader(prev, x, y, l.waste);
          }
        } else if y + h <= height {
          if y < l.y || (y == l.y && waste < l.waste) {
            l := Leader(prev, x, y, waste);
          }
        }
        prev := NextOf(node);
        node := node.next;
        k := k + 1;
        best := best';
      }
    }

    // The inner loop of the second one: on to the segment that xpos lies in.
    method WalkTo(ghost c: Config, ghost s: seq<Seg>, node0: Node, prev0: Link, xpos: int, ghost k0: int)
      returns (node: Node, prev: Link, ghost k: int)
      requires Shows(c, s) && 0 <= k0 < |active| && node0 == active[k0] && LinksTo(active, prev0, k0)
      requires active[k0].x <= xpos < width
      ensures k0 <= k < |active| - 1 && node == active[k] && LinksTo(active, prev, k)
      ensures active[k].x <= xpos < active[k + 1].x
    {
      node, prev, k := node0, prev0, k0;
      hide Inv, Increasing, Corners;
      RightNext(c, s, k, xpos);
      while node.next.x <= xpos
        invariant k0 <= k < |active| - 1 && LinksTo(active, prev, k) && node == active[k]
        invariant s[k].x <= xpos && node.next == active[k + 1]
        decreases |active| - k
      {
        prev := NextOf(node);
        node := node.next;
        k := k + 1;
        RightNext(c, s, k, xpos);
      }
    }

    // The first corner that can be a right edge.
    method FirstTail(ghost c: Config, ghost s: seq<Seg>, span: int, h: int, ghost k: int, ghost best: Option<int>)
      returns (tail: Node, ghost tk: int)
      requires Shows(c, s) && 1 <= span <= width && 0 <= k
      requires Champion(c, s, span, h, k, 0, best)
      ensures 0 <= tk < |active| && tail == active[tk] && span <= tail.x
      ensures Champion(c, s, span, h, k, tk, best)
    {
      tail, tk := activeHead, 0;
      hide Inv, Measure, Champion, Increasing, Corners, SegmentOf;
      while tail.x < span
        invariant 0 <= tk < |active| && tail == active[tk]
        invariant Champion(c, s, span, h, k, tk, best)
        decreases |active| - tk
      {
        RightSkip(c, s, span, h, k, tk, best);
        assert active[tk].next == active[tk + 1];
        tail := tail.next;
        tk := tk + 1;
      }
    }

    // One turn of the second loop: the corner tail as a right edge.
    method TryRightEdge(ghost c: Config, ghost s: seq<Seg>, tail: Node, node0: Node, prev0: Link, span: int, h: int,
                        l0: Leader, ghost best0: Option<int>, ghost k: int, ghost tk: int, ghost nk0: int)
      returns (node: Node, prev: Link, l: Leader, ghost best: Option<int>, ghost nk: int)
      requires Shows(c, s) && bestFit && 1 <= span <= width && 0 <= h <= height && 0 <= k
      requires 0 <= tk < |active| && tail == active[tk] && span <= tail.x
      requires 0 <= nk0 < |active| && node0 == active[nk0] && LinksTo(active, prev0, nk0) && node0.x <= tail.x - span
      requires Champion(c, s, span, h, k, tk, best0)
      requires Tracks(c, s, active, best0, l0, span)
      ensures 0 <= nk < |active| && node == active[nk] && LinksTo(active, prev, nk) && node.x <= tail.x - span
      ensures Champion(c, s, span, h, k, tk + 1, best)
      ensures Tracks(c, s, active, best, l, span)
    {
      hide Inv, Measure, Champion, Increasing, Corners, SegmentOf, Tracks, LowSkyline;
      l, best := l0, best0;
      var xpos := tail.x - span;
      assert s[tk].x == tail.x;
      RightRoom(c, s, tk, span);
      node, prev, nk := WalkTo(c, s, node0, prev0, xpos, nk0);
      var y, waste := FindMinY(c, s, node, xpos, span, nk);
      best := if RightWins(c, h, xpos, Probe(y, waste), l) then Some(xpos) else best0;
      RightStep(c, s, active, span, h, k, tk, nk, best0, l, prev, Probe(y, waste), best);
      if y + h <= height {
        if y <= l.y {
          if y < l.y || waste < l.waste || (waste == l.waste && xpos < l.x) {
            l := Leader(prev, xpos, y, waste);
          }
        }
      }
    }

    // Second loop: every corner as a right edge, walked with a second node that stays at the
    // segment the left edge falls in.
    method ScanRightEdges(ghost c: Config, ghost s: seq<Seg>, span: int, h: int, l0: Leader,
                          ghost best0: Option<int>, ghost k: int)
      returns (l: Leader, ghost best: Option<int>)
      requires Shows(c, s) && bestFit && 1 <= span <= width && 0 <= h <= height && 0 <= k
      requires Champion(c, s, span, h, k, 0, best0)
      requires Tracks(c, s, active, best0, l0, span)
      ensures Champion(c, s, span, h, k, |s|, best)
      ensures Tracks(c, s, active, best, l, span)
    {
      l, best := l0, best0;
      var tail: Node?;
      var node, prev := activeHead, HeadLink;
      ghost var tk, nk := 0, 0;
      hide Inv, Measure, Champion, Increasing, Corners, SegmentOf, Tracks;
      tail, tk := FirstTail(c, s, span, h, k, best);
      while tail != null
        invariant Shows(c, s)
        invariant 0 <= tk <= |active| && tail == (if tk < |active| then active[tk] else null)
        invariant 0 <= nk < |active| && LinksTo(active, prev, nk) && node == active[nk]
        invariant tk < |active| ==> span <= s[tk].x && s[nk].x <= s[tk].x - span
        invariant Champion(c, s, span, h, k, tk, best)
        invariant Tracks(c, s, active, best, l, span)
        decreases |active| - tk
      {
        node, prev, l, best, nk := TryRightEdge(c, s, tail, node, prev, span, h, l, best, k, tk, nk);
        RightNextTail(c, s, tk);
        assert tk + 1 == |active| ==> active[|active| - 1].next == null;
        tail := tail.next;
        tk := tk + 1;
      }
    }

    // stbrp__skyline_find_best_pos: the preferred position, and the link to the segment it lies in.
    method FindBestPos(w: int, h: int) returns (r: FindResult)
      requires Valid() && 1 <= w && 1 <= h
      ensures Found(Cfg(), Sky(), active, RoundUp(w, align), h, r)
    {
      var span := RoundUp(w, align);
      if span > width || h > height {
        return FindResult(0, 0, NullLink);
      }
      ghost var c, s := Cfg(), Sky();
      assert LowSkyline(c, s);
      hide Inv, Champion, Corners, Tracks, LowSkyline, Found, RoundUp;
      ghost var best, k;
      var l;
      l, best, k := ScanLeftEdges(c, s, span, h);
      if bestFit {
        l, best := ScanRightEdges(c, s, span, h, l, best, k);
      }
      r := FindResult(l.x, l.y, l.link);
      SearchIsDone(c, s, active, span, h, k, if bestFit then |s| else 0, best, l, r);
    }

    // The traversal that moves covered nodes, from list[a] on, to the free list.
    method FreeCovered(cur0: Node, right: int, ghost list: seq<Node>, ghost a: int, ghost free0: seq<Node>)
      returns (cur: Node, ghost j: int, ghost free': seq<Node>)
      requires 0 <= a < |list| && cur0 == list[a]
      requires ChainedFrom(list, a) && Chained(free0, freeHead)
      requires Distinct(list) && Distinct(free0) && Apart(list, free0)
      modifies this`freeHead, (set n | n in list[a..])`next
      ensures a <= j < |list| && cur == list[j]
      ensures j == |list| - 1 || right < list[j + 1].x
      ensures forall i :: a < i <= j ==> list[i].x <= right
      ensures ChainedFrom(list, j) && Chained(free', freeHead)
      ensures forall i :: 0 <= i < a ==> list[i].next == old(list[i].next)
      ensures |free'| == |free0| + (j - a) && Distinct(free')
      ensures forall n :: n in free' ==> n in free0 || n in list[a..j]
      ensures Corners(list) == old(Corners(list))
    {
      hide Chained, Apart;
      cur, j, free' := cur0, a, free0;
      while cur.next != null && cur.next.x <= right
        invariant a <= j < |list| && cur == list[j]
        invariant forall i :: a < i <= j ==> list[i].x <= right
        invariant ChainedFrom(list, j) && Chained(free', freeHead)
        invariant |free'| == |free0| + (j - a) && Distinct(free')
        invariant forall n :: n in free' ==> n in free0 || n in list[a..j]
        decreases |list| - j
      {
        cur, free' := FreeOne(cur, list, a, j, free0, free');
        j := j + 1;
      }
    }

    // One covered node to the front of the free list.
    method FreeOne(cur: Node, ghost list: seq<Node>, ghost a: int, ghost j: int, ghost free0: seq<Node>,
                   ghost freed: seq<Node>)
      returns (next: Node, ghost freed': seq<Node>)
      requires 0 <= a <= j < |list| - 1 && cur == list[j] && cur.next != null
      requires ChainedFrom(list, j) && Chained(freed, freeHead)
      requires Distinct(list) && Distinct(free0) && Apart(list, free0)
      requires |freed| == |free0| + (j - a) && Distinct(freed)
      requires forall n :: n in freed ==> n in free0 || n in list[a..j]
      modifies this`freeHead, cur`next
      ensures next == list[j + 1] && ChainedFrom(list, j + 1) && Chained(freed', freeHead)
      ensures |freed'| == |free0| + (j + 1 - a) && Distinct(freed')
      ensures forall n :: n in freed' ==> n in free0 || n in list[a..j + 1]
    {
      next := cur.next;
      assert list[j] !in freed by {
        assert list[j] !in list[a..j];
      }
      cur.next := freeHead;
      assert Chained(freed, freeHead);
      freeHead := cur;
      ChainOneMore(freed, cur);
      FreedOneMore(list, a, j, free0, freed);
      freed' := [cur] + freed;
    }

    // The start of the insertion: a node is taken from the free list ...
    method TakeFree(x: int, y: int) returns (node: Node)
      requires Structured() && free != [] && 0 <= x <= COORD_MAX && 0 <= y <= COORD_MAX
      modifies this`freeHead, this`free, nodes`x, nodes`y
      ensures node == old(free[0]) && free == old(free[1..])
      ensures node.x == x && node.y == y && node !in active && node !in free
      ensures Structured() && Corners(active) == old(Corners(active))
    {
      assert Coord(x) == x && Coord(y) == y;
      node := freeHead;
      node.x := Coord(x);
      node.y := Coord(y);
      freeHead := node.next;
      assert forall i :: 1 <= i < |free| ==> free[i] != free[0];
      free := free[1..];
    }

    // ... and linked in ahead of list[a], behind the segment that starts left of x if there is one.
    method SpliceIn(node: Node, link: Link, x: int, ghost k: int, ghost a: int) returns (cur: Node)
      requires Chained(active, activeHead) && Distinct(active) && node !in active
      requires Chained(free, freeHead) && Apart(active, free)
      requires LinksTo(active, link, k) && 0 <= k < |active| && 0 <= a < |active|
      requires if active[k].x < x then a == k + 1 else a == k
      modifies this`activeHead, (set n | n in active)`next
      ensures LeadsTo(active[..a], activeHead, node)
      ensures ChainedFrom(active, a) && cur == active[a] && Chained(free, freeHead)
      ensures Corners(active) == old(Corners(active)) && node.x == old(node.x) && node.y == old(node.y)
    {
      cur := Deref(link);
      assert cur == active[k];
      if cur.x < x {
        var next := cur.next;
        assert next == active[a];
        cur.next := node;
        cur := next;
      } else if link == HeadLink {
        activeHead := node;
      } else {
        link.prev.next := node;
      }
    }

    // The first two steps together.
    method Lead(link: Link, x: int, top: int, ghost k: int, ghost a: int) returns (node: Node, cur: Node)
      requires Structured() && free != [] && 0 <= x <= COORD_MAX && 0 <= top <= COORD_MAX
      requires LinksTo(active, link, k) && 0 <= k < |active| && 0 <= a < |active|
      requires if active[k].x < x then a == k + 1 else a == k
      modifies this`activeHead, this`freeHead, this`free, nodes
      ensures free == old(free)[1..] && Chained(free, freeHead) && Distinct(free)
      ensures Distinct(active) && Apart(active, free)
      ensures node in nodes && node !in active && node !in free && node.x == x && node.y == top
      ensures LeadsTo(active[..a], activeHead, node) && ChainedFrom(active, a) && cur == active[a]
      ensures Corners(active) == old(Corners(active))
    {
      hide LinksTo, LeadsTo, Chained, ChainedFrom, Distinct, Apart, Corners;
      node := TakeFree(x, top);
      cur := SpliceIn(node, link, x, k, a);
    }

    // The insertion up to the stitching: the new node leads, the covered ones are free again.
    method Relink(link: Link, x: int, right: int, top: int, ghost k: int, ghost a: int)
      returns (node: Node, cur: Node, ghost j: int)
      requires Structured() && free != [] && 0 <= x <= COORD_MAX && 0 <= top <= COORD_MAX
      requires LinksTo(active, link, k) && 0 <= k < |active| && 0 <= a < |active|
      requires if active[k].x < x then a == k + 1 else a == k
      modifies this`activeHead, this`freeHead, this`free, nodes
      ensures a <= j < |active| && cur == active[j]
      ensures j == |active| - 1 || right < active[j + 1].x
      ensures forall i :: a < i <= j ==> active[i].x <= right
      ensures node in nodes && node !in active && node !in free && node.x == x && node.y == top
      ensures LeadsTo(active[..a], activeHead, node) && ChainedFrom(active, j) && Distinct(active)
      ensures Chained(free, freeHead) && Distinct(free) && Apart(Replaced(active, a, node, j), free)
      ensures |free| == |old(free)| - 1 + (j - a) && forall n :: n in free ==> n in nodes
      ensures Corners(active) == old(Corners(active))
    {
      hide Replaced, LinksTo, Chained, ChainedFrom, Distinct, Apart, Corners;
      node, cur := Lead(link, x, top, k, a);
      ghost var free';
      cur, j, free' := FreeCovered(cur, right, active, a, free);
      FreedApart(active, a, node, j, free, free');
      free := free';
    }

    // The end of the insertion: the new node takes over in front of list[j] ...
    method Stitch(node: Node, cur: Node, ghost a: int, ghost j: int)
      requires 0 <= a <= j < |active| && cur == active[j] && node !in active
      requires LeadsTo(active[..a], activeHead, node) && ChainedFrom(active, j)
      requires Distinct(active) && Chained(free, freeHead) && node !in free
      modifies this`active, node`next
      ensures active == Replaced(old(active), a, node, j) && Chained(free, freeHead)
      ensures Chained(active, activeHead) && Distinct(active)
      ensures Corners(old(active)) == old(Corners(active))
    {
      hide Corners;
      node.next := cur;
      ReplacedIsDistinct(active, a, node, j);
      assert forall i :: 0 <= i < a ==> active[..a][i] == active[i];
      ChainReplaced(active, a, node, j, activeHead, Replaced(active, a, node, j));
      active := Replaced(active, a, node, j);
    }

    // ... whose left end is moved to the right edge if it lies before it.
    method MoveLeftEnd(cur: Node, right: int, ghost list: seq<Node>, ghost j: int)
      requires Structured()
      requires 0 <= j < |list| && cur == list[j] && Distinct(list) && 0 <= right <= COORD_MAX
      modifies cur`x
      ensures Structured()
      ensures Corners(list) == old(Corners(list))[j := Seg(Max(old(cur.x), right), old(cur.y))]
    {
      assert Coord(right) == right;
      hide Coord;
      if cur.x < right {
        cur.x := Coord(right);
      }
    }

    // The corner at (x, top) in place of a to j - 1, with j as the last corner not beyond the right
    // edge, if there is one from a on, and moved there.
    ghost predicate Spliced(s: seq<Seg>, a: int, j: int, x: int, right: int, top: int, sky: seq<Seg>) {
      && 0 <= a <= j < |s|
      && (j == |s| - 1 || right < s[j + 1].x)
      && (forall i :: a < i <= j ==> s[i].x <= right)
      && sky == s[..a] + [Seg(x, top)] + s[j := Seg(Max(s[j].x, right), s[j].y)][j..]
    }

    lemma SplicedIsInsert(c: Config, s: seq<Seg>, a: int, j: int, x: int, w: int, top: int, sky: seq<Seg>)
      requires LowSkyline(c, s) && 0 <= x && 1 <= w && x + w <= c.width
      requires a == FirstFrom(s, x) && Spliced(s, a, j, x, x + w, top, sky)
      ensures sky == Insert(s, c.width, x, w, top)
    {
      SuccessorAt(c, s, x, w, a, j);
      InsertSpelledOut(c, s, x, w, top, a, j);
    }

    method LinkAt(link: Link, x: int, right: int, top: int, ghost k: int, ghost a: int) returns (ghost j: int)
      requires Structured() && free != [] && 0 <= x <= right <= COORD_MAX && 0 <= top <= COORD_MAX
      requires LinksTo(active, link, k) && 0 <= k < |active| && 0 <= a < |active|
      requires if active[k].x < x then a == k + 1 else a == k
      modifies this`activeHead, this`freeHead, this`active, this`free, nodes
      ensures Structured() && |active| + |free| == old(|active| + |free|)
      ensures Spliced(old(Corners(active)), a, j, x, right, top, Sky())
    {
      hide Replaced, LinksTo, LeadsTo, Chained, ChainedFrom, Distinct, Apart;
      ghost var list, s := active, Corners(active);
      var node, cur;
      node, cur, j := Relink(link, x, right, top, k, a);
      assert cur.x == s[j].x && cur.y == s[j].y;
      ReplacedIsDistinct(list, a, node, j);
      ReplacedSize(list, a, node, j);
      hide Corners;
      Stitch(node, cur, a, j);
      MoveLeftEnd(cur, right, list, j);
      CornersReplaced(list, a, node, j);
      assert Corners(list)[..a] == s[..a];
    }

    lemma LinkFacts(c: Config, s: seq<Seg>, x: int, w: int) returns (k: int, a: int)
      requires Shows(c, s) && 0 <= x && 1 <= w && x + w <= width
      ensures k == SegmentOf(s, x) && a == FirstFrom(s, x)
      ensures Structured() && LowSkyline(c, s) && width == c.width && s == Corners(active) && x + w <= COORD_MAX
      ensures 0 <= k < |active| && 0 <= a < |active| && if active[k].x < x then a == k + 1 else a == k
    {
      k, a := SegmentOf(s, x), FirstFrom(s, x);
      SegmentBeforeFirst(c, s, x);
    }

    method LinkIn(ghost c: Config, ghost s: seq<Seg>, link: Link, x: int, w: int, top: int)
      requires Shows(c, s) && free != []
      requires 0 <= x && 1 <= w && x + w <= width && 0 <= top <= COORD_MAX
      requires LinksTo(active, link, SegmentOf(s, x))
      modifies this`activeHead, this`freeHead, this`active, this`free, nodes
      ensures Structured() && Sky() == Insert(s, c.width, x, w, top)
      ensures |active| + |free| == old(|active| + |free|)
    {
      hide *;
      ghost var k, a := LinkFacts(c, s, x, w);
      ghost var j := LinkAt(link, x, x + w, top, k, a);
      SplicedIsInsert(c, s, a, j, x, w, top, Sky());
    }

    // The second half of stbrp__skyline_pack_rectangle, once a fitting position is known.
    method Commit(ghost c: Config, ghost st: State, w: int, h: int, r: FindResult)
      requires Structured() && c == Cfg() && st == Current() && Inv(c, st) && free != []
      requires 1 <= w && 1 <= h && 0 <= r.x && 0 <= r.y && r.x + w <= r.x + RoundUp(w, c.align) <= c.width &&
               r.y + h <= c.height
      requires Reports(c, st, w, h, r) && Place(c, st, w, h) == Some(r.x)
      requires LinksTo(active, r.prevLink, SegmentOf(st.sky, r.x))
      modifies this`activeHead, this`freeHead, this`active, this`free, this`placed, nodes
      ensures Structured() && Cfg() == c && nodes == old(nodes)
      ensures Current() == Pack(c, st, w, h)
    {
      hide Inv, Place, Pack, Insert, MaxHeight, SegmentOf, RoundUp, LinksTo, Corners, Reports, Skyline.Valid;
      InvShape(c, st);
      LinkIn(c, st.sky, r.prevLink, r.x, w, r.y + h);
      placed := placed + {Box(r.x, r.y, w, h)};
      PlacedIs(c, st, w, h, r, Current());
    }

    // stbrp__skyline_pack_rectangle: one step of the packing machine.
    method PackRectangle(w: int, h: int) returns (r: FindResult)
      requires Valid() && 1 <= w && 1 <= h
      modifies this`activeHead, this`freeHead, this`active, this`free, this`placed, nodes
      ensures Valid() && Cfg() == old(Cfg()) && nodes == old(nodes)
      ensures Current() == Pack(old(Cfg()), old(Current()), w, h)
      ensures Reports(old(Cfg()), old(Current()), w, h, r)
    {
      hide Inv, Place, Pack, Insert, MaxHeight, SegmentOf, RoundUp, LinksTo, Corners, Found, Skyline.Valid;
      ghost var c, st := Cfg(), Current();
      InvShape(c, st);
      r := FindBestPos(w, h);
      PackKeepsInv(c, st, w, h);
      if r.prevLink == NullLink || r.y + h > height || freeHead == null {
        BailedIsRefused(c, st, active, w, h, r);
        r := r.(prevLink := NullLink);
        RefusedIsUnchanged(c, st, w, h);
        return;
      }
      FoundIsPlaced(c, st, active, w, h, r);
      Commit(c, st, w, h, r);
    }
  }
}
