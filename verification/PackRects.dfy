// stbrp_pack_rects: sort by height, place one by one, restore the caller's order, set the flags.
module PackRects {
  import opened Common
  import opened Skyline
  import opened Placement
  import opened Packing
  import opened Packer
  import opened Sorting

  const MAXVAL := 0xffff

  datatype Rect = Rect(id: int, w: nat, h: nat, x: int, y: int, wasPacked: int)

  function RectHeightCompare(p: Rect, q: Rect): int {
    if p.h > q.h then -1
    else if p.h < q.h then 1
    else if p.w > q.w then -1 else if p.w < q.w then 1 else 0
  }

  function RectOriginalOrder(p: Rect, q: Rect): int {
    if p.wasPacked < q.wasPacked then -1 else if p.wasPacked > q.wasPacked then 1 else 0
  }

  function Tag(r: Rect): int {
    r.wasPacked
  }

  lemma ComparatorsArePreorders()
    ensures TotalPreorder(RectHeightCompare) && TotalPreorder(RectOriginalOrder)
  {
  }

  // In this order the tall come before the low, and among equals the wide before the narrow.
  lemma TallestAreFirst(order: seq<Rect>)
    requires Ordered(RectHeightCompare, order)
    ensures forall i, j :: 0 <= i < j < |order| ==>
              order[i].h > order[j].h || (order[i].h == order[j].h && order[i].w >= order[j].w)
  {
    forall i, j | 0 <= i < j < |order|
      ensures order[i].h > order[j].h || (order[i].h == order[j].h && order[i].w >= order[j].w)
    {
      assert RectHeightCompare(order[i], order[j]) <= 0;
    }
  }

  function SizeOf(r: Rect): Size {
    Size(r.w, r.h)
  }

  function Sizes(s: seq<Rect>): (z: seq<Size>)
    ensures |z| == |s| && forall k :: 0 <= k < |s| ==> z[k] == SizeOf(s[k])
  {
    seq(|s|, k requires 0 <= k < |s| => SizeOf(s[k]))
  }

  predicate SameInput(r: Rect, r': Rect) {
    r.id == r'.id && r.w == r'.w && r.h == r'.h
  }

  predicate IsEmpty(r: Rect) {
    r.w == 0 || r.h == 0
  }

  function BoxOf(r: Rect): Box {
    Box(r.x, r.y, r.w, r.h)
  }

  // The position written for a rectangle that is packed in state st.
  ghost predicate Written(c: Config, st: State, r: Rect)
    requires Inv(c, st)
  {
    if IsEmpty(r) then r.x == 0 && r.y == 0
    else match Place(c, st, r.w, r.h)
      case None => r.x == MAXVAL && r.y == MAXVAL
      case Some(x) =>
        ChosenInRange(c, st, r.w, r.h);
        r.x == x && r.y == MaxHeight(st.sky, x, x + RoundUp(r.w, c.align))
  }

  lemma CoordIsExact(v: int)
    requires 0 <= v <= COORD_MAX
    ensures Coord(v) == v
  {
  }

  lemma ReportIsWritten(c: Config, st: State, r: Rect, fr: FindResult)
    requires Inv(c, st) && !IsEmpty(r) && Reports(c, st, r.w, r.h, fr)
    ensures fr.prevLink == NullLink ==> Written(c, st, r.(x := MAXVAL, y := MAXVAL))
    ensures fr.prevLink != NullLink ==> Written(c, st, r.(x := Coord(fr.x), y := Coord(fr.y)))
  {
    ChosenInRange(c, st, r.w, r.h);
    InvShape(c, st);
    hide Inv, MaxHeight, Place, RoundUp, Coord;
    if fr.prevLink != NullLink {
      CoordIsExact(fr.x);
      CoordIsExact(fr.y);
    }
  }

  // One turn of the placement loop.
  method PlaceOne(ghost c: Config, ghost st: State, ctx: Context, r: Rect) returns (r': Rect)
    requires ctx.At(c, st) && Inv(c, st)
    modifies ctx`activeHead, ctx`freeHead, ctx`active, ctx`free, ctx`placed, ctx.nodes
    ensures ctx.At(c, Pack(c, st, r.w, r.h)) && ctx.nodes == old(ctx.nodes)
    ensures SameInput(r, r') && r'.wasPacked == r.wasPacked && Written(c, st, r')
  {
    if r.w == 0 || r.h == 0 {
      r' := r.(x := 0, y := 0);
    } else {
      hide Inv, Pack, Written, Coord;
      var fr := ctx.PackRectangle(r.w, r.h);
      ReportIsWritten(c, st, r, fr);
      if fr.prevLink != NullLink {
        r' := r.(x := Coord(fr.x), y := Coord(fr.y));
      } else {
        r' := r.(x := MAXVAL, y := MAXVAL);
      }
    }
  }

  lemma RunStep(c: Config, st: State, sizes: seq<Size>, k: nat)
    requires Inv(c, st) && k < |sizes|
    ensures RunFrom(c, st, sizes[..k + 1]) == Pack(c, RunFrom(c, st, sizes[..k]), sizes[k].w, sizes[k].h)
  {
    assert sizes[..k + 1][..k] == sizes[..k];
  }

  lemma RunsNothing(c: Config, st: State, sizes: seq<Size>)
    requires Inv(c, st)
    ensures RunFrom(c, st, sizes[..0]) == st
  {
  }

  // s' is s with the positions a run from st writes, up to the i-th.
  ghost predicate PlacedUpTo(c: Config, st: State, s: seq<Rect>, s': seq<Rect>, i: nat)
    requires Inv(c, st)
  {
    && |s'| == |s|
    && (forall k :: i <= k < |s| ==> s'[k] == s[k])
    && (forall k :: 0 <= k < i && k < |s| ==> SameInput(s[k], s'[k]) && s'[k].wasPacked == s[k].wasPacked)
    && (forall k :: 0 <= k < i && k < |s| ==> Written(c, RunFrom(c, st, Sizes(s)[..k]), s'[k]))
  }

  lemma PlacedOneMore(c: Config, st: State, s: seq<Rect>, s': seq<Rect>, i: nat, r: Rect)
    requires Inv(c, st) && i < |s| && PlacedUpTo(c, st, s, s', i)
    requires SameInput(s[i], r) && r.wasPacked == s[i].wasPacked && Written(c, RunFrom(c, st, Sizes(s)[..i]), r)
    ensures PlacedUpTo(c, st, s, s'[i := r], i + 1)
  {
    hide Inv, Written, RunFrom, Sizes;
  }

  // The placement loop.
  method PlaceAll(ghost c: Config, ghost st: State, ghost s: seq<Rect>, ctx: Context, rects: array<Rect>)
    requires ctx.At(c, st) && Inv(c, st) && s == rects[..]
    modifies rects, ctx`activeHead, ctx`freeHead, ctx`active, ctx`free, ctx`placed, ctx.nodes
    ensures ctx.At(c, RunFrom(c, st, Sizes(s))) && ctx.nodes == old(ctx.nodes)
    ensures PlacedUpTo(c, st, s, rects[..], |s|)
  {
    hide Inv, RunFrom, Sizes, PlacedUpTo, Context.At;
    RunsNothing(c, st, Sizes(s));
    NothingPlaced(c, st, s);
    for i := 0 to rects.Length
      invariant PlacedFirst(c, st, s, ctx, rects, i) && ctx.nodes == old(ctx.nodes)
    {
      PlaceNext(c, st, s, ctx, rects, i);
    }
    AllPlaced(c, st, s);
  }

  // The first i rectangles have been through the packer.
  ghost predicate PlacedFirst(c: Config, st: State, s: seq<Rect>, ctx: Context, rects: array<Rect>, i: nat)
    requires Inv(c, st) && i <= |s|
    reads rects, ctx, ctx.nodes, ctx.active, ctx.free
  {
    ctx.At(c, RunFrom(c, st, Sizes(s)[..i])) && PlacedUpTo(c, st, s, rects[..], i)
  }

  lemma NothingPlaced(c: Config, st: State, s: seq<Rect>)
    requires Inv(c, st)
    ensures PlacedUpTo(c, st, s, s, 0)
  {
  }

  lemma AllPlaced(c: Config, st: State, s: seq<Rect>)
    ensures Sizes(s)[..|s|] == Sizes(s)
  {
  }

  method PlaceNext(ghost c: Config, ghost st: State, ghost s: seq<Rect>, ctx: Context, rects: array<Rect>, i: nat)
    requires Inv(c, st) && i < rects.Length == |s| && PlacedFirst(c, st, s, ctx, rects, i)
    modifies rects, ctx`activeHead, ctx`freeHead, ctx`active, ctx`free, ctx`placed, ctx.nodes
    ensures PlacedFirst(c, st, s, ctx, rects, i + 1) && ctx.nodes == old(ctx.nodes)
  {
    hide Inv, RunFrom, Written, Sizes, SameInput, PlacedUpTo, Context.At;
    ghost var before := rects[..];
    PlacedSoFar(c, st, s, before, i);
    RunStep(c, st, Sizes(s), i);
    var r := PlaceOne(c, RunFrom(c, st, Sizes(s)[..i]), ctx, rects[i]);
    rects[i] := r;
    PlacedOneMore(c, st, s, before, i, r);
    assert rects[..] == before[i := r];
  }

  lemma PlacedSoFar(c: Config, st: State, s: seq<Rect>, s': seq<Rect>, i: nat)
    requires Inv(c, st) && i < |s| && PlacedUpTo(c, st, s, s', i)
    ensures |s'| == |s| && s'[i] == s[i] && Sizes(s)[i] == SizeOf(s[i])
  {
  }

  // --- The whole call --------------------------------------------------------------

  // Numbered(s, s0): s is s0 with every rectangle carrying its own index.
  ghost predicate Numbered(s: seq<Rect>, s0: seq<Rect>) {
    |s| == |s0| && forall k :: 0 <= k < |s| ==> s[k] == s0[k].(wasPacked := k)
  }

  // A reordering of the caller's rectangles that remembers where each came from.
  ghost predicate ReorderingOf(order: seq<Rect>, s0: seq<Rect>) {
    && |order| == |s0|
    && Tagged(Tag, order)
    && forall k :: 0 <= k < |order| ==> SameInput(order[k], s0[order[k].wasPacked])
  }

  lemma SortedIsReordering(s: seq<Rect>, s0: seq<Rect>, order: seq<Rect>)
    requires Numbered(s, s0) && multiset(order) == multiset(s)
    ensures ReorderingOf(order, s0)
  {
    assert Tagged(Tag, s);
    PermutedStaysTagged(Tag, s, order);
    forall k | 0 <= k < |order| ensures SameInput(order[k], s0[order[k].wasPacked]) {
      assert order[k] in s;
    }
  }

  // What the call leaves behind: a run over the rectangles from tall to short took the packer
  // from st to its present state, and every rectangle, back at its own index, carries the
  // position that run gave it and a flag that says whether it got one.
  ghost predicate Outcome(c: Config, st: State, s0: seq<Rect>, order: seq<Rect>, s: seq<Rect>)
    requires Inv(c, st) && ReorderingOf(order, s0)
  {
    && |s| == |s0|
    && forall k :: 0 <= k < |order| ==>
         var r := s[order[k].wasPacked];
         && SameInput(r, order[k])
         && Written(c, RunFrom(c, st, Sizes(order)[..k]), r)
         && r.wasPacked == (if r.x == MAXVAL && r.y == MAXVAL then 0 else 1)
  }

  function Flagged(r: Rect): Rect {
    r.(wasPacked := if r.x == MAXVAL && r.y == MAXVAL then 0 else 1)
  }

  lemma UnsortedIsOutcome(c: Config, st: State, s0: seq<Rect>, order: seq<Rect>, placed: seq<Rect>,
                          unsorted: seq<Rect>, s: seq<Rect>)
    requires Inv(c, st) && ReorderingOf(order, s0)
    requires PlacedUpTo(c, st, order, placed, |order|)
    requires multiset(unsorted) == multiset(placed) && Ordered(RectOriginalOrder, unsorted)
    requires |s| == |unsorted| && forall k :: 0 <= k < |s| ==> s[k] == Flagged(unsorted[k])
    ensures Outcome(c, st, s0, order, s)
  {
    hide Inv, RunFrom, Sizes;
    assert Tagged(Tag, placed);
    PermutedStaysTagged(Tag, placed, unsorted);
    assert forall i, j :: 0 <= i < j < |unsorted| ==> RectOriginalOrder(unsorted[i], unsorted[j]) <= 0;
    OrderedTagsAreIndices(Tag, unsorted);
    forall k | 0 <= k < |order| ensures s[order[k].wasPacked] == Flagged(placed[k]) {
      assert placed[k] in unsorted;
    }
    forall k | 0 <= k < |order| ensures Written(c, RunFrom(c, st, Sizes(order)[..k]), s[order[k].wasPacked]) {
      FlagKeepsWritten(c, RunFrom(c, st, Sizes(order)[..k]), placed[k]);
    }
  }

  lemma FlagKeepsWritten(c: Config, st: State, r: Rect)
    requires Inv(c, st) && Written(c, st, r)
    ensures Written(c, st, Flagged(r))
  {
  }

  // The loop that lets the was_packed field remember the original order.
  method NumberAll(rects: array<Rect>)
    modifies rects
    ensures Numbered(rects[..], old(rects[..]))
  {
    for i := 0 to rects.Length
      invariant forall k :: 0 <= k < i ==> rects[k] == old(rects[k]).(wasPacked := k)
      invariant forall k :: i <= k < rects.Length ==> rects[k] == old(rects[k])
    {
      rects[i] := rects[i].(wasPacked := i);
    }
  }

  // The loop that sets the flags.
  method FlagAll(rects: array<Rect>) returns (allPacked: bool)
    modifies rects
    ensures forall k :: 0 <= k < rects.Length ==> rects[k] == Flagged(old(rects[k]))
    ensures allPacked <==> forall k :: 0 <= k < rects.Length ==> rects[k].wasPacked == 1
  {
    allPacked := true;
    for i := 0 to rects.Length
      invariant forall k :: 0 <= k < i ==> rects[k] == Flagged(old(rects[k]))
      invariant forall k :: i <= k < rects.Length ==> rects[k] == old(rects[k])
      invariant allPacked <==> forall k :: 0 <= k < i ==> rects[k].wasPacked == 1
    {
      rects[i] := rects[i].(wasPacked := if rects[i].x == MAXVAL && rects[i].y == MAXVAL then 0 else 1);
      if rects[i].wasPacked == 0 {
        allPacked := false;
      }
    }
  }

  // Numbering and the first sort.
  method SortByHeight(rects: array<Rect>)
    modifies rects
    ensures ReorderingOf(rects[..], old(rects[..])) && Ordered(RectHeightCompare, rects[..])
  {
    hide ReorderingOf, TotalPreorder, Ordered, Numbered;
    ghost var s0 := rects[..];
    NumberAll(rects);
    ghost var numbered := rects[..];
    ComparatorsArePreorders();
    Sort(rects, RectHeightCompare);
    SortedIsReordering(numbered, s0, rects[..]);
  }

  // The second sort and the flags.
  method Unsort(ghost c: Config, ghost st: State, ghost s0: seq<Rect>, ghost order: seq<Rect>, rects: array<Rect>)
    returns (allPacked: bool)
    requires Inv(c, st) && ReorderingOf(order, s0) && PlacedUpTo(c, st, order, rects[..], |order|)
    modifies rects
    ensures Outcome(c, st, s0, order, rects[..])
    ensures allPacked <==> forall k :: 0 <= k < rects.Length ==> rects[k].wasPacked == 1
  {
    hide Inv, Outcome, PlacedUpTo, ReorderingOf, TotalPreorder, Ordered, Flagged;
    ghost var placed := rects[..];
    ComparatorsArePreorders();
    Sort(rects, RectOriginalOrder);
    ghost var unsorted := rects[..];
    allPacked := FlagAll(rects);
    UnsortedIsOutcome(c, st, s0, order, placed, unsorted, rects[..]);
  }

  // c and st name the configuration and the state the call starts from.
  method PackRects(ghost c: Config, ghost st: State, ctx: Context, rects: array<Rect>)
    returns (allPacked: bool, ghost order: seq<Rect>)
    requires ctx.At(c, st) && Inv(c, st)
    modifies rects, ctx`activeHead, ctx`freeHead, ctx`active, ctx`free, ctx`placed, ctx.nodes
    ensures ReorderingOf(order, old(rects[..])) && Ordered(RectHeightCompare, order)
    ensures forall i, j :: 0 <= i < j < |order| ==>
              order[i].h > order[j].h || (order[i].h == order[j].h && order[i].w >= order[j].w)
    ensures ctx.At(c, RunFrom(c, st, Sizes(order))) && ctx.nodes == old(ctx.nodes)
    ensures Outcome(c, st, old(rects[..]), order, rects[..])
    ensures allPacked <==> forall k :: 0 <= k < rects.Length ==> rects[k].wasPacked == 1
  {
    hide Inv, Context.At, RunFrom, Sizes, Outcome, PlacedUpTo, ReorderingOf, Ordered;
    ghost var s0 := rects[..];
    SortByHeight(rects);
    order := rects[..];
    TallestAreFirst(order);
    PlaceAll(c, st, order, ctx, rects);
    allPacked := Unsort(c, st, s0, order, rects);
  }

  // --- What the caller can rely on -------------------------------------------------

  predicate GotBox(r: Rect) {
    r.wasPacked == 1 && !IsEmpty(r)
  }

  lemma WrittenBox(c: Config, st: State, sizes: seq<Size>, k: nat, r: Rect)
    requires Inv(c, st) && k < |sizes| && sizes[k] == SizeOf(r)
    requires Written(c, RunFrom(c, st, sizes[..k]), r) && r.wasPacked == Flagged(r).wasPacked
    ensures GotBox(r) <==> BoxAt(c, st, sizes, k).Some?
    ensures GotBox(r) ==> BoxAt(c, st, sizes, k).value == BoxOf(r) && Inside(c, BoxOf(r))
    ensures IsEmpty(r) ==> r.wasPacked == 1
  {
    hide Inv, RunFrom, MaxHeight, RoundUp, Choose;
    var before := RunFrom(c, st, sizes[..k]);
    InvShape(c, before);
    if !IsEmpty(r) {
      ChosenInRange(c, before, r.w, r.h);
    }
  }

  lemma TurnOf(order: seq<Rect>, i: int) returns (k: nat)
    requires Tagged(Tag, order) && 0 <= i < |order|
    ensures k < |order| && order[k].wasPacked == i
  {
    TagsAreOnto(Tag, order, i);
    k :| 0 <= k < |order| && Tag(order[k]) == i;
  }

  // The turn at which the rectangle at index i was packed, and the box it got then.
  lemma OutcomeOf(c: Config, st: State, s0: seq<Rect>, order: seq<Rect>, s: seq<Rect>, i: int) returns (k: nat)
    requires Inv(c, st) && ReorderingOf(order, s0) && Outcome(c, st, s0, order, s) && 0 <= i < |s|
    ensures k < |order| && order[k].wasPacked == i && SameInput(s[i], s0[i])
    ensures GotBox(s[i]) <==> BoxAt(c, st, Sizes(order), k).Some?
    ensures GotBox(s[i]) ==> BoxAt(c, st, Sizes(order), k).value == BoxOf(s[i]) && Inside(c, BoxOf(s[i]))
  {
    k := TurnOf(order, i);
    hide Inv, RunFrom, BoxAt, Written;
    WrittenBox(c, st, Sizes(order), k, s[i]);
  }

  // What the caller reads off a rectangle: an empty one is at the origin and counts as packed; one that
  // is not packed is at the largest coordinates; any other is packed and has its box.
  lemma WhatIsWritten(c: Config, st: State, s0: seq<Rect>, order: seq<Rect>, s: seq<Rect>, i: int)
    requires Inv(c, st) && ReorderingOf(order, s0) && Outcome(c, st, s0, order, s) && 0 <= i < |s|
    ensures SameInput(s[i], s0[i]) && (s[i].wasPacked == 0 || s[i].wasPacked == 1)
    ensures IsEmpty(s[i]) ==> s[i].x == 0 && s[i].y == 0 && s[i].wasPacked == 1
    ensures s[i].wasPacked == 0 ==> s[i].x == 0xffff && s[i].y == 0xffff
    ensures s[i].wasPacked == 1 && !IsEmpty(s[i]) ==> Inside(c, BoxOf(s[i]))
  {
    var k := OutcomeOf(c, st, s0, order, s, i);
    assert Written(c, RunFrom(c, st, Sizes(order)[..k]), s[i]);
    hide RunFrom, Place, Inside, Inv, BoxAt;
  }

  // A rectangle that is flagged as packed is among those the packer keeps clear of from then on.
  lemma FlaggedIsPlaced(c: Config, st: State, s0: seq<Rect>, order: seq<Rect>, s: seq<Rect>, i: int)
    requires Inv(c, st) && ReorderingOf(order, s0) && Outcome(c, st, s0, order, s) && 0 <= i < |s|
    ensures GotBox(s[i]) ==> BoxOf(s[i]) in RunFrom(c, st, Sizes(order)).placed
  {
    hide Inv, RunFrom, BoxAt, Written, Outcome, ReorderingOf, GotBox;
    var sizes := Sizes(order);
    var k := OutcomeOf(c, st, s0, order, s, i);
    StepPlaces(c, st, sizes, k);
    BoxesStay(c, st, sizes, k + 1, |sizes|);
    assert sizes[..|sizes|] == sizes;
  }

  // The rectangles a call flags as packed are inside the target, apart from each other, and
  // clear of everything that was packed before the call.
  lemma PackedRectsAreApart(c: Config, st: State, s0: seq<Rect>, order: seq<Rect>, s: seq<Rect>, i: int, j: int)
    requires Inv(c, st) && ReorderingOf(order, s0) && Outcome(c, st, s0, order, s)
    requires 0 <= i < |s| && 0 <= j < |s|
    ensures SameInput(s[i], s0[i])
    ensures GotBox(s[i]) ==> Inside(c, BoxOf(s[i])) && forall b :: b in st.placed ==> Disjoint(BoxOf(s[i]), b)
    ensures GotBox(s[i]) && GotBox(s[j]) && i != j ==> Disjoint(BoxOf(s[i]), BoxOf(s[j]))
  {
    hide Inv, RunFrom, BoxAt, Written, Disjoint, Outcome, ReorderingOf, GotBox;
    var sizes := Sizes(order);
    var k := OutcomeOf(c, st, s0, order, s, i);
    var l := OutcomeOf(c, st, s0, order, s, j);
    if GotBox(s[i]) {
      forall b | b in st.placed ensures Disjoint(BoxOf(s[i]), b) {
        RunKeepsClear(c, st, sizes, k, b);
      }
      if GotBox(s[j]) && i != j {
        DisjointSymmetric(BoxOf(s[i]), BoxOf(s[j]));
        if k < l {
          RunPlacesApart(c, st, sizes, k, l);
        } else {
          RunPlacesApart(c, st, sizes, l, k);
        }
      }
    }
  }
}
