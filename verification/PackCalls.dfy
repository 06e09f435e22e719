// Calls of stbrp_pack_rects one after the other on one target.
module PackCalls {
  import opened Skyline
  import opened Placement
  import opened Packing
  import opened Sorting
  import opened PackRects

  // A call under the settings in force: the array before and after it, and the order in which its
  // rectangles were packed.
  datatype Call = Call(c: Config, before: seq<Rect>, order: seq<Rect>, after: seq<Rect>)

  // Between two calls the alignment and the heuristic may be set anew.
  predicate SameTarget(c: Config, c': Config) {
    c' == c.(align := c'.align, bestFit := c'.bestFit) && 1 <= c'.align
  }

  lemma SettingsKeepInv(c: Config, c': Config, st: State)
    requires Inv(c, st) && SameTarget(c, c')
    ensures Inv(c', st)
  {
  }

  // What a call promises, and the state it leaves.
  ghost predicate Promised(st: State, call: Call)
    requires Inv(call.c, st)
  {
    && ReorderingOf(call.order, call.before) && Ordered(RectHeightCompare, call.order)
    && Outcome(call.c, st, call.before, call.order, call.after)
  }

  ghost function After(st: State, call: Call): (st': State)
    requires Inv(call.c, st)
    ensures Inv(call.c, st')
  {
    RunFrom(call.c, st, Sizes(call.order))
  }

  ghost predicate InARow(c: Config, st: State, calls: seq<Call>)
    requires Inv(c, st)
    decreases |calls|
  {
    calls == [] ||
    (SameTarget(c, calls[0].c) &&
     (SettingsKeepInv(c, calls[0].c, st);
      Promised(st, calls[0]) && InARow(calls[0].c, After(st, calls[0]), calls[1..])))
  }

  // The first of several calls, as the rest sees it.
  lemma FirstCall(c: Config, st: State, calls: seq<Call>)
    requires Inv(c, st) && InARow(c, st, calls) && calls != []
    ensures SameTarget(c, calls[0].c) && Inv(calls[0].c, st) && Promised(st, calls[0])
    ensures InARow(calls[0].c, After(st, calls[0]), calls[1..])
  {
    SettingsKeepInv(c, calls[0].c, st);
  }

  lemma PlacedStays(c: Config, st: State, sizes: seq<Size>)
    requires Inv(c, st)
    ensures st.placed <= RunFrom(c, st, sizes).placed
  {
    assert RunFrom(c, st, sizes[..0]) == st;
    hide RunFrom, Inv;
    BoxesStay(c, st, sizes, 0, |sizes|);
    assert sizes[..|sizes|] == sizes;
  }

  predicate LiesIn(c: Config, r: Rect) {
    GotBox(r) ==> Inside(c, BoxOf(r))
  }

  predicate ClearOf(r: Rect, b: Box) {
    GotBox(r) ==> Disjoint(BoxOf(r), b)
  }

  predicate AreApart(r: Rect, r': Rect) {
    GotBox(r) && GotBox(r') ==> Disjoint(BoxOf(r), BoxOf(r'))
  }

  // One call, in these terms.
  lemma CallKeepsClear(c: Config, st: State, call: Call, i: nat)
    requires Inv(call.c, st) && Promised(st, call) && SameTarget(c, call.c) && i < |call.after|
    ensures LiesIn(c, call.after[i])
    ensures forall b :: b in st.placed ==> ClearOf(call.after[i], b)
    ensures forall j :: 0 <= j < |call.after| && j != i ==> AreApart(call.after[i], call.after[j])
    ensures GotBox(call.after[i]) ==> BoxOf(call.after[i]) in After(st, call).placed
  {
    hide Inv, Outcome, RunFrom, Disjoint, ReorderingOf, Ordered, GotBox;
    PackedRectsAreApart(call.c, st, call.before, call.order, call.after, i, i);
    FlaggedIsPlaced(call.c, st, call.before, call.order, call.after, i);
    forall j | 0 <= j < |call.after| && j != i ensures AreApart(call.after[i], call.after[j]) {
      PackedRectsAreApart(call.c, st, call.before, call.order, call.after, i, j);
    }
  }

  // Whatever call comes later, it keeps clear of what is there.
  lemma {:induction false} LaterCallKeepsClear(c: Config, st: State, calls: seq<Call>, l: nat, j: nat, b: Box)
    requires Inv(c, st) && InARow(c, st, calls) && l < |calls| && j < |calls[l].after| && b in st.placed
    ensures ClearOf(calls[l].after[j], b)
    decreases |calls|
  {
    hide Inv, InARow, Promised, ClearOf, AreApart, SameTarget, LiesIn;
    FirstCall(c, st, calls);
    var call := calls[0];
    if l == 0 {
      CallKeepsClear(c, st, call, j);
    } else {
      PlacedStays(call.c, st, Sizes(call.order));
      LaterCallKeepsClear(call.c, After(st, call), calls[1..], l - 1, j, b);
    }
  }

  lemma ClearIsApart(r: Rect, r': Rect)
    requires ClearOf(r', BoxOf(r))
    ensures AreApart(r, r')
  {
  }

  lemma ElsewhereLiesIn(c: Config, c': Config, r: Rect)
    requires SameTarget(c, c') && LiesIn(c', r)
    ensures LiesIn(c, r)
  {
  }

  // Over any sequence of calls on one target, with either heuristic and any alignment in each: the
  // rectangles flagged as packed, in whichever calls, lie inside the target and pairwise apart.
  lemma {:induction false} FlaggedInAnyCallsAreApart(c: Config, st: State, calls: seq<Call>,
                                                     k: nat, i: nat, l: nat, j: nat)
    requires Inv(c, st) && InARow(c, st, calls) && k <= l < |calls|
    requires i < |calls[k].after| && j < |calls[l].after|
    ensures LiesIn(c, calls[k].after[i])
    ensures k != l || i != j ==> AreApart(calls[k].after[i], calls[l].after[j])
    decreases |calls|
  {
    hide Inv, InARow, Promised, After, AreApart, SameTarget, LiesIn, ClearOf, GotBox;
    FirstCall(c, st, calls);
    var call := calls[0];
    if k > 0 {
      FlaggedInAnyCallsAreApart(call.c, After(st, call), calls[1..], k - 1, i, l - 1, j);
      ElsewhereLiesIn(c, call.c, calls[k].after[i]);
    } else {
      CallKeepsClear(c, st, call, i);
      if l > 0 {
        FirstIsClearOfLater(c, st, calls, i, l, j);
      }
    }
  }

  lemma FirstIsClearOfLater(c: Config, st: State, calls: seq<Call>, i: nat, l: nat, j: nat)
    requires Inv(c, st) && InARow(c, st, calls) && 0 < l < |calls|
    requires i < |calls[0].after| && j < |calls[l].after|
    ensures AreApart(calls[0].after[i], calls[l].after[j])
  {
    FirstCall(c, st, calls);
    var call := calls[0];
    hide Inv, InARow, Promised, After, SameTarget, LiesIn, ClearOf, GotBox, Disjoint;
    CallKeepsClear(c, st, call, i);
    if GotBox(call.after[i]) {
      LaterCallKeepsClear(call.c, After(st, call), calls[1..], l - 1, j, BoxOf(call.after[i]));
      ClearIsApart(call.after[i], calls[l].after[j]);
    }
  }
}
